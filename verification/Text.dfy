/** Decimal text.  A string of the model stands for UTF-8 bytes, one char
    for one byte. */
module Text {

  predicate IsDigit(c: char) { '0' <= c <= '9' }

  function DigitChar(d: nat): (c: char)
    requires d < 10
    ensures IsDigit(c)
  {
    ('0' as int + d) as char
  }

  /** What `format!("{n}")` prints for an unsigned integer. */
  function Decimal(n: nat): (s: string)
    ensures |s| > 0
    ensures forall i :: 0 <= i < |s| ==> IsDigit(s[i])
  {
    if n < 10 then [DigitChar(n)] else Decimal(n / 10) + [DigitChar(n % 10)]
  }

  function DecimalValue(s: string): int
    requires forall i :: 0 <= i < |s| ==> IsDigit(s[i])
  {
    if s == [] then 0
    else 10 * DecimalValue(s[..|s| - 1]) + (s[|s| - 1] as int - '0' as int)
  }

  /** Reading the digits back gives the number: decimal text is unambiguous. */
  lemma {:induction false} DecimalRoundTrip(n: nat)
    ensures DecimalValue(Decimal(n)) == n
  {
    var s := Decimal(n);
    if n < 10 {
      assert s[..|s| - 1] == [];
    } else {
      DecimalRoundTrip(n / 10);
      assert s[..|s| - 1] == Decimal(n / 10);
    }
  }

  /** Text that cannot be mistaken for more digits. */
  ghost predicate StopsNumber(s: string) { s == [] || !IsDigit(s[0]) }

  /** Digits cannot run on past the end of a number that text follows. */
  lemma DigitsEnd(a: string, b: string, r: string, s: string)
    requires a + r == b + s && StopsNumber(r)
    requires forall i :: 0 <= i < |b| ==> IsDigit(b[i])
    ensures |b| <= |a|
  {
    var w := a + r;
    assert r == w[|a|..];
    assert forall k :: 0 <= k < |b| ==> w[k] == b[k];
  }

  /** A number followed by a non-digit can be split off again. */
  lemma DecimalPrefix(m: nat, n: nat, r: string, s: string)
    requires Decimal(m) + r == Decimal(n) + s
    requires StopsNumber(r) && StopsNumber(s)
    ensures m == n && r == s
  {
    var a, b := Decimal(m), Decimal(n);
    DigitsEnd(a, b, r, s);
    DigitsEnd(b, a, s, r);
    assert a == (a + r)[..|a|] && b == (b + s)[..|b|];
    assert r == (a + r)[|a|..] && s == (b + s)[|b|..];
    DecimalRoundTrip(m);
    DecimalRoundTrip(n);
  }
}
