/** What several components share: an optional value, and how concatenations
    regroup and come apart. */
module Prelude {

  datatype Option<+T> = None | Some(value: T)

  /** What a reader takes off the front of a text, and what it leaves. */
  datatype Parsed<+T> = Unparsed | Parsed(value: T, rest: string)

  function Last<T>(s: seq<T>): T
    requires s != []
  {
    s[|s| - 1]
  }

  lemma Assoc<T>(a: seq<T>, b: seq<T>, c: seq<T>)
    ensures (a + b) + c == a + (b + c)
  {
  }

  lemma Assoc3<T>(a: seq<T>, b: seq<T>, c: seq<T>, d: seq<T>)
    ensures ((a + b) + c) + d == a + (b + (c + d))
  {
    Assoc(a + b, c, d);
    Assoc(a, b, c + d);
  }

  lemma Assoc4<T>(a: seq<T>, b: seq<T>, c: seq<T>, d: seq<T>, e: seq<T>)
    ensures (((a + b) + c) + d) + e == a + (b + (c + (d + e)))
  {
    Assoc3(a + b, c, d, e);
    Assoc(a, b, c + (d + e));
  }

  lemma DropPrefix<T>(p: seq<T>, r: seq<T>, s: seq<T>)
    requires p + r == p + s
    ensures r == s
  {
    assert r == (p + r)[|p|..] && s == (p + s)[|p|..];
  }

  /** Beginnings of equal length are equal, and so is what follows them. */
  lemma SplitAt<T>(a: seq<T>, b: seq<T>, r: seq<T>, s: seq<T>)
    requires a + r == b + s && |a| == |b|
    ensures a == b && r == s
  {
    assert a == (a + r)[..|a|] && b == (b + s)[..|b|];
    DropPrefix(a, r, s);
  }
}
