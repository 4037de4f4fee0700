/** Byte order on text, and sorting under a total order.  The source sorts
    names, enum cases and object keys before it writes them; these are the
    facts about sorting that its determinism rests on. */
module Ordering {
  import opened Prelude

  /** Rust's `Ord` on strings: byte by byte, a proper prefix first. */
  predicate LexLeq(a: string, b: string) {
    a == [] || (b != [] && (a[0] < b[0] || (a[0] == b[0] && LexLeq(a[1..], b[1..]))))
  }

  /** Any two compare, and comparing is transitive; different values may tie. */
  ghost predicate Ranks<T(!new)>(leq: (T, T) -> bool) {
    && (forall x, y :: leq(x, y) || leq(y, x))
    && (forall x, y, z :: leq(x, y) && leq(y, z) ==> leq(x, z))
  }

  ghost predicate TotalOrder<T(!new)>(leq: (T, T) -> bool) {
    Ranks(leq) && forall x, y :: leq(x, y) && leq(y, x) ==> x == y
  }

  ghost predicate Sorted<T>(s: seq<T>, leq: (T, T) -> bool) {
    forall i, j :: 0 <= i < j < |s| ==> leq(s[i], s[j])
  }

  ghost predicate NoDup<T>(s: seq<T>) {
    forall i, j :: 0 <= i < j < |s| ==> s[i] != s[j]
  }

  function Insert<T>(x: T, s: seq<T>, leq: (T, T) -> bool): (r: seq<T>)
    ensures multiset(r) == multiset(s) + multiset{x}
  {
    if s == [] then [x]
    else if leq(x, s[0]) then [x] + s
    else
      assert s == [s[0]] + s[1..];
      [s[0]] + Insert(x, s[1..], leq)
  }

  function Sort<T>(s: seq<T>, leq: (T, T) -> bool): (r: seq<T>)
    ensures multiset(r) == multiset(s)
  {
    if s == [] then []
    else
      assert s == [s[0]] + s[1..];
      Insert(s[0], Sort(s[1..], leq), leq)
  }

  lemma MultisetMembers<T>(a: seq<T>, b: seq<T>)
    requires multiset(a) == multiset(b)
    ensures |a| == |b|
    ensures forall x :: x in a <==> x in b
  {
    assert |multiset(a)| == |a| && |multiset(b)| == |b|;
    forall x ensures x in a <==> x in b {
      assert x in a <==> x in multiset(a);
      assert x in b <==> x in multiset(b);
    }
  }

  lemma {:induction false} InsertSorted<T(!new)>(x: T, s: seq<T>, leq: (T, T) -> bool)
    requires Ranks(leq) && Sorted(s, leq)
    ensures Sorted(Insert(x, s, leq), leq)
  {
    if s != [] && !leq(x, s[0]) {
      var rest := Insert(x, s[1..], leq);
      InsertSorted(x, s[1..], leq);
      forall y | y in rest ensures leq(s[0], y) {
        assert y in multiset(rest);
        assert y == x || y in s[1..];
      }
    }
  }

  lemma {:induction false} SortSorted<T(!new)>(s: seq<T>, leq: (T, T) -> bool)
    requires Ranks(leq)
    ensures Sorted(Sort(s, leq), leq)
  {
    if s != [] {
      SortSorted(s[1..], leq);
      InsertSorted(s[0], Sort(s[1..], leq), leq);
    }
  }

  lemma HeadIsLeast<T(!new)>(a: seq<T>, x: T, leq: (T, T) -> bool)
    requires TotalOrder(leq) && Sorted(a, leq) && x in a
    ensures leq(a[0], x)
  {
  }

  lemma CancelHead<T>(a: seq<T>, b: seq<T>)
    requires a != [] && b != [] && a[0] == b[0] && multiset(a) == multiset(b)
    ensures multiset(a[1..]) == multiset(b[1..])
  {
    assert a == [a[0]] + a[1..] && b == [b[0]] + b[1..];
    assert multiset(a[1..]) == multiset(a) - multiset{a[0]};
    assert multiset(b[1..]) == multiset(b) - multiset{b[0]};
  }

  lemma SameHead<T(!new)>(a: seq<T>, b: seq<T>, leq: (T, T) -> bool)
    requires TotalOrder(leq) && Sorted(a, leq) && Sorted(b, leq)
    requires a != [] && multiset(a) == multiset(b)
    ensures b != [] && a[0] == b[0]
  {
    MultisetMembers(a, b);
    HeadIsLeast(a, b[0], leq);
    HeadIsLeast(b, a[0], leq);
  }

  /** Two sorted lists of the same elements are the same list. */
  lemma {:induction false} SortedUnique<T(!new)>(a: seq<T>, b: seq<T>, leq: (T, T) -> bool)
    requires TotalOrder(leq) && Sorted(a, leq) && Sorted(b, leq)
    requires multiset(a) == multiset(b)
    ensures a == b
  {
    if a == [] {
      assert |multiset(b)| == 0;
    } else {
      SameHead(a, b, leq);
      CancelHead(a, b);
      SortedUnique(a[1..], b[1..], leq);
      assert a == [a[0]] + a[1..] && b == [b[0]] + b[1..];
    }
  }

  /** Sorting forgets exactly the order: equal results iff equal contents. */
  lemma SortForgetsOrder<T(!new)>(a: seq<T>, b: seq<T>, leq: (T, T) -> bool)
    requires TotalOrder(leq)
    ensures Sort(a, leq) == Sort(b, leq) <==> multiset(a) == multiset(b)
  {
    SortSorted(a, leq);
    SortSorted(b, leq);
    if multiset(a) == multiset(b) {
      SortedUnique(Sort(a, leq), Sort(b, leq), leq);
    }
  }

  // ------------------------------------------------------------------
  // Sorting keeps the order of ties
  // ------------------------------------------------------------------

  ghost predicate Tied<T>(x: T, y: T, leq: (T, T) -> bool) {
    leq(x, y) && leq(y, x)
  }

  ghost function TieHead<T>(x: T, z: T, leq: (T, T) -> bool): seq<T> {
    if Tied(x, z, leq) then [x] else []
  }

  /** The elements tied with z, in the order they have. */
  ghost function Ties<T>(s: seq<T>, z: T, leq: (T, T) -> bool): seq<T> {
    if s == [] then []
    else TieHead(s[0], z, leq) + Ties(s[1..], z, leq)
  }

  lemma TiesOfJoin<T>(x: T, s: seq<T>, z: T, leq: (T, T) -> bool)
    ensures Ties([x] + s, z, leq) == TieHead(x, z, leq) + Ties(s, z, leq)
  {
    assert ([x] + s)[1..] == s;
  }

  lemma SwapWithEmpty<T>(a: seq<T>, b: seq<T>, c: seq<T>)
    requires a == [] || b == []
    ensures a + (b + c) == b + (a + c)
  {
  }

  lemma OneTieHead<T(!new)>(x: T, y: T, z: T, leq: (T, T) -> bool)
    requires Ranks(leq) && !leq(x, y)
    ensures TieHead(x, z, leq) == [] || TieHead(y, z, leq) == []
  {
  }

  lemma {:induction false} InsertKeepsTies<T(!new)>(x: T, s: seq<T>, z: T, leq: (T, T) -> bool)
    requires Ranks(leq)
    ensures Ties(Insert(x, s, leq), z, leq) == TieHead(x, z, leq) + Ties(s, z, leq)
  {
    TiesOfJoin(x, s, z, leq);
    hide Ties, TieHead, Ranks;
    if s == [] {
      assert [x] + s == [x];
    } else if !leq(x, s[0]) {
      var y, rest := s[0], s[1..];
      assert s == [y] + rest;
      InsertKeepsTies(x, rest, z, leq);
      assert Insert(x, s, leq) == [y] + Insert(x, rest, leq);
      TiesOfJoin(y, Insert(x, rest, leq), z, leq);
      TiesOfJoin(y, rest, z, leq);
      OneTieHead(x, y, z, leq);
      SwapWithEmpty(TieHead(x, z, leq), TieHead(y, z, leq), Ties(rest, z, leq));
    }
  }

  lemma {:induction false} SortKeepsTies<T(!new)>(s: seq<T>, z: T, leq: (T, T) -> bool)
    requires Ranks(leq)
    ensures Ties(Sort(s, leq), z, leq) == Ties(s, z, leq)
  {
    if s != [] {
      SortKeepsTies(s[1..], z, leq);
      InsertKeepsTies(s[0], Sort(s[1..], leq), z, leq);
    }
  }

  lemma {:induction false} TiesAreMembers<T(!new)>(s: seq<T>, z: T, leq: (T, T) -> bool)
    ensures forall x :: x in Ties(s, z, leq) ==> x in s && Tied(x, z, leq)
  {
    if s != [] {
      TiesAreMembers(s[1..], z, leq);
    }
  }

  lemma {:induction false} TiesByClass<T(!new)>(s: seq<T>, y: T, z: T, leq: (T, T) -> bool)
    requires Ranks(leq) && Tied(y, z, leq)
    ensures Ties(s, y, leq) == Ties(s, z, leq)
  {
    if s != [] {
      TiesByClass(s[1..], y, z, leq);
    }
  }

  lemma SortedHeads<T(!new)>(a: seq<T>, b: seq<T>, leq: (T, T) -> bool)
    requires Ranks(leq) && Sorted(a, leq) && Sorted(b, leq) && a != []
    requires forall z :: Ties(a, z, leq) == Ties(b, z, leq)
    ensures b != [] && a[0] == b[0]
  {
    assert Ties(a, a[0], leq)[0] == a[0];
    assert a[0] in Ties(b, a[0], leq);
    TiesAreMembers(b, a[0], leq);
    assert Ties(b, b[0], leq)[0] == b[0];
    assert b[0] in Ties(a, b[0], leq);
    TiesAreMembers(a, b[0], leq);
    assert Tied(a[0], b[0], leq);
    TiesByClass(b, a[0], b[0], leq);
  }

  /** Sorted lists that agree on every group of ties are the same list. */
  lemma {:induction false} SortedByTies<T(!new)>(a: seq<T>, b: seq<T>, leq: (T, T) -> bool)
    requires Ranks(leq) && Sorted(a, leq) && Sorted(b, leq)
    requires forall z :: Ties(a, z, leq) == Ties(b, z, leq)
    ensures a == b
  {
    assert b != [] ==> Ties(b, b[0], leq) != [];
    if a != [] {
      SortedHeads(a, b, leq);
      forall z ensures Ties(a[1..], z, leq) == Ties(b[1..], z, leq) {
        var head := TieHead(a[0], z, leq);
        assert Ties(a, z, leq) == head + Ties(a[1..], z, leq) && Ties(b, z, leq) == head + Ties(b[1..], z, leq);
        DropPrefix(head, Ties(a[1..], z, leq), Ties(b[1..], z, leq));
      }
      SortedByTies(a[1..], b[1..], leq);
      assert a == [a[0]] + a[1..] && b == [b[0]] + b[1..];
    }
  }

  // ------------------------------------------------------------------
  // Text and sets of names
  // ------------------------------------------------------------------

  lemma LexTotal(a: string, b: string)
    ensures LexLeq(a, b) || LexLeq(b, a)
    ensures LexLeq(a, b) && LexLeq(b, a) ==> a == b
  {
    if a != [] && b != [] && a[0] == b[0] {
      LexTotal(a[1..], b[1..]);
      assert a == [a[0]] + a[1..] && b == [b[0]] + b[1..];
    }
  }

  lemma LexTransitive(a: string, b: string, c: string)
    requires LexLeq(a, b) && LexLeq(b, c)
    ensures LexLeq(a, c)
  {
    if a != [] && a[0] == b[0] == c[0] {
      LexTransitive(a[1..], b[1..], c[1..]);
    }
  }

  lemma LexOrder()
    ensures TotalOrder(LexLeq)
  {
    forall a, b
      ensures LexLeq(a, b) || LexLeq(b, a)
      ensures LexLeq(a, b) && LexLeq(b, a) ==> a == b
    {
      LexTotal(a, b);
    }
    forall a, b, c | LexLeq(a, b) && LexLeq(b, c) ensures LexLeq(a, c) {
      LexTransitive(a, b, c);
    }
  }

  /** The order of bytes: a proper prefix comes first, and otherwise the text
      with the lower byte where the two first differ. */
  ghost predicate Precedes(a: string, b: string) {
    a < b || exists k :: 0 <= k < |a| && k < |b| && a[..k] == b[..k] && a[k] < b[k]
  }

  /** The first difference decides, wherever the texts have the same first byte. */
  lemma PrecedesTail(a: string, b: string)
    requires a != [] && b != [] && a[0] == b[0]
    ensures Precedes(a, b) <==> Precedes(a[1..], b[1..])
  {
    if k :| 0 <= k < |a| && k < |b| && a[..k] == b[..k] && a[k] < b[k] {
      var j := k - 1;
      assert a[1..][..j] == a[..k][1..] && b[1..][..j] == b[..k][1..];
    }
    if k :| 0 <= k < |a| - 1 && k < |b| - 1 && a[1..][..k] == b[1..][..k] && a[1..][k] < b[1..][k] {
      var j := k + 1;
      assert a[..j] == [a[0]] + a[1..][..k] && b[..j] == [b[0]] + b[1..][..k];
      assert a[..j] == b[..j] && a[j] < b[j];
    }
  }

  lemma {:induction false} LexIsExact(a: string, b: string)
    ensures LexLeq(a, b) <==> a == b || Precedes(a, b)
  {
    if a != [] && b != [] {
      if a[0] == b[0] {
        LexIsExact(a[1..], b[1..]);
        PrecedesTail(a, b);
        assert a == [a[0]] + a[1..] && b == [b[0]] + b[1..];
      } else {
        assert a[..0] == b[..0];
      }
    }
  }

  ghost function SetToSeq<T>(s: set<T>): (r: seq<T>)
    ensures multiset(r) == multiset(s)
  {
    if s == {} then []
    else
      var x :| x in s;
      [x] + SetToSeq(s - {x})
  }

  /** A set's elements in order, whatever order the set yields them in. */
  ghost function SortedSet<T(!new)>(s: set<T>, leq: (T, T) -> bool): (r: seq<T>)
    ensures |r| == |s|
    ensures forall x :: x in r <==> x in s
  {
    var r := Sort(SetToSeq(s), leq);
    assert |r| == |multiset(r)| == |multiset(s)| == |s|;
    assert forall x :: x in r <==> x in multiset(r);
    r
  }

  /** Any sorted listing of a set is that set's sorted listing. */
  lemma SortedSetUnique<T(!new)>(r: seq<T>, s: set<T>, leq: (T, T) -> bool)
    requires TotalOrder(leq) && Sorted(r, leq) && multiset(r) == multiset(s)
    ensures r == SortedSet(s, leq)
  {
    SortSorted(SetToSeq(s), leq);
    SortedUnique(r, SortedSet(s, leq), leq);
  }

  /** Collect a set in whatever order it yields, then sort it. */
  method CollectSorted<T(!new, ==)>(keys: set<T>, leq: (T, T) -> bool) returns (names: seq<T>)
    requires TotalOrder(leq)
    ensures names == SortedSet(keys, leq)
  {
    var rest := keys;
    names := [];
    while rest != {}
      invariant rest <= keys
      invariant multiset(names) == multiset(keys - rest)
      decreases rest
    {
      var k :| k in rest;
      assert keys - (rest - {k}) == (keys - rest) + {k};
      rest := rest - {k};
      names := names + [k];
    }
    assert keys - rest == keys;
    SortSorted(names, leq);
    names := Sort(names, leq);
    SortedSetUnique(names, keys, leq);
  }

  ghost function SortedNames(s: set<string>): seq<string> {
    SortedSet(s, LexLeq)
  }

  lemma TwiceCounted<T>(r: seq<T>, i: nat, j: nat)
    requires i < j < |r| && r[i] == r[j]
    ensures multiset(r)[r[i]] >= 2
  {
    assert r == r[..j] + [r[j]] + r[j + 1..];
    assert r[i] in r[..j];
  }

  lemma SortedNamesNoDup(s: set<string>)
    ensures NoDup(SortedNames(s))
  {
    var r := SortedNames(s);
    assert multiset(r) == multiset(SetToSeq(s)) == multiset(s);
    forall i, j | 0 <= i < j < |r| ensures r[i] != r[j] {
      if r[i] == r[j] {
        TwiceCounted(r, i, j);
      }
    }
  }

  lemma SortedNamesMembers(s: set<string>)
    ensures forall x :: x in SortedNames(s) <==> x in s
  {
  }

  lemma SortedNamesSorted(s: set<string>)
    ensures Sorted(SortedNames(s), LexLeq)
  {
    LexOrder();
    SortSorted(SetToSeq(s), LexLeq);
  }

  /** A sorted list of names runs upwards in byte order. */
  ghost predicate Ascending(names: seq<string>) {
    forall i, j :: 0 <= i < j < |names| ==> Precedes(names[i], names[j])
  }

  lemma SortedNamesAscend(s: set<string>)
    ensures Ascending(SortedNames(s))
    ensures |SortedNames(s)| == |s| && forall x :: x in SortedNames(s) <==> x in s
  {
    var r := SortedNames(s);
    SortedNamesSorted(s);
    SortedNamesNoDup(s);
    forall i, j | 0 <= i < j < |r| ensures Precedes(r[i], r[j]) {
      LexIsExact(r[i], r[j]);
    }
  }

  method CollectNames(keys: set<string>) returns (names: seq<string>)
    ensures names == SortedNames(keys)
  {
    LexOrder();
    names := CollectSorted(keys, LexLeq);
  }

  /** The bags that f gives for the members of s, put together. */
  ghost function BagUnion<K, T>(s: set<K>, f: K -> multiset<T>): multiset<T> {
    if s == {} then multiset{}
    else
      var x :| x in s;
      f(x) + BagUnion(s - {x}, f)
  }

  lemma {:induction false} BagUnionRemove<K, T>(s: set<K>, f: K -> multiset<T>, x: K)
    requires x in s
    ensures BagUnion(s, f) == f(x) + BagUnion(s - {x}, f)
    decreases s
  {
    var y :| y in s && BagUnion(s, f) == f(y) + BagUnion(s - {y}, f);
    if y != x {
      BagUnionRemove(s - {y}, f, x);
      BagUnionRemove(s - {x}, f, y);
      assert s - {y} - {x} == s - {x} - {y};
    }
  }

  lemma BagUnionStep<K, T>(before: seq<T>, added: seq<T>, rest: set<K>, f: K -> multiset<T>, x: K)
    requires x in rest && f(x) == multiset(added)
    ensures multiset(before + added) + BagUnion(rest - {x}, f) == multiset(before) + BagUnion(rest, f)
  {
    BagUnionRemove(rest, f, x);
  }

  lemma {:induction false} BagUnionMember<K, T>(s: set<K>, f: K -> multiset<T>, y: T) returns (x: K)
    requires y in BagUnion(s, f)
    ensures x in s && y in f(x)
  {
    x :| x in s && BagUnion(s, f) == f(x) + BagUnion(s - {x}, f);
    if y !in f(x) {
      x := BagUnionMember(s - {x}, f, y);
    }
  }

  lemma BagUnionEmpty<K, T>(s: set<K>, f: K -> multiset<T>)
    ensures BagUnion(s, f) == multiset{} <==> forall x :: x in s ==> f(x) == multiset{}
  {
    forall x | x in s ensures BagUnion(s, f) == f(x) + BagUnion(s - {x}, f) {
      BagUnionRemove(s, f, x);
    }
    if BagUnion(s, f) == multiset{} {
      forall x | x in s ensures f(x) == multiset{} {
        assert f(x) <= BagUnion(s, f);
      }
    } else {
      var y :| y in BagUnion(s, f);
      var x := BagUnionMember(s, f, y);
      assert y in f(x);
    }
  }
}
