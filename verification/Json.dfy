/** Canonical JSON text: what a statement's signature is computed over. */
module Json {
  import opened Prelude
  import opened Ordering
  import opened Text

  /** The integers a JSON number can hold exactly: i64 and u64 together. */
  newtype JsonInt = n: int | -0x8000_0000_0000_0000 <= n < 0x1_0000_0000_0000_0000

  datatype Member = Member(key: string, value: Json)

  /** Object members are kept in insertion order; keys are distinct. */
  datatype Json =
    | Null | Bool(b: bool) | Integer(n: JsonInt) | Float(f: real)
    | String(s: string) | Array(items: seq<Json>) | Object(members: seq<Member>)

  function Keys(members: seq<Member>): set<string> {
    set m | m in members :: m.key
  }

  ghost predicate DistinctKeys(members: seq<Member>) {
    forall i, j :: 0 <= i < j < |members| ==> members[i].key != members[j].key
  }

  ghost predicate WellFormedMember(m: Member)
    decreases m, 1
  {
    WellFormed(m.value)
  }

  ghost predicate WellFormed(v: Json)
    decreases v, 0
  {
    match v
    case Array(items) => forall i :: 0 <= i < |items| ==> WellFormed(items[i])
    case Object(members) => DistinctKeys(members) && forall i :: 0 <= i < |members| ==> WellFormedMember(members[i])
    case _ => true
  }

  predicate AllIntegersMember(m: Member)
    decreases m, 1
  {
    AllIntegers(m.value)
  }

  /** No number anywhere in the value is fractional. */
  predicate AllIntegers(v: Json)
    decreases v, 0
  {
    match v
    case Float(_) => false
    case Array(items) => forall i :: 0 <= i < |items| ==> AllIntegers(items[i])
    case Object(members) => forall i :: 0 <= i < |members| ==> AllIntegersMember(members[i])
    case _ => true
  }

  /** Where the member with this key is; the length if there is none. */
  function KeyIndex(members: seq<Member>, key: string): (i: nat)
    ensures i <= |members|
    ensures i < |members| ==> members[i].key == key
    ensures i == |members| ==> key !in Keys(members)
  {
    if members == [] then 0
    else if members[0].key == key then 0
    else
      assert forall m :: m in members ==> m == members[0] || m in members[1..];
      1 + KeyIndex(members[1..], key)
  }

  ghost predicate SameMember(m: Member, ns: seq<Member>)
    decreases m, 1
  {
    var i := KeyIndex(ns, m.key);
    i < |ns| && Same(m.value, ns[i].value)
  }

  /** The same JSON value: array order counts, member order does not. */
  ghost predicate Same(v: Json, w: Json)
    decreases v, 0
  {
    match (v, w)
    case (Array(xs), Array(ys)) => |xs| == |ys| && forall i :: 0 <= i < |xs| ==> Same(xs[i], ys[i])
    case (Object(ms), Object(ns)) => Keys(ms) == Keys(ns) && forall i :: 0 <= i < |ms| ==> SameMember(ms[i], ns)
    case _ => v == w
  }

  // ------------------------------------------------------------------
  // Strings: section 7 of RFC 8259, with the escapes serde_json writes
  // ------------------------------------------------------------------

  function HexDigit(d: nat): char
    requires d < 16
  {
    if d < 10 then ('0' as int + d) as char else ('a' as int + d - 10) as char
  }

  function Escape(c: char): string {
    if c == '\"' then "\\\""
    else if c == '\\' then "\\\\"
    else if c as int == 0x08 then "\\b"
    else if c as int == 0x0C then "\\f"
    else if c == '\n' then "\\n"
    else if c == '\r' then "\\r"
    else if c == '\t' then "\\t"
    else if c as int < 0x20 then "\\u00" + [HexDigit(c as int / 16), HexDigit(c as int % 16)]
    else [c]
  }

  function EscapeAll(s: string): string {
    if s == "" then "" else Escape(s[0]) + EscapeAll(s[1..])
  }

  function Quote(s: string): string {
    "\"" + EscapeAll(s) + "\""
  }

  lemma EscapeSplit(c: char, d: char, r: string, s: string)
    requires Escape(c) + r == Escape(d) + s
    ensures c == d && r == s
  {
    var x := Escape(c) + r;
    assert x[0] == Escape(c)[0] == Escape(d)[0];
    if x[0] == '\\' {
      assert x[1] == Escape(c)[1] == Escape(d)[1];
      if x[1] == 'u' {
        assert x[4] == Escape(c)[4] == Escape(d)[4];
        assert x[5] == Escape(c)[5] == Escape(d)[5];
      }
    }
    assert c == d;
    assert r == x[|Escape(c)|..] == s;
  }

  lemma QuoteEndsText(a: string, r: string)
    ensures (EscapeAll(a) + "\"" + r)[0] == '\"' <==> a == ""
  {
    if a != "" {
      assert (EscapeAll(a) + "\"" + r)[0] == Escape(a[0])[0];
    }
  }

  lemma EscapeFirst(a: string, r: string)
    requires a != ""
    ensures EscapeAll(a) + "\"" + r == Escape(a[0]) + (EscapeAll(a[1..]) + "\"" + r)
  {
  }

  /** The closing quote is found where it was written. */
  lemma {:induction false} EscapeAllSplit(a: string, b: string, r: string, s: string)
    requires EscapeAll(a) + "\"" + r == EscapeAll(b) + "\"" + s
    ensures a == b && r == s
  {
    QuoteEndsText(a, r);
    QuoteEndsText(b, s);
    if a == "" {
      assert r == (EscapeAll(a) + "\"" + r)[1..] && s == (EscapeAll(b) + "\"" + s)[1..];
    } else {
      EscapeFirst(a, r);
      EscapeFirst(b, s);
      EscapeSplit(a[0], b[0], EscapeAll(a[1..]) + "\"" + r, EscapeAll(b[1..]) + "\"" + s);
      EscapeAllSplit(a[1..], b[1..], r, s);
      assert a == [a[0]] + a[1..] && b == [b[0]] + b[1..];
    }
  }

  lemma QuoteOpens(a: string, r: string)
    ensures Quote(a) + r == "\"" + (EscapeAll(a) + "\"" + r)
  {
    Assoc("\"", EscapeAll(a), "\"");
    Assoc("\"", EscapeAll(a) + "\"", r);
  }

  lemma QuoteSplit(a: string, b: string, r: string, s: string)
    requires Quote(a) + r == Quote(b) + s
    ensures a == b && r == s
  {
    QuoteOpens(a, r);
    QuoteOpens(b, s);
    hide Quote, EscapeAll;
    DropPrefix("\"", EscapeAll(a) + "\"" + r, EscapeAll(b) + "\"" + s);
    EscapeAllSplit(a, b, r, s);
  }

  // ------------------------------------------------------------------
  // The text
  // ------------------------------------------------------------------

  function IntegerText(n: int): string {
    if n < 0 then "-" + Decimal(-n) else Decimal(n)
  }

  function Comma(i: nat): string {
    if i == 0 then "" else ","
  }

  ghost predicate IntegerItems(items: seq<Json>) {
    forall k :: 0 <= k < |items| ==> AllIntegers(items[k])
  }

  ghost predicate IntegerMembers(members: seq<Member>) {
    forall k :: 0 <= k < |members| ==> AllIntegersMember(members[k])
  }

  ghost predicate Listed(keys: seq<string>, members: seq<Member>) {
    forall k :: k in keys ==> k in Keys(members)
  }

  /** From the i-th key, in key order, to the closing brace. */
  ghost function MembersFrom(members: seq<Member>, keys: seq<string>, i: nat): string
    requires i <= |keys| && Listed(keys, members) && IntegerMembers(members)
    decreases members, |keys| - i
  {
    if i == |keys| then "}"
    else
      assert keys[i] in keys;
      Comma(i) + (MemberText(members[KeyIndex(members, keys[i])]) + MembersFrom(members, keys, i + 1))
  }

  /** From item i to the closing bracket. */
  ghost function ItemsFrom(items: seq<Json>, i: nat): string
    requires i <= |items| && IntegerItems(items)
    decreases items, |items| - i
  {
    if i == |items| then "]" else Comma(i) + (TextOf(items[i]) + ItemsFrom(items, i + 1))
  }

  ghost function TextOf(v: Json): string
    requires AllIntegers(v)
    decreases v, 0
  {
    match v
    case Null => "null"
    case Bool(b) => if b then "true" else "false"
    case Integer(n) => IntegerText(n as int)
    case String(s) => Quote(s)
    case Array(items) => "[" + ItemsFrom(items, 0)
    case Object(members) => "{" + MembersFrom(members, SortedNames(Keys(members)), 0)
  }

  ghost function MemberText(m: Member): string
    requires AllIntegersMember(m)
    decreases m, 1
  {
    Quote(m.key) + (":" + TextOf(m.value))
  }

  // ------------------------------------------------------------------
  // The text determines the value
  // ------------------------------------------------------------------

  /** What can stand after a value: nothing that could prolong a number. */
  ghost predicate Ends(s: string) { StopsNumber(s) }

  /** The first byte tells the kind of value. */
  ghost predicate Starts(v: Json, c: char) {
    match v
    case Null => c == 'n'
    case Bool(b) => c == if b then 't' else 'f'
    case Integer(n) => IsDigit(c) || c == '-'
    case Float(_) => true
    case String(_) => c == '\"'
    case Array(_) => c == '['
    case Object(_) => c == '{'
  }

  lemma TextStarts(v: Json)
    requires AllIntegers(v)
    ensures TextOf(v) != "" && Starts(v, TextOf(v)[0])
  {
  }

  lemma IntegerStarts(n: int, r: string)
    ensures IntegerText(n) != "" && ((IntegerText(n) + r)[0] == '-' <==> n < 0)
  {
    if n >= 0 {
      assert IsDigit(Decimal(n)[0]);
    }
  }

  lemma EndsStops(s: string)
    ensures Ends(s) <==> StopsNumber(s)
  {
  }

  lemma IntegerSplit(m: int, n: int, r: string, s: string)
    requires IntegerText(m) + r == IntegerText(n) + s && Ends(r) && Ends(s)
    ensures m == n && r == s
  {
    IntegerStarts(m, r);
    IntegerStarts(n, s);
    hide Decimal, Ends;
    if m < 0 {
      Assoc("-", Decimal(-m), r);
      Assoc("-", Decimal(-n), s);
      DropPrefix("-", Decimal(-m) + r, Decimal(-n) + s);
      EndsStops(r);
      EndsStops(s);
      DecimalPrefix(-m, -n, r, s);
    } else {
      EndsStops(r);
      EndsStops(s);
      DecimalPrefix(m, n, r, s);
    }
  }

  lemma KeyAt(members: seq<Member>, i: nat)
    requires DistinctKeys(members) && i < |members|
    ensures members[i].key in Keys(members) && KeyIndex(members, members[i].key) == i
  {
    assert members[i] in members;
  }

  lemma SameKeysSame(ms: seq<Member>, ns: seq<Member>, ks: seq<string>, ls: seq<string>)
    requires DistinctKeys(ms) && (forall k :: k in ks <==> k in Keys(ms)) && (forall k :: k in ls <==> k in Keys(ns))
    requires |ks| == |ls|
    requires forall k :: 0 <= k < |ks| ==> ks[k] == ls[k] && SameMember(ms[KeyIndex(ms, ks[k])], ns)
    ensures Same(Object(ms), Object(ns))
  {
    assert ks == ls;
    assert Keys(ms) == Keys(ns);
    forall i | 0 <= i < |ms| ensures SameMember(ms[i], ns) {
      KeyAt(ms, i);
      assert ms[i].key in ks;
    }
  }

  ghost predicate WellFormedMembers(members: seq<Member>) {
    forall k :: 0 <= k < |members| ==> WellFormedMember(members[k])
  }

  lemma MembersEnd(members: seq<Member>, keys: seq<string>, i: nat, r: string)
    requires 0 < i <= |keys| && Listed(keys, members) && IntegerMembers(members)
    ensures Ends(MembersFrom(members, keys, i) + r)
  {
  }

  lemma MembersStart(members: seq<Member>, keys: seq<string>, i: nat, r: string)
    requires i < |keys| && Listed(keys, members) && IntegerMembers(members)
    ensures keys[i] in Keys(members)
    ensures MembersFrom(members, keys, i) + r
         == Comma(i) + (MemberText(members[KeyIndex(members, keys[i])]) + (MembersFrom(members, keys, i + 1) + r))
    ensures (MembersFrom(members, keys, i) + r)[0] != '}'
  {
    assert keys[i] in keys;
    var m := members[KeyIndex(members, keys[i])];
    assert MemberText(m)[0] == '\"';
    Assoc(Comma(i), MemberText(m) + MembersFrom(members, keys, i + 1), r);
    Assoc(MemberText(m), MembersFrom(members, keys, i + 1), r);
  }

  lemma {:induction false} ObjectSplit(v: Json, w: Json, r: string, s: string)
    requires v.Object? && w.Object?
    requires WellFormed(v) && WellFormed(w) && AllIntegers(v) && AllIntegers(w)
    requires TextOf(v) + r == TextOf(w) + s && Ends(r) && Ends(s)
    ensures Same(v, w) && r == s
    decreases v.members, 1, 0
  {
    var ks, ls := SortedNames(Keys(v.members)), SortedNames(Keys(w.members));
    Assoc("{", MembersFrom(v.members, ks, 0), r);
    Assoc("{", MembersFrom(w.members, ls, 0), s);
    DropPrefix("{", MembersFrom(v.members, ks, 0) + r, MembersFrom(w.members, ls, 0) + s);
    MembersSplit(v.members, w.members, ks, ls, 0, r, s);
    SameKeysSame(v.members, w.members, ks, ls);
  }

  /** A comma or a bracket, never part of a value's text. */
  lemma ItemsEnd(items: seq<Json>, i: nat, r: string)
    requires 0 < i <= |items| && IntegerItems(items)
    ensures Ends(ItemsFrom(items, i) + r)
  {
  }

  lemma ItemsStart(items: seq<Json>, i: nat, r: string)
    requires i < |items| && IntegerItems(items)
    ensures ItemsFrom(items, i) + r == Comma(i) + (TextOf(items[i]) + (ItemsFrom(items, i + 1) + r))
    ensures (ItemsFrom(items, i) + r)[0] != ']'
  {
    TextStarts(items[i]);
    Assoc(Comma(i), TextOf(items[i]) + ItemsFrom(items, i + 1), r);
    Assoc(TextOf(items[i]), ItemsFrom(items, i + 1), r);
  }

  lemma ItemAt(items: seq<Json>, i: nat)
    requires i < |items| && IntegerItems(items) && WellFormed(Array(items))
    ensures AllIntegers(items[i]) && WellFormed(items[i])
  {
  }

  lemma ItemsUnfold(items: seq<Json>, i: nat)
    requires i <= |items| && IntegerItems(items)
    ensures ItemsFrom(items, i) ==
      if i == |items| then "]" else Comma(i) + (TextOf(items[i]) + ItemsFrom(items, i + 1))
  {
  }

  lemma {:induction false} ItemsSplit(xs: seq<Json>, ys: seq<Json>, i: nat, r: string, s: string)
    requires i <= |xs| && i <= |ys|
    requires IntegerItems(xs) && IntegerItems(ys)
    requires WellFormed(Array(xs)) && WellFormed(Array(ys))
    requires ItemsFrom(xs, i) + r == ItemsFrom(ys, i) + s && Ends(r) && Ends(s)
    ensures |xs| == |ys| && r == s
    ensures forall k :: i <= k < |xs| ==> Same(xs[k], ys[k])
    decreases xs, |xs| - i
  {
    hide Ends, IntegerItems, WellFormed, ItemsFrom, Comma;
    ItemsUnfold(xs, i);
    ItemsUnfold(ys, i);
    if i < |xs| { ItemsStart(xs, i, r); ItemAt(xs, i); }
    if i < |ys| { ItemsStart(ys, i, s); ItemAt(ys, i); }
    if i == |xs| {
      assert (ItemsFrom(xs, i) + r)[0] == ']';
      DropPrefix("]", r, s);
    } else {
      assert i < |ys|;
      var a, b := ItemsFrom(xs, i + 1) + r, ItemsFrom(ys, i + 1) + s;
      DropPrefix(Comma(i), TextOf(xs[i]) + a, TextOf(ys[i]) + b);
      ItemsEnd(xs, i + 1, r);
      ItemsEnd(ys, i + 1, s);
      TextSplit(xs[i], ys[i], a, b);
      ItemsSplit(xs, ys, i + 1, r, s);
    }
  }

  lemma {:induction false} TextSplit(v: Json, w: Json, r: string, s: string)
    requires WellFormed(v) && WellFormed(w) && AllIntegers(v) && AllIntegers(w)
    requires TextOf(v) + r == TextOf(w) + s && Ends(r) && Ends(s)
    ensures Same(v, w) && r == s
    decreases v, 0
  {
    TextStarts(v);
    TextStarts(w);
    assert (TextOf(v) + r)[0] == TextOf(v)[0] && (TextOf(w) + s)[0] == TextOf(w)[0];
    match v
    case Integer(n) => IntegerSplit(n as int, w.n as int, r, s);
    case String(t) => QuoteSplit(t, w.s, r, s);
    case Array(items) =>
      Assoc("[", ItemsFrom(items, 0), r);
      Assoc("[", ItemsFrom(w.items, 0), s);
      DropPrefix("[", ItemsFrom(items, 0) + r, ItemsFrom(w.items, 0) + s);
      ItemsSplit(items, w.items, 0, r, s);
    case Object(members) => ObjectSplit(v, w, r, s);
    case _ => DropPrefix(TextOf(v), r, s);
  }

  lemma {:induction false} MemberSplit(m: Member, n: Member, r: string, s: string)
    requires WellFormedMember(m) && WellFormedMember(n) && AllIntegersMember(m) && AllIntegersMember(n)
    requires MemberText(m) + r == MemberText(n) + s && Ends(r) && Ends(s)
    ensures m.key == n.key && Same(m.value, n.value) && r == s
    decreases m, 1
  {
    Assoc(Quote(m.key), ":" + TextOf(m.value), r);
    Assoc(Quote(n.key), ":" + TextOf(n.value), s);
    QuoteSplit(m.key, n.key, ":" + TextOf(m.value) + r, ":" + TextOf(n.value) + s);
    Assoc(":", TextOf(m.value), r);
    Assoc(":", TextOf(n.value), s);
    DropPrefix(":", TextOf(m.value) + r, TextOf(n.value) + s);
    TextSplit(m.value, n.value, r, s);
  }

  lemma {:induction false} MembersSplit(ms: seq<Member>, ns: seq<Member>, ks: seq<string>, ls: seq<string>, i: nat, r: string, s: string)
    requires i <= |ks| && i <= |ls| && Listed(ks, ms) && Listed(ls, ns)
    requires IntegerMembers(ms) && IntegerMembers(ns) && WellFormedMembers(ms) && WellFormedMembers(ns)
    requires MembersFrom(ms, ks, i) + r == MembersFrom(ns, ls, i) + s && Ends(r) && Ends(s)
    ensures |ks| == |ls| && r == s
    ensures forall k :: i <= k < |ks| ==> ks[k] == ls[k] && SameMember(ms[KeyIndex(ms, ks[k])], ns)
    decreases ms, 0, |ks| - i
  {
    hide Listed, Ends, Comma, WellFormedMember, AllIntegersMember, MemberText;
    if i < |ks| { MembersStart(ms, ks, i, r); }
    if i < |ls| { MembersStart(ns, ls, i, s); }
    if i == |ks| {
      assert (MembersFrom(ms, ks, i) + r)[0] == '}';
      DropPrefix("}", r, s);
    } else {
      assert i < |ls|;
      var m, n := ms[KeyIndex(ms, ks[i])], ns[KeyIndex(ns, ls[i])];
      var a, b := MembersFrom(ms, ks, i + 1) + r, MembersFrom(ns, ls, i + 1) + s;
      DropPrefix(Comma(i), MemberText(m) + a, MemberText(n) + b);
      MembersEnd(ms, ks, i + 1, r);
      MembersEnd(ns, ls, i + 1, s);
      MemberSplit(m, n, a, b);
      MembersSplit(ms, ns, ks, ls, i + 1, r, s);
    }
  }

  // ------------------------------------------------------------------
  // The value determines the text
  // ------------------------------------------------------------------

  lemma MembersMatch(ms: seq<Member>, ns: seq<Member>, key: string)
    requires key in Keys(ms) && key in Keys(ns) && IntegerMembers(ms) && IntegerMembers(ns)
    requires WellFormedMembers(ms) && WellFormedMembers(ns) && Same(Object(ms), Object(ns))
    ensures
      var m, n := ms[KeyIndex(ms, key)], ns[KeyIndex(ns, key)];
      && WellFormedMember(m) && WellFormedMember(n) && AllIntegersMember(m) && AllIntegersMember(n)
      && m.key == n.key && Same(m.value, n.value)
  {
    assert SameMember(ms[KeyIndex(ms, key)], ns);
  }

  lemma MembersUnfold(members: seq<Member>, keys: seq<string>, i: nat)
    requires i <= |keys| && Listed(keys, members) && IntegerMembers(members)
    ensures i < |keys| ==> keys[i] in Keys(members)
    ensures MembersFrom(members, keys, i) ==
      if i == |keys| then "}"
      else Comma(i) + (MemberText(members[KeyIndex(members, keys[i])]) + MembersFrom(members, keys, i + 1))
  {
    if i < |keys| {
      assert keys[i] in keys;
    }
  }

  lemma {:induction false} SameMembers(ms: seq<Member>, ns: seq<Member>, keys: seq<string>, i: nat)
    requires i <= |keys| && Listed(keys, ms) && Listed(keys, ns) && IntegerMembers(ms) && IntegerMembers(ns)
    requires WellFormedMembers(ms) && WellFormedMembers(ns) && Same(Object(ms), Object(ns))
    ensures MembersFrom(ms, keys, i) == MembersFrom(ns, keys, i)
    decreases ms, 0, |keys| - i
  {
    hide Same, IntegerMembers, WellFormedMembers, Listed, MembersFrom, Comma, MemberText;
    MembersUnfold(ms, keys, i);
    MembersUnfold(ns, keys, i);
    if i < |keys| {
      MembersMatch(ms, ns, keys[i]);
      SameMemberText(ms[KeyIndex(ms, keys[i])], ns[KeyIndex(ns, keys[i])]);
      SameMembers(ms, ns, keys, i + 1);
    }
  }

  lemma {:induction false} SameItems(xs: seq<Json>, ys: seq<Json>, i: nat)
    requires i <= |xs| == |ys| && IntegerItems(xs) && IntegerItems(ys)
    requires WellFormed(Array(xs)) && WellFormed(Array(ys)) && Same(Array(xs), Array(ys))
    ensures ItemsFrom(xs, i) == ItemsFrom(ys, i)
    decreases xs, 0, |xs| - i
  {
    if i < |xs| {
      SameText(xs[i], ys[i]);
      SameItems(xs, ys, i + 1);
    }
  }

  lemma {:induction false} SameText(v: Json, w: Json)
    requires WellFormed(v) && WellFormed(w) && AllIntegers(v) && AllIntegers(w) && Same(v, w)
    ensures TextOf(v) == TextOf(w)
    decreases v, 0
  {
    match v
    case Array(items) => SameItems(items, w.items, 0);
    case Object(members) => SameMembers(members, w.members, SortedNames(Keys(members)), 0);
    case _ =>
  }

  lemma {:induction false} SameMemberText(m: Member, n: Member)
    requires WellFormedMember(m) && WellFormedMember(n) && AllIntegersMember(m) && AllIntegersMember(n)
    requires m.key == n.key && Same(m.value, n.value)
    ensures MemberText(m) == MemberText(n)
    decreases m, 1
  {
    SameText(m.value, n.value);
  }

  /** Canonical text is exact: equal text iff equal value, member order aside. */
  lemma CanonicalTextIsExact(v: Json, w: Json)
    requires WellFormed(v) && WellFormed(w) && AllIntegers(v) && AllIntegers(w)
    ensures TextOf(v) == TextOf(w) <==> Same(v, w)
  {
    if TextOf(v) == TextOf(w) {
      assert TextOf(v) + "" == TextOf(w) + "";
      TextSplit(v, w, "", "");
    }
    if Same(v, w) {
      SameText(v, w);
    }
  }

  lemma WellFormedAt(items: seq<Json>, i: nat)
    requires i < |items| && WellFormed(Array(items))
    ensures WellFormed(items[i])
  {
  }

  ghost predicate AllIntegersAt(members: seq<Member>, key: string) {
    key in Keys(members) && AllIntegersMember(members[KeyIndex(members, key)])
  }

  ghost predicate IntegerListed(members: seq<Member>, keys: seq<string>)
    requires Listed(keys, members)
  {
    forall k :: 0 <= k < |keys| ==> AllIntegersAt(members, keys[k])
  }

  /** Checking one member per key checks every member. */
  lemma AllListed(members: seq<Member>, keys: seq<string>)
    requires DistinctKeys(members) && Listed(keys, members) && forall k :: k in Keys(members) ==> k in keys
    ensures IntegerListed(members, keys) <==> IntegerMembers(members)
  {
    if IntegerListed(members, keys) {
      forall i | 0 <= i < |members| ensures AllIntegersMember(members[i]) {
        KeyAt(members, i);
        assert members[i].key in keys;
        var k :| 0 <= k < |keys| && keys[k] == members[i].key;
        assert AllIntegersAt(members, keys[k]);
      }
    }
    if IntegerMembers(members) {
      forall k | 0 <= k < |keys| ensures AllIntegersAt(members, keys[k]) {
        assert keys[k] in keys;
      }
    }
  }

  // ------------------------------------------------------------------
  // The writer
  // ------------------------------------------------------------------

  /** What was written stays written. */
  ghost predicate Extends(before: string, after: string) {
    before <= after
  }

  lemma ExtendsBy(before: string, more: string)
    ensures Extends(before, before + more)
  {
  }

  lemma ExtendsOn(a: string, b: string, c: string)
    requires Extends(a, b) && Extends(b, c)
    ensures Extends(a, c)
  {
  }

  /** What is written and what is to come make up the whole. */
  ghost predicate Joins(done: string, rest: string, whole: string) {
    done + rest == whole
  }

  lemma JoinsFirst(before: string, opening: string, rest: string)
    ensures Joins(before + opening, rest, before + (opening + rest))
  {
    Assoc(before, opening, rest);
  }

  lemma JoinsNext(done: string, comma: string, text: string, rest: string, whole: string)
    requires Joins(done, comma + (text + rest), whole)
    ensures Joins((done + comma) + text, rest, whole)
  {
    Assoc3(done, comma, text, rest);
  }

  lemma JoinsLast(done: string, closing: string, whole: string)
    requires Joins(done, closing, whole)
    ensures done + closing == whole
  {
  }

  class JsonWriter {
    var output: string

    constructor ()
      ensures output == ""
    {
      output := "";
    }

    method Push(s: string)
      modifies this
      ensures output == old(output) + s && Extends(old(output), output)
    {
      ExtendsBy(output, s);
      output := output + s;
    }

    /** Writing stops at the first number that is not an integer; what is
        before it has been written by then. */
    method Write(v: Json) returns (ok: bool)
      requires WellFormed(v)
      modifies this
      ensures ok <==> AllIntegers(v)
      ensures ok ==> output == old(output) + TextOf(v)
      ensures Extends(old(output), output)
      decreases v, 0
    {
      match v
      case Null => Push("null"); ok := true;
      case Bool(b) => Push(if b then "true" else "false"); ok := true;
      case Float(_) => ok := false;
      case Integer(n) => Push(IntegerText(n as int)); ok := true;
      case String(s) => Push(Quote(s)); ok := true;
      case Array(items) => ok := WriteItems(items);
      case Object(members) => ok := WriteMembers(members);
    }

    /** One item, after a comma unless it is the first. */
    method WriteItem(v: Json, i: nat) returns (ok: bool)
      requires WellFormed(v)
      modifies this
      ensures ok <==> AllIntegers(v)
      ensures ok ==> output == old(output) + Comma(i) + TextOf(v)
      ensures Extends(old(output), output)
      decreases v, 1
    {
      hide Extends, WellFormed, TextOf, AllIntegers, Comma;
      Push(Comma(i));
      ghost var middle := output;
      ok := Write(v);
      ExtendsOn(old(output), middle, output);
    }

    method WriteItems(items: seq<Json>) returns (ok: bool)
      requires WellFormed(Array(items))
      modifies this
      ensures ok <==> IntegerItems(items)
      ensures ok ==> output == old(output) + ("[" + ItemsFrom(items, 0))
      ensures Extends(old(output), output)
      decreases items, 0
    {
      hide WellFormed, TextOf, AllIntegers, Comma, ItemsFrom, Extends, Joins;
      Push("[");
      ok := true;
      ghost var whole := old(output) + ("[" + if IntegerItems(items) then ItemsFrom(items, 0) else "");
      if IntegerItems(items) {
        JoinsFirst(old(output), "[", ItemsFrom(items, 0));
      }
      for i := 0 to |items|
        invariant Extends(old(output), output)
        invariant forall k :: 0 <= k < i ==> AllIntegers(items[k])
        invariant IntegerItems(items) ==> Joins(output, ItemsFrom(items, i), whole)
      {
        ghost var before := output;
        WellFormedAt(items, i);
        ok := WriteItem(items[i], i);
        ExtendsOn(old(output), before, output);
        if !ok { return; }
        if IntegerItems(items) {
          ItemsUnfold(items, i);
          JoinsNext(before, Comma(i), TextOf(items[i]), ItemsFrom(items, i + 1), whole);
        }
      }
      if IntegerItems(items) {
        ItemsUnfold(items, |items|);
        JoinsLast(output, "]", whole);
      }
      ghost var end := output;
      Push("]");
      ExtendsOn(old(output), end, output);
    }

    method WriteMembers(members: seq<Member>) returns (ok: bool)
      requires WellFormed(Object(members))
      modifies this
      ensures ok <==> IntegerMembers(members)
      ensures ok ==> output == old(output) + ("{" + MembersFrom(members, SortedNames(Keys(members)), 0))
      ensures Extends(old(output), output)
      decreases members, 1
    {
      var keys := CollectNames(Keys(members));
      assert Listed(keys, members);
      AllListed(members, keys);
      hide IntegerListed, IntegerMembers;
      ok := WriteListed(members, keys);
    }

    method WriteListed(members: seq<Member>, keys: seq<string>) returns (ok: bool)
      requires WellFormedMembers(members) && Listed(keys, members)
      modifies this
      ensures ok <==> IntegerListed(members, keys)
      ensures ok && IntegerMembers(members) ==> output == old(output) + ("{" + MembersFrom(members, keys, 0))
      ensures Extends(old(output), output)
      decreases members, 0
    {
      hide MemberText, MembersFrom, Comma, KeyIndex, WellFormedMember, AllIntegersMember, Extends, Joins;
      Push("{");
      ok := true;
      ghost var whole := old(output) + ("{" + if IntegerMembers(members) then MembersFrom(members, keys, 0) else "");
      if IntegerMembers(members) {
        JoinsFirst(old(output), "{", MembersFrom(members, keys, 0));
      }
      for i := 0 to |keys|
        invariant Extends(old(output), output)
        invariant forall k :: 0 <= k < i ==> AllIntegersAt(members, keys[k])
        invariant IntegerMembers(members) ==> Joins(output, MembersFrom(members, keys, i), whole)
      {
        ghost var before := output;
        assert keys[i] in keys;
        var m := members[KeyIndex(members, keys[i])];
        Push(Comma(i));
        ExtendsOn(old(output), before, output);
        ghost var middle := output;
        ok := WriteMember(m);
        ExtendsOn(old(output), middle, output);
        if !ok { return; }
        if IntegerMembers(members) {
          MembersUnfold(members, keys, i);
          JoinsNext(before, Comma(i), MemberText(m), MembersFrom(members, keys, i + 1), whole);
        }
      }
      if IntegerMembers(members) {
        MembersUnfold(members, keys, |keys|);
        JoinsLast(output, "}", whole);
      }
      ghost var end := output;
      Push("}");
      ExtendsOn(old(output), end, output);
    }

    method WriteMember(m: Member) returns (ok: bool)
      requires WellFormedMember(m)
      modifies this
      ensures ok <==> AllIntegersMember(m)
      ensures ok ==> output == old(output) + MemberText(m)
      ensures Extends(old(output), output)
      decreases m, 1
    {
      hide Extends;
      Push(Quote(m.key));
      ghost var quoted := output;
      Push(":");
      ExtendsOn(old(output), quoted, output);
      ghost var middle := output;
      ok := Write(m.value);
      ExtendsOn(old(output), middle, output);
      if ok {
        Assoc(old(output), Quote(m.key), ":");
        Assoc(old(output), Quote(m.key) + ":", TextOf(m.value));
        Assoc(Quote(m.key), ":", TextOf(m.value));
      }
    }
  }
}
