/** A reader of JSON text, written from sections 6 and 7 of RFC 8259 and not
    from the writer: the canonical text of a value reads back as that value,
    the members of its objects in byte order.  Texts hold no white space, only
    integers, and escapes of ASCII characters. */
module JsonReader {
  import opened Prelude
  import opened Ordering
  import opened Text
  import opened Json

  // ------------------------------------------------------------------
  // Strings: section 7
  // ------------------------------------------------------------------

  function HexValue(c: char): Option<nat> {
    if '0' <= c <= '9' then Some(c as int - '0' as int)
    else if 'a' <= c <= 'f' then Some(c as int - 'a' as int + 10)
    else if 'A' <= c <= 'F' then Some(c as int - 'A' as int + 10)
    else None
  }

  /** The four digits after a backslash and a `u`. */
  function ReadCode(s: string): (r: Parsed<char>)
    ensures r.Parsed? ==> |r.rest| < |s|
  {
    if |s| < 4 then Unparsed
    else
      var a, b, c, d := HexValue(s[0]), HexValue(s[1]), HexValue(s[2]), HexValue(s[3]);
      if a.None? || b.None? || c.None? || d.None? then Unparsed
      else
        var code := 4096 * a.value + 256 * b.value + 16 * c.value + d.value;
        if code < 0x80 then Parsed(code as char, s[4..]) else Unparsed
  }

  /** What follows a backslash. */
  function ReadEscape(s: string): (r: Parsed<char>)
    ensures r.Parsed? ==> |r.rest| < |s|
  {
    if s == "" then Unparsed
    else
      match s[0]
      case '\"' => Parsed('\"', s[1..])
      case '\\' => Parsed('\\', s[1..])
      case '/' => Parsed('/', s[1..])
      case 'b' => Parsed(0x08 as char, s[1..])
      case 'f' => Parsed(0x0C as char, s[1..])
      case 'n' => Parsed('\n', s[1..])
      case 'r' => Parsed('\r', s[1..])
      case 't' => Parsed('\t', s[1..])
      case 'u' => ReadCode(s[1..])
      case _ => Unparsed
  }

  function ReadChar(s: string): (r: Parsed<char>)
    ensures r.Parsed? ==> |r.rest| < |s|
  {
    if s == "" || s[0] as int < 0x20 || s[0] == '\"' then Unparsed
    else if s[0] == '\\' then ReadEscape(s[1..])
    else Parsed(s[0], s[1..])
  }

  /** Up to the closing quotation mark. */
  function ReadChars(s: string): (r: Parsed<string>)
    ensures r.Parsed? ==> |r.rest| < |s|
  {
    if s != "" && s[0] == '\"' then Parsed("", s[1..])
    else
      var c := ReadChar(s);
      if c.Unparsed? then Unparsed
      else
        var t := ReadChars(c.rest);
        if t.Unparsed? then Unparsed else Parsed([c.value] + t.value, t.rest)
  }

  function ReadString(s: string): (r: Parsed<string>)
    ensures r.Parsed? ==> |r.rest| < |s|
  {
    if s == "" || s[0] != '\"' then Unparsed else ReadChars(s[1..])
  }

  // ------------------------------------------------------------------
  // Numbers: section 6, integers only
  // ------------------------------------------------------------------

  function DigitRun(s: string): (n: nat)
    ensures n <= |s| && forall i :: 0 <= i < n ==> IsDigit(s[i])
  {
    if s == "" || !IsDigit(s[0]) then 0 else 1 + DigitRun(s[1..])
  }

  function ReadDigits(s: string): (r: Parsed<int>)
    ensures r.Parsed? ==> |r.rest| < |s|
  {
    var n := DigitRun(s);
    if n == 0 || (n > 1 && s[0] == '0') || (n < |s| && (s[n] == '.' || s[n] == 'e' || s[n] == 'E')) then Unparsed
    else Parsed(DecimalValue(s[..n]), s[n..])
  }

  function ReadNumber(s: string): (r: Parsed<Json>)
    ensures r.Parsed? ==> |r.rest| < |s|
  {
    var negative := s != "" && s[0] == '-';
    var d := ReadDigits(if negative then s[1..] else s);
    if d.Unparsed? then Unparsed
    else
      var n := if negative then -d.value else d.value;
      if -0x8000_0000_0000_0000 <= n < 0x1_0000_0000_0000_0000 then Parsed(Integer(n as JsonInt), d.rest) else Unparsed
  }

  // ------------------------------------------------------------------
  // Values: sections 3 to 5
  // ------------------------------------------------------------------

  function ReadMember(s: string): (r: Parsed<Member>)
    ensures r.Parsed? ==> |r.rest| < |s|
    decreases |s|, 2
  {
    var k := ReadString(s);
    if k.Unparsed? || !(":" <= k.rest) then Unparsed
    else
      var x := ReadValue(k.rest[1..]);
      if x.Unparsed? then Unparsed else Parsed(Member(k.value, x.value), x.rest)
  }

  function ReadMembers(s: string, first: bool): (r: Parsed<seq<Member>>)
    ensures r.Parsed? ==> |r.rest| < |s|
    decreases |s|, 3
  {
    if "}" <= s then Parsed([], s[1..])
    else if !first && !("," <= s) then Unparsed
    else
      var m := ReadMember(if first then s else s[1..]);
      if m.Unparsed? then Unparsed
      else
        var t := ReadMembers(m.rest, false);
        if t.Unparsed? then Unparsed else Parsed([m.value] + t.value, t.rest)
  }

  function ReadValue(s: string): (r: Parsed<Json>)
    ensures r.Parsed? ==> |r.rest| < |s|
    decreases |s|, 1
  {
    if "null" <= s then Parsed(Null, s[4..])
    else if "true" <= s then Parsed(Bool(true), s[4..])
    else if "false" <= s then Parsed(Bool(false), s[5..])
    else if "\"" <= s then
      var t := ReadString(s);
      if t.Unparsed? then Unparsed else Parsed(String(t.value), t.rest)
    else if "[" <= s then
      var t := ReadItems(s[1..], true);
      if t.Unparsed? then Unparsed else Parsed(Array(t.value), t.rest)
    else if "{" <= s then
      var t := ReadMembers(s[1..], true);
      if t.Unparsed? then Unparsed else Parsed(Object(t.value), t.rest)
    else ReadNumber(s)
  }

  /** Up to the closing bracket; every item but the first follows a comma. */
  function ReadItems(s: string, first: bool): (r: Parsed<seq<Json>>)
    ensures r.Parsed? ==> |r.rest| < |s|
    decreases |s|, 2
  {
    if "]" <= s then Parsed([], s[1..])
    else if !first && !("," <= s) then Unparsed
    else
      var x := ReadValue(if first then s else s[1..]);
      if x.Unparsed? then Unparsed
      else
        var t := ReadItems(x.rest, false);
        if t.Unparsed? then Unparsed else Parsed([x.value] + t.value, t.rest)
  }

  // ------------------------------------------------------------------
  // Strings and numbers read back
  // ------------------------------------------------------------------

  lemma HexReads(d: nat)
    requires d < 16
    ensures HexValue(HexDigit(d)) == Some(d)
  {
  }

  lemma ControlReads(c: char, r: string)
    requires c as int < 0x20
    ensures ReadCode("00" + [HexDigit(c as int / 16), HexDigit(c as int % 16)] + r) == Parsed(c, r)
  {
    var x := [HexDigit(c as int / 16), HexDigit(c as int % 16)];
    var s := "00" + x + r;
    HexReads(c as int / 16);
    HexReads(c as int % 16);
    assert s[4..] == r && s[0] == '0' && s[1] == '0' && s[2] == x[0] && s[3] == x[1];
  }

  lemma CharReads(c: char, r: string)
    ensures ReadChar(Escape(c) + r) == Parsed(c, r) && (Escape(c) + r)[0] != '\"'
  {
    var e := Escape(c);
    var s := e + r;
    hide ReadCode;
    if |e| == 1 {
      assert s[1..] == r;
    } else if |e| == 2 {
      assert s[1..][0] == e[1] && s[1..][1..] == r;
    } else {
      var x := [HexDigit(c as int / 16), HexDigit(c as int % 16)];
      assert e == "\\u00" + x;
      assert s[1..][0] == 'u' && s[1..][1..] == "00" + x + r;
      ControlReads(c, r);
    }
  }

  lemma {:induction false} CharsRead(t: string, r: string)
    ensures ReadChars(EscapeAll(t) + "\"" + r) == Parsed(t, r)
  {
    var s := EscapeAll(t) + "\"" + r;
    if t == "" {
      assert s[0] == '\"' && s[1..] == r;
    } else {
      EscapeFirst(t, r);
      CharReads(t[0], EscapeAll(t[1..]) + "\"" + r);
      CharsRead(t[1..], r);
      assert t == [t[0]] + t[1..];
    }
  }

  lemma StringReads(t: string, r: string)
    ensures ReadString(Quote(t) + r) == Parsed(t, r)
  {
    QuoteOpens(t, r);
    CharsRead(t, r);
    assert (Quote(t) + r)[1..] == EscapeAll(t) + "\"" + r;
  }

  lemma {:induction false} RunIsWhole(d: string, r: string)
    requires (forall i :: 0 <= i < |d| ==> IsDigit(d[i])) && StopsNumber(r)
    ensures DigitRun(d + r) == |d|
  {
    if d == "" {
      assert d + r == r;
    } else {
      assert (d + r)[0] == d[0] && (d + r)[1..] == d[1..] + r;
      RunIsWhole(d[1..], r);
    }
  }

  lemma {:induction false} NoLeadingZero(n: nat)
    ensures |Decimal(n)| > 1 ==> Decimal(n)[0] != '0'
    ensures n > 0 ==> Decimal(n)[0] != '0'
  {
    if n >= 10 {
      NoLeadingZero(n / 10);
    }
  }

  /** What can stand after a value in a text. */
  ghost predicate Closes(r: string) {
    r == "" || r[0] == ',' || r[0] == ']' || r[0] == '}'
  }

  lemma DigitsRead(n: nat, r: string)
    requires Closes(r)
    ensures ReadDigits(Decimal(n) + r) == Parsed(n, r)
  {
    var d := Decimal(n);
    RunIsWhole(d, r);
    NoLeadingZero(n);
    DecimalRoundTrip(n);
    hide Decimal, DecimalValue;
    assert (d + r)[..|d|] == d && (d + r)[|d|..] == r && (d + r)[0] == d[0];
  }

  lemma NumberReads(n: JsonInt, r: string)
    requires Closes(r)
    ensures ReadNumber(IntegerText(n as int) + r) == Parsed(Integer(n), r)
  {
    var m := n as int;
    DigitsRead(if m < 0 then -m else m, r);
    IntegerStarts(m, r);
    if m < 0 {
      Assoc("-", Decimal(-m), r);
      assert (IntegerText(m) + r)[1..] == Decimal(-m) + r;
    }
  }

  // ------------------------------------------------------------------
  // Values read back
  // ------------------------------------------------------------------

  ghost function InOrderItems(items: seq<Json>, i: nat): (r: seq<Json>)
    requires i <= |items|
    ensures |r| == |items| - i
    decreases items, |items| - i
  {
    if i == |items| then [] else [InOrder(items[i])] + InOrderItems(items, i + 1)
  }

  ghost function InOrder(v: Json): Json
    decreases v, 0
  {
    match v
    case Array(items) => Array(InOrderItems(items, 0))
    case Object(members) => Object(InOrderFrom(members, SortedNames(Keys(members)), 0))
    case _ => v
  }

  /** The members in key order, and so on inside. */
  ghost function InOrderMember(m: Member): Member
    decreases m, 1
  {
    Member(m.key, InOrder(m.value))
  }

  ghost function InOrderFrom(members: seq<Member>, keys: seq<string>, i: nat): (r: seq<Member>)
    requires i <= |keys| && Listed(keys, members)
    ensures |r| == |keys| - i
    decreases members, |keys| - i
  {
    if i == |keys| then []
    else
      assert keys[i] in keys;
      [InOrderMember(members[KeyIndex(members, keys[i])])] + InOrderFrom(members, keys, i + 1)
  }

  lemma IntegerItem(items: seq<Json>, i: nat)
    requires i < |items| && IntegerItems(items)
    ensures AllIntegers(items[i])
  {
  }

  lemma ItemsClose(items: seq<Json>, i: nat, r: string)
    requires 0 < i <= |items| && IntegerItems(items)
    ensures Closes(ItemsFrom(items, i) + r)
  {
  }

  lemma MembersClose(members: seq<Member>, keys: seq<string>, i: nat, r: string)
    requires 0 < i <= |keys| && Listed(keys, members) && IntegerMembers(members)
    ensures Closes(MembersFrom(members, keys, i) + r)
  {
  }

  lemma IntegerMember(members: seq<Member>, i: nat)
    requires i < |members| && IntegerMembers(members)
    ensures AllIntegersMember(members[i])
  {
  }

  lemma MembersStep(t: string, first: bool, m: Member, after: string, ms: seq<Member>, r: string)
    requires ReadMember(t) == Parsed(m, after) && ReadMembers(after, false) == Parsed(ms, r) && t != "" && t[0] != '}'
    ensures ReadMembers((if first then "" else ",") + t, first) == Parsed([m] + ms, r)
  {
    hide ReadMember;
    var s := (if first then "" else ",") + t;
    assert first ==> s == t;
    assert !first ==> "," <= s && s[1..] == t;
  }

  lemma MembersStop(r: string, first: bool)
    ensures ReadMembers("}" + r, first) == Parsed([], r)
  {
    hide ReadMember;
    assert ("}" + r)[1..] == r;
  }

  lemma MemberTextStarts(m: Member, r: string)
    requires AllIntegersMember(m)
    ensures MemberText(m) + r != "" && (MemberText(m) + r)[0] == '\"'
  {
    hide TextOf, EscapeAll;
    assert MemberText(m)[0] == Quote(m.key)[0] == '\"';
  }

  lemma {:induction false} MembersRead(members: seq<Member>, keys: seq<string>, i: nat, r: string)
    requires i <= |keys| && Listed(keys, members) && IntegerMembers(members)
    ensures ReadMembers(MembersFrom(members, keys, i) + r, i == 0) == Parsed(InOrderFrom(members, keys, i), r)
    decreases members, 0, |keys| - i
  {
    hide ReadMember, ReadMembers, MembersFrom, MemberText, AllIntegersMember, InOrderMember, IntegerMembers, Listed;
    MembersUnfold(members, keys, i);
    if i == |keys| {
      MembersStop(r, i == 0);
    } else {
      MembersStart(members, keys, i, r);
      var m := members[KeyIndex(members, keys[i])];
      IntegerMember(members, KeyIndex(members, keys[i]));
      var after := MembersFrom(members, keys, i + 1) + r;
      MembersClose(members, keys, i + 1, r);
      MemberReads(m, after);
      MembersRead(members, keys, i + 1, r);
      MemberTextStarts(m, after);
      MembersStep(MemberText(m) + after, i == 0, InOrderMember(m), after, InOrderFrom(members, keys, i + 1), r);
    }
  }

  lemma PlainReads(v: Json, r: string)
    requires AllIntegers(v) && Closes(r) && (v.Null? || v.Bool? || v.Integer? || v.String?)
    ensures ReadValue(TextOf(v) + r) == Parsed(v, r)
  {
    hide ReadString, ReadItems, ReadMembers, ReadNumber, IntegerText, Quote;
    var s := TextOf(v) + r;
    TextStarts(v);
    assert s[0] == TextOf(v)[0];
    match v
    case Null => assert "null" <= s && s[4..] == r;
    case Bool(b) =>
      if b { assert "true" <= s && s[4..] == r; } else { assert s[0] == 'f' && "false" <= s && s[5..] == r; }
    case Integer(n) => NumberReads(n, r);
    case String(t) => StringReads(t, r);
  }

  lemma BracketReads(s: string, t: string, r: string, x: seq<Json>)
    requires s == "[" + t && ReadItems(t, true) == Parsed(x, r)
    ensures ReadValue(s) == Parsed(Array(x), r)
  {
    hide ReadItems, ReadMembers, ReadNumber, ReadString;
    assert s[0] == '[' && s[1..] == t;
  }

  lemma BraceReads(s: string, t: string, r: string, x: seq<Member>)
    requires s == "{" + t && ReadMembers(t, true) == Parsed(x, r)
    ensures ReadValue(s) == Parsed(Object(x), r)
  {
    hide ReadItems, ReadMembers, ReadNumber, ReadString;
    assert s[0] == '{' && s[1..] == t;
  }

  lemma {:induction false} ItemReads(items: seq<Json>, i: nat, r: string)
    requires i < |items| && IntegerItems(items) && Closes(r)
    ensures ReadValue(TextOf(items[i]) + r) == Parsed(InOrder(items[i]), r)
    decreases items, 0
  {
    ValueReads(items[i], r);
  }

  lemma {:induction false} ItemsRead(items: seq<Json>, i: nat, r: string)
    requires i <= |items| && IntegerItems(items)
    ensures ReadItems(ItemsFrom(items, i) + r, i == 0) == Parsed(InOrderItems(items, i), r)
    decreases items, |items| - i
  {
    hide ReadValue, ItemsFrom, IntegerItems, TextOf;
    ItemsUnfold(items, i);
    var s := ItemsFrom(items, i) + r;
    if i == |items| {
      assert "]" <= s && s[1..] == r;
    } else {
      ItemsStart(items, i, r);
      IntegerItem(items, i);
      var after := ItemsFrom(items, i + 1) + r;
      ItemsClose(items, i + 1, r);
      ItemReads(items, i, after);
      ItemsRead(items, i + 1, r);
      if i == 0 {
        assert s == TextOf(items[i]) + after;
      } else {
        assert "," <= s && s[1..] == TextOf(items[i]) + after;
      }
    }
  }

  /** The text of a value reads as that value in order, up to where it ends. */
  lemma {:induction false} ValueReads(v: Json, r: string)
    requires AllIntegers(v) && Closes(r)
    ensures ReadValue(TextOf(v) + r) == Parsed(InOrder(v), r)
    decreases v, 0
  {
    hide ReadValue, ReadItems, ReadMembers;
    match v
    case Array(items) =>
      Assoc("[", ItemsFrom(items, 0), r);
      ItemsRead(items, 0, r);
      BracketReads(TextOf(v) + r, ItemsFrom(items, 0) + r, r, InOrderItems(items, 0));
    case Object(members) =>
      var keys := SortedNames(Keys(members));
      Assoc("{", MembersFrom(members, keys, 0), r);
      MembersRead(members, keys, 0, r);
      BraceReads(TextOf(v) + r, MembersFrom(members, keys, 0) + r, r, InOrderFrom(members, keys, 0));
    case _ => PlainReads(v, r);
  }

  lemma {:induction false} MemberReads(m: Member, r: string)
    requires AllIntegersMember(m) && Closes(r)
    ensures ReadMember(MemberText(m) + r) == Parsed(InOrderMember(m), r)
    decreases m, 1
  {
    hide ReadString, ReadValue, Quote;
    var tail := TextOf(m.value) + r;
    Assoc(Quote(m.key), ":" + TextOf(m.value), r);
    Assoc(":", TextOf(m.value), r);
    StringReads(m.key, ":" + tail);
    ValueReads(m.value, r);
    assert (":" + tail)[1..] == tail;
  }

  // ------------------------------------------------------------------
  // What "in order" means
  // ------------------------------------------------------------------

  ghost function KeyList(members: seq<Member>): seq<string> {
    seq(|members|, i requires 0 <= i < |members| => members[i].key)
  }

  ghost predicate KeysAscendIn(m: Member)
    decreases m, 1
  {
    KeysAscend(m.value)
  }

  /** At every object inside, the keys run upwards in byte order. */
  ghost predicate KeysAscend(v: Json)
    decreases v, 0
  {
    match v
    case Array(items) => forall i :: 0 <= i < |items| ==> KeysAscend(items[i])
    case Object(members) => Ascending(KeyList(members)) && forall i :: 0 <= i < |members| ==> KeysAscendIn(members[i])
    case _ => true
  }

  lemma {:induction false} InOrderItemsAt(items: seq<Json>, i: nat)
    requires i <= |items|
    ensures forall k :: i <= k < |items| ==> InOrderItems(items, i)[k - i] == InOrder(items[k])
    decreases |items| - i
  {
    if i < |items| {
      InOrderItemsAt(items, i + 1);
    }
  }

  lemma ListedAt(members: seq<Member>, keys: seq<string>, i: nat)
    requires i < |keys| && Listed(keys, members)
    ensures keys[i] in Keys(members)
  {
    assert keys[i] in keys;
  }

  lemma {:induction false} InOrderAt(members: seq<Member>, keys: seq<string>, i: nat, k: nat)
    requires i <= k < |keys| && Listed(keys, members)
    ensures keys[k] in Keys(members)
    ensures InOrderFrom(members, keys, i)[k - i] == InOrderMember(members[KeyIndex(members, keys[k])])
    decreases |keys| - i
  {
    hide InOrder, InOrderMember, Listed;
    ListedAt(members, keys, k);
    if i < k {
      InOrderAt(members, keys, i + 1, k);
    }
  }

  lemma KeysOfList(ns: seq<Member>)
    ensures forall x :: x in KeyList(ns) <==> x in Keys(ns)
  {
    forall x ensures x in KeyList(ns) <==> x in Keys(ns) {
      if x in KeyList(ns) {
        var k :| 0 <= k < |ns| && KeyList(ns)[k] == x;
        assert ns[k] in ns;
      }
      if x in Keys(ns) {
        var k :| 0 <= k < |ns| && ns[k].key == x;
        assert KeyList(ns)[k] == x;
      }
    }
  }

  lemma KeysInOrder(ms: seq<Member>, keys: seq<string>, ns: seq<Member>)
    requires Listed(keys, ms) && ns == InOrderFrom(ms, keys, 0)
    ensures KeyList(ns) == keys
  {
    forall k | 0 <= k < |keys| ensures KeyList(ns)[k] == keys[k] {
      InOrderAt(ms, keys, 0, k);
    }
  }

  lemma SameMemberInOrder(ms: seq<Member>, keys: seq<string>, ns: seq<Member>, m: Member)
    requires DistinctKeys(ms) && Listed(keys, ms) && ns == InOrderFrom(ms, keys, 0)
    requires m in ms && m.key in keys && Same(m.value, InOrder(m.value))
    ensures SameMember(m, ns)
  {
    hide Same, InOrder;
    var i :| 0 <= i < |ms| && ms[i] == m;
    KeyAt(ms, i);
    KeysInOrder(ms, keys, ns);
    KeysOfList(ns);
    var k := KeyIndex(ns, m.key);
    InOrderAt(ms, keys, 0, k);
    assert ns[k] == InOrderMember(m);
  }

  /** The same members, rearranged. */
  lemma ObjectInOrder(ms: seq<Member>, keys: seq<string>, ns: seq<Member>)
    requires DistinctKeys(ms) && keys == SortedNames(Keys(ms)) && ns == InOrderFrom(ms, keys, 0)
    requires forall m :: m in ms ==> Same(m.value, InOrder(m.value))
    ensures Same(Object(ms), Object(ns)) && Ascending(KeyList(ns))
  {
    hide InOrder, SortedNames, Ascending, InOrderFrom;
    SortedNamesAscend(Keys(ms));
    KeysInOrder(ms, keys, ns);
    KeysOfList(ns);
    assert Keys(ms) == Keys(ns);
    forall i | 0 <= i < |ms| ensures SameMember(ms[i], ns) {
      assert ms[i] in ms && ms[i].key in Keys(ms);
      SameMemberInOrder(ms, keys, ns, ms[i]);
    }
  }

  lemma UnfoldAscendIn(m: Member)
    requires KeysAscend(InOrder(m.value))
    ensures KeysAscendIn(InOrderMember(m))
  {
  }

  lemma {:induction false} MembersAscend(ms: seq<Member>, keys: seq<string>, ns: seq<Member>)
    requires Listed(keys, ms) && ns == InOrderFrom(ms, keys, 0)
    requires forall m :: m in ms ==> KeysAscend(InOrder(m.value))
    ensures forall i :: 0 <= i < |ns| ==> KeysAscendIn(ns[i])
  {
    hide KeysAscend, InOrder;
    forall i | 0 <= i < |ns| ensures KeysAscendIn(ns[i]) {
      InOrderAt(ms, keys, 0, i);
      var m := ms[KeyIndex(ms, keys[i])];
      assert ns[i] == InOrderMember(m) && m in ms;
      UnfoldAscendIn(m);
    }
  }

  lemma {:induction false} MemberInOrder(m: Member)
    requires WellFormedMember(m)
    ensures Same(m.value, InOrder(m.value)) && KeysAscend(InOrder(m.value))
    decreases m, 1
  {
    InOrderIsSame(m.value);
  }

  /** Nothing is lost or changed, and keys run upwards at every level. */
  lemma {:induction false} InOrderIsSame(v: Json)
    requires WellFormed(v)
    ensures Same(v, InOrder(v)) && KeysAscend(InOrder(v))
    decreases v, 0
  {
    match v
    case Array(items) => ArrayInOrder(items);
    case Object(members) =>
      var keys := SortedNames(Keys(members));
      var ns := InOrderFrom(members, keys, 0);
      forall m | m in members
        ensures Same(m.value, InOrder(m.value)) && KeysAscend(InOrder(m.value))
      {
        MemberInOrder(m);
      }
      ObjectInOrder(members, keys, ns);
      MembersAscend(members, keys, ns);
      hide Same, InOrderFrom;
      assert KeysAscend(Object(ns));
    case _ =>
  }

  lemma {:induction false} ArrayInOrder(items: seq<Json>)
    requires WellFormed(Array(items))
    ensures Same(Array(items), InOrder(Array(items))) && KeysAscend(InOrder(Array(items)))
    decreases items, 0
  {
    InOrderItemsAt(items, 0);
    forall i | 0 <= i < |items|
      ensures Same(items[i], InOrder(items[i])) && KeysAscend(InOrder(items[i]))
    {
      InOrderIsSame(items[i]);
    }
  }

  /** Canonical text is JSON text: a reader gets back the same value, with the
      keys of every object in byte order. */
  lemma CanonicalTextReads(v: Json, r: string)
    requires WellFormed(v) && AllIntegers(v) && Closes(r)
    ensures ReadValue(TextOf(v) + r) == Parsed(InOrder(v), r)
    ensures Same(v, InOrder(v)) && KeysAscend(InOrder(v))
  {
    hide *;
    ValueReads(v, r);
    InOrderIsSame(v);
  }
}
