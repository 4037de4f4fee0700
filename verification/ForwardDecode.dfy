/** Decoding a spec section entry by entry, strictly or as far as it goes, and
    choosing the decoder by interface version. */
module ForwardDecode {
  import opened Prelude

  type Byte = x: int | 0 <= x < 256

  /** One entry read at a position, with the position after it. */
  datatype Read<E> = Unreadable | Entry(value: E, next: nat)

  type Reader<!E> = (seq<Byte>, nat) -> Read<E>

  /** An entry starts with a four-byte discriminant and ends inside the data;
      reading it looks at no byte after it. */
  ghost predicate WellBehaved<E(!new)>(read: Reader<E>) {
    && (forall data, pos: nat ::
          read(data, pos).Entry? ==> pos + 4 <= read(data, pos).next <= |data|)
    && forall data, pos: nat, k: nat :: k <= |data| ==>
         && (read(data[..k], pos).Entry? ==> read(data, pos) == read(data[..k], pos))
         && (read(data, pos).Entry? && read(data, pos).next <= k ==> read(data[..k], pos) == read(data, pos))
  }

  // ------------------------------------------------------------------
  // What it means to be decoded
  // ------------------------------------------------------------------

  /** The entries lie one after the other from `pos` to `stop`. */
  ghost predicate Lies<E>(read: Reader<E>, data: seq<Byte>, pos: nat, entries: seq<E>, stop: nat)
    decreases |entries|
  {
    if entries == [] then pos == stop
    else
      var r := read(data, pos);
      r.Entry? && r.value == entries[0] && Lies(read, data, r.next, entries[1..], stop)
  }

  /** The entries fill the data exactly. */
  ghost predicate Decodes<E>(read: Reader<E>, data: seq<Byte>, entries: seq<E>) {
    Lies(read, data, 0, entries, |data|)
  }

  predicate Stuck<E>(read: Reader<E>, data: seq<Byte>, pos: nat) {
    pos >= |data| || read(data, pos).Unreadable?
  }

  lemma {:induction false} LiesOneMore<E(!new)>(read: Reader<E>, data: seq<Byte>, pos: nat, entries: seq<E>, stop: nat)
    requires Lies(read, data, pos, entries, stop) && read(data, stop).Entry?
    ensures Lies(read, data, pos, entries + [read(data, stop).value], read(data, stop).next)
    decreases |entries|
  {
    var more := entries + [read(data, stop).value];
    if entries != [] {
      LiesOneMore(read, data, read(data, pos).next, entries[1..], stop);
      assert more[1..] == entries[1..] + [read(data, stop).value];
    }
  }

  lemma {:induction false} LiesTakesRoom<E(!new)>(read: Reader<E>, data: seq<Byte>, pos: nat, entries: seq<E>, stop: nat)
    requires WellBehaved(read) && Lies(read, data, pos, entries, stop) && pos <= |data|
    ensures pos + 4 * |entries| <= stop <= |data|
    decreases |entries|
  {
    if entries != [] {
      LiesTakesRoom(read, data, read(data, pos).next, entries[1..], stop);
    }
  }

  /** Bytes after the last entry play no part. */
  lemma {:induction false} LiesInPrefix<E(!new)>(read: Reader<E>, data: seq<Byte>, k: nat, pos: nat, entries: seq<E>, stop: nat)
    requires WellBehaved(read) && pos <= k <= |data| && stop <= k
    ensures Lies(read, data[..k], pos, entries, stop) <==> Lies(read, data, pos, entries, stop)
    decreases |entries|
  {
    if entries != [] {
      var long, short := read(data, pos), read(data[..k], pos);
      if long.Entry? && long.next <= k {
        LiesInPrefix(read, data, k, long.next, entries[1..], stop);
      } else if long.Entry? && Lies(read, data, pos, entries, stop) {
        LiesTakesRoom(read, data, long.next, entries[1..], stop);
      }
    }
  }

  /** Where reading gets stuck, no other sequence of entries gets further. */
  lemma {:induction false} StuckIsFurthest<E(!new)>(
    read: Reader<E>, data: seq<Byte>, pos: nat, entries: seq<E>, stop: nat, others: seq<E>, end: nat)
    requires WellBehaved(read) && pos <= |data|
    requires Lies(read, data, pos, entries, stop) && Stuck(read, data, stop)
    requires Lies(read, data, pos, others, end)
    ensures end <= stop && others <= entries
    ensures end == stop ==> others == entries
    decreases |others|
  {
    LiesTakesRoom(read, data, pos, entries, stop);
    if others != [] {
      assert entries != [];
      StuckIsFurthest(read, data, read(data, pos).next, entries[1..], stop, others[1..], end);
      assert entries == [entries[0]] + entries[1..] && others == [others[0]] + others[1..];
    }
  }

  // ------------------------------------------------------------------
  // The two decoders
  // ------------------------------------------------------------------

  datatype Strict<E> = Entries(entries: seq<E>) | Malformed(index: nat, offset: nat)

  datatype Partial<E> = Partial(entries: seq<E>, skipped: nat, complete: bool)

  /** No prefix that decodes is longer than the first `stop` bytes, and those
      decode to the entries. */
  ghost predicate LongestPrefix<E(!new)>(read: Reader<E>, data: seq<Byte>, entries: seq<E>, stop: nat) {
    && stop <= |data|
    && Decodes(read, data[..stop], entries)
    && forall k: nat, others ::
         k <= |data| && Decodes(read, data[..k], others) ==> k <= stop && others <= entries
  }

  lemma StuckIsLongest<E(!new)>(read: Reader<E>, data: seq<Byte>, entries: seq<E>, stop: nat)
    requires WellBehaved(read)
    requires Lies(read, data, 0, entries, stop) && Stuck(read, data, stop)
    ensures LongestPrefix(read, data, entries, stop)
    ensures stop < |data| ==> forall others :: !Decodes(read, data, others)
    ensures stop == |data| ==> Decodes(read, data, entries)
  {
    LiesTakesRoom(read, data, 0, entries, stop);
    LiesInPrefix(read, data, stop, 0, entries, stop);
    assert data[..|data|] == data;
    forall k: nat, others | k <= |data| && Decodes(read, data[..k], others)
      ensures k <= stop && others <= entries
    {
      LiesInPrefix(read, data, k, 0, others, k);
      StuckIsFurthest(read, data, 0, entries, stop, others, k);
    }
  }

  /** The longest prefix and its entries are unique. */
  lemma LongestIsUnique<E(!new)>(read: Reader<E>, data: seq<Byte>, a: seq<E>, i: nat, b: seq<E>, j: nat)
    requires LongestPrefix(read, data, a, i) && LongestPrefix(read, data, b, j)
    ensures i == j && a == b
  {
    assert a <= b && b <= a;
  }

  /** What the strict decoder owes: the entries that fill the data, or where
      the first unreadable entry is. */
  ghost predicate DecodedStrictly<E(!new)>(read: Reader<E>, data: seq<Byte>, r: Strict<E>) {
    match r
    case Entries(entries) => Decodes(read, data, entries)
    case Malformed(index, offset) =>
      && offset < |data|
      && (forall others :: !Decodes(read, data, others))
      && exists entries :: |entries| == index && LongestPrefix(read, data, entries, offset)
  }

  method DecodeSpec<E(!new)>(read: Reader<E>, data: seq<Byte>) returns (r: Strict<E>)
    requires WellBehaved(read)
    ensures DecodedStrictly(read, data, r)
  {
    if data == [] { return Entries([]); }
    var position, entries := 0, [];
    while position < |data|
      invariant position <= |data| && Lies(read, data, 0, entries, position)
      decreases |data| - position
    {
      var one := read(data, position);
      if one.Unreadable? {
        StuckIsLongest(read, data, entries, position);
        return Malformed(|entries|, position);
      }
      LiesOneMore(read, data, 0, entries, position);
      entries := entries + [one.value];
      position := one.next;
    }
    return Entries(entries);
  }

  /** What the partial decoder owes: the longest prefix that decodes, and the
      rest counted as skipped. */
  ghost predicate Salvaged<E(!new)>(read: Reader<E>, data: seq<Byte>, p: Partial<E>) {
    && p.skipped <= |data|
    && LongestPrefix(read, data, p.entries, |data| - p.skipped)
    && (p.complete <==> Decodes(read, data, p.entries))
    && (p.complete <==> p.skipped == 0)
  }

  method DecodePartial<E(!new)>(read: Reader<E>, data: seq<Byte>) returns (p: Partial<E>)
    requires WellBehaved(read)
    ensures Salvaged(read, data, p)
  {
    if data == [] {
      StuckIsLongest(read, data, [], 0);
      return Partial([], 0, true);
    }
    var position, entries := 0, [];
    while position < |data|
      invariant position <= |data| && Lies(read, data, 0, entries, position)
      decreases |data| - position
    {
      var one := read(data, position);
      if one.Unreadable? {
        StuckIsLongest(read, data, entries, position);
        return Partial(entries, |data| - position, false);
      }
      LiesOneMore(read, data, 0, entries, position);
      entries := entries + [one.value];
      position := one.next;
    }
    StuckIsLongest(read, data, entries, position);
    return Partial(entries, 0, true);
  }

  /** The two decoders agree: recovery is complete exactly when the strict
      decoder succeeds, with the same entries, and otherwise it stops at the
      entry and the byte that the strict decoder names. */
  lemma PartialAgreesWithStrict<E(!new)>(read: Reader<E>, data: seq<Byte>, r: Strict<E>, p: Partial<E>)
    requires WellBehaved(read)
    requires DecodedStrictly(read, data, r) && Salvaged(read, data, p)
    ensures p.complete <==> r.Entries?
    ensures r.Entries? ==> r.entries == p.entries
    ensures r.Malformed? ==> r.index == |p.entries| && r.offset + p.skipped == |data|
  {
    assert data[..|data|] == data;
    match r
    case Entries(entries) =>
      assert Stuck(read, data, |data|);
      StuckIsLongest(read, data, entries, |data|);
      LongestIsUnique(read, data, entries, |data|, p.entries, |data| - p.skipped);
    case Malformed(index, offset) =>
      var entries :| |entries| == index && LongestPrefix(read, data, entries, offset);
      LongestIsUnique(read, data, entries, offset, p.entries, |data| - p.skipped);
  }

  // ------------------------------------------------------------------
  // The registry
  // ------------------------------------------------------------------

  datatype Version = Version(protocol: nat, preRelease: nat)

  datatype Owner = ExactProtocol(protocol: nat) | ProtocolRange(min: nat, max: nat) | AnyVersion | NoVersion

  predicate Matches(o: Owner, v: Option<Version>) {
    match o
    case AnyVersion => true
    case NoVersion => v.None?
    case ExactProtocol(p) => v.Some? && v.value.protocol == p
    case ProtocolRange(min, max) => v.Some? && min <= v.value.protocol <= max
  }

  /** The versions that a predicate stands for; none is a contract that does not
      say its version. */
  ghost predicate Owns(o: Owner, v: Option<Version>) {
    || o == AnyVersion
    || (o == NoVersion && v == None)
    || exists x :: v == Some(x) && (o == ExactProtocol(x.protocol) || (o.ProtocolRange? && o.min <= x.protocol && x.protocol <= o.max))
  }

  lemma MatchesIsOwning(o: Owner, v: Option<Version>)
    ensures Matches(o, v) <==> Owns(o, v)
  {
    if v.Some? {
      assert v == Some(v.value);
    }
  }

  datatype Decoder<!E> = Decoder(name: string, owner: Owner, decode: seq<Byte> -> Strict<E>)

  datatype Meta = Meta(version: Option<Version>, decoder: string, owned: bool)

  datatype Outcome<E> =
    | Decoded(entries: seq<E>, version: Option<Version>, complete: bool, meta: Meta)
    | PartialDecode(entries: seq<E>, version: Option<Version>, skipped: nat, meta: Meta)
    | UnsupportedVersion(version: Option<Version>)

  const SUPPORTED_PROTOCOL_MIN: nat := 20

  const SUPPORTED_PROTOCOL_MAX: nat := 23

  function MetaOf<E>(d: Decoder<E>, v: Option<Version>): Meta {
    Meta(v, d.name, !d.owner.AnyVersion?)
  }

  /** The decoder is the first whose predicate owns the version. */
  ghost predicate FirstOwner<E>(decoders: seq<Decoder<E>>, v: Option<Version>, i: nat) {
    && i < |decoders| && Owns(decoders[i].owner, v)
    && forall j :: 0 <= j < i ==> !Owns(decoders[j].owner, v)
  }

  ghost predicate Unowned<E>(decoders: seq<Decoder<E>>, v: Option<Version>) {
    forall j :: 0 <= j < |decoders| ==> !Owns(decoders[j].owner, v)
  }

  /** A recovered outcome: entries of the longest decodable prefix, and a
      skipped count that is never below the bytes after it. */
  ghost predicate Conservative<E(!new)>(read: Reader<E>, data: seq<Byte>, entries: seq<E>, skipped: nat) {
    && skipped <= |data|
    && exists stop: nat :: LongestPrefix(read, data, entries, stop) && |data| - stop <= skipped
  }

  /** Four bytes an entry never over-counts what was read, so the reported
      count never falls below what was left. */
  lemma SkippedIsConservative<E(!new)>(read: Reader<E>, data: seq<Byte>, p: Partial<E>)
    requires WellBehaved(read) && Salvaged(read, data, p)
    ensures 4 * |p.entries| <= |data| - p.skipped
    ensures Conservative(read, data, p.entries, |data| - 4 * |p.entries|)
  {
    var stop := |data| - p.skipped;
    LiesTakesRoom(read, data[..stop], 0, p.entries, stop);
  }

  /** Every entry is nothing but its four-byte discriminant. */
  ghost predicate OnlyHeads<E>(read: Reader<E>, data: seq<Byte>, pos: nat, entries: seq<E>)
    decreases |entries|
  {
    entries == [] ||
    (read(data, pos).Entry? && read(data, pos).next == pos + 4 && OnlyHeads(read, data, pos + 4, entries[1..]))
  }

  lemma {:induction false} RoomIsExact<E(!new)>(read: Reader<E>, data: seq<Byte>, pos: nat, entries: seq<E>, stop: nat)
    requires WellBehaved(read) && Lies(read, data, pos, entries, stop) && pos <= |data|
    ensures stop == pos + 4 * |entries| <==> OnlyHeads(read, data, pos, entries)
    decreases |entries|
  {
    if entries != [] {
      var next := read(data, pos).next;
      LiesTakesRoom(read, data, next, entries[1..], stop);
      RoomIsExact(read, data, next, entries[1..], stop);
    }
  }

  /** Every entry has something after its discriminant, as named entries do. */
  ghost predicate LongEntries<E(!new)>(read: Reader<E>) {
    forall data, pos: nat :: read(data, pos).Entry? ==> read(data, pos).next > pos + 4
  }

  /** The reported count is the true remainder iff the decoded entries are bare
      discriminants, which a caller can tell from them; where every entry is
      longer, iff nothing was decoded. */
  lemma SkippedIsExact<E(!new)>(read: Reader<E>, data: seq<Byte>, p: Partial<E>)
    requires WellBehaved(read) && Salvaged(read, data, p)
    ensures |data| - 4 * |p.entries| == p.skipped <==> OnlyHeads(read, data, 0, p.entries)
    ensures LongEntries(read) ==> (|data| - 4 * |p.entries| == p.skipped <==> p.entries == [])
  {
    var stop := |data| - p.skipped;
    LiesInPrefix(read, data, stop, 0, p.entries, stop);
    RoomIsExact(read, data, 0, p.entries, stop);
  }

  function BuiltIn<E>(decode: seq<Byte> -> Strict<E>): seq<Decoder<E>> {
    [ Decoder("legacy-no-version", NoVersion, decode),
      Decoder("soroban-v0-protocol-20-23", ProtocolRange(SUPPORTED_PROTOCOL_MIN, SUPPORTED_PROTOCOL_MAX), decode) ]
  }

  class Registry<!E(!new)> {
    var decoders: seq<Decoder<E>>

    constructor (decode: seq<Byte> -> Strict<E>)
      ensures decoders == BuiltIn(decode)
    {
      decoders := [];
      new;
      Register(Decoder("legacy-no-version", NoVersion, decode));
      Register(Decoder("soroban-v0-protocol-20-23", ProtocolRange(SUPPORTED_PROTOCOL_MIN, SUPPORTED_PROTOCOL_MAX), decode));
    }

    method Register(d: Decoder<E>)
      modifies this
      ensures decoders == old(decoders) + [d]
    {
      decoders := decoders + [d];
    }

    /** The first owner decodes; if it fails, the caller is told the same as if
        nobody owned the version. */
    method Decode(data: seq<Byte>, v: Option<Version>) returns (r: Outcome<E>)
      ensures Unowned(decoders, v) ==> r == UnsupportedVersion(v)
      ensures forall i: nat :: FirstOwner(decoders, v, i) ==>
        var d, strict := decoders[i], decoders[i].decode(data);
        r == if strict.Entries? then Decoded(strict.entries, v, true, Meta(v, d.name, d.owner != AnyVersion)) else UnsupportedVersion(v)
    {
      for i := 0 to |decoders|
        invariant forall j :: 0 <= j < i ==> !Owns(decoders[j].owner, v)
      {
        var d := decoders[i];
        MatchesIsOwning(d.owner, v);
        if Matches(d.owner, v) {
          var strict := d.decode(data);
          return if strict.Entries? then Decoded(strict.entries, v, true, MetaOf(d, v)) else UnsupportedVersion(v);
        }
      }
      return UnsupportedVersion(v);
    }

    /** As `Decode`, but a failing decoder leads to recovery with the current
        schema's reader. */
    method DecodeForwardCompat(read: Reader<E>, data: seq<Byte>, v: Option<Version>) returns (r: Outcome<E>)
      requires WellBehaved(read)
      ensures Unowned(decoders, v) ==> r == UnsupportedVersion(v)
      ensures forall i: nat :: FirstOwner(decoders, v, i) ==>
        var d, strict := decoders[i], decoders[i].decode(data);
        if strict.Entries? then r == Decoded(strict.entries, v, true, Meta(v, d.name, d.owner != AnyVersion))
        else
          && r.PartialDecode? && r.version == v && r.meta == Meta(v, d.name, d.owner != AnyVersion)
          && Conservative(read, data, r.entries, r.skipped)
          && r.skipped == |data| - 4 * |r.entries|
    {
      for i := 0 to |decoders|
        invariant forall j :: 0 <= j < i ==> !Owns(decoders[j].owner, v)
      {
        var d := decoders[i];
        MatchesIsOwning(d.owner, v);
        if Matches(d.owner, v) {
          var strict := d.decode(data);
          if strict.Entries? {
            return Decoded(strict.entries, v, true, MetaOf(d, v));
          }
          var partial := DecodePartial(read, data);
          var lower := |partial.entries| * 4;
          var skipped := if lower <= |data| then |data| - lower else 0;
          SkippedIsConservative(read, data, partial);
          return PartialDecode(partial.entries, v, skipped, MetaOf(d, v));
        }
      }
      return UnsupportedVersion(v);
    }
  }

  /** The built-in registry owns unversioned sections and protocols 20 to 23,
      and never through a fallback. */
  lemma BuiltInOwns<E>(decode: seq<Byte> -> Strict<E>, v: Option<Version>)
    ensures Unowned(BuiltIn(decode), v) <==> v.Some? && !(20 <= v.value.protocol <= 23)
    ensures forall i: nat :: FirstOwner(BuiltIn(decode), v, i) ==>
      MetaOf(BuiltIn(decode)[i], v).owned && (i == 0 <==> v.None?)
  {
    var b := BuiltIn(decode);
    MatchesIsOwning(b[0].owner, v);
    MatchesIsOwning(b[1].owner, v);
  }

  // ------------------------------------------------------------------
  // An entry as specs hold it
  // ------------------------------------------------------------------

  /** A four-byte integer, most significant byte first (section 4.2 of RFC 4506). */
  function WordAt(data: seq<Byte>, pos: nat): Option<nat> {
    if pos + 4 > |data| then None
    else
      var a: nat, b: nat, c: nat, d: nat := data[pos], data[pos + 1], data[pos + 2], data[pos + 3];
      Some(((a * 256 + b) * 256 + c) * 256 + d)
  }

  /** Where a string ends: its length, its bytes, and zeros up to a multiple of
      four (section 4.11 of RFC 4506). */
  function StringEnd(data: seq<Byte>, pos: nat): Option<nat> {
    var length := WordAt(data, pos);
    if length.None? then None
    else
      var text := pos + 4 + length.value;
      var end := pos + 4 + (length.value + 3) / 4 * 4;
      if end <= |data| && (forall i :: text <= i < end ==> data[i] == 0) then Some(end) else None
  }

  const FUNCTION_V0: nat := 0

  /** An entry for a function without parameters and results: discriminant, doc
      string, name, and two empty lists.  Its value is where the name starts.
      Anything else is unreadable here. */
  function PlainFunction(data: seq<Byte>, pos: nat): Read<nat> {
    if WordAt(data, pos) != Some(FUNCTION_V0) then Unreadable
    else
      var doc := StringEnd(data, pos + 4);
      if doc.None? then Unreadable
      else
        var name := StringEnd(data, doc.value);
        if name.None? || WordAt(data, name.value) != Some(0) || WordAt(data, name.value + 4) != Some(0) then Unreadable
        else Entry(doc.value, name.value + 8)
  }

  lemma WordInPrefix(data: seq<Byte>, k: nat, pos: nat)
    requires k <= |data|
    ensures WordAt(data[..k], pos).Some? ==> WordAt(data, pos) == WordAt(data[..k], pos)
    ensures pos + 4 <= k ==> WordAt(data[..k], pos) == WordAt(data, pos)
  {
  }

  lemma WordNeedsRoom(data: seq<Byte>, pos: nat)
    ensures WordAt(data, pos).Some? <==> pos + 4 <= |data|
  {
  }

  lemma StringInPrefix(data: seq<Byte>, k: nat, pos: nat)
    requires k <= |data|
    ensures StringEnd(data[..k], pos).Some? ==> StringEnd(data, pos) == StringEnd(data[..k], pos)
    ensures StringEnd(data, pos).Some? ==> pos + 4 <= StringEnd(data, pos).value <= |data|
    ensures StringEnd(data, pos).Some? && StringEnd(data, pos).value <= k ==> StringEnd(data[..k], pos) == StringEnd(data, pos)
  {
    WordInPrefix(data, k, pos);
    hide WordAt;
    assert WordAt(data, pos).Some? ==> pos + 4 <= |data| by { WordNeedsRoom(data, pos); }
    assert forall i :: 0 <= i < k ==> data[..k][i] == data[i];
  }

  lemma PlainFunctionInPrefix(data: seq<Byte>, k: nat, pos: nat)
    requires k <= |data|
    ensures PlainFunction(data, pos).Entry? ==> pos + 20 <= PlainFunction(data, pos).next <= |data|
    ensures PlainFunction(data[..k], pos).Entry? ==> PlainFunction(data, pos) == PlainFunction(data[..k], pos)
    ensures PlainFunction(data, pos).Entry? && PlainFunction(data, pos).next <= k ==> PlainFunction(data[..k], pos) == PlainFunction(data, pos)
  {
    hide WordAt, StringEnd;
    var doc := StringEnd(data, pos + 4);
    WordInPrefix(data, k, pos);
    StringInPrefix(data, k, pos + 4);
    if doc.Some? {
      var name := StringEnd(data, doc.value);
      StringInPrefix(data, k, doc.value);
      if name.Some? {
        WordInPrefix(data, k, name.value);
        WordInPrefix(data, k, name.value + 4);
        WordNeedsRoom(data, name.value + 4);
      }
    }
  }

  lemma PlainFunctionsBehave()
    ensures WellBehaved(PlainFunction) && LongEntries(PlainFunction)
  {
    hide PlainFunction;
    forall data, pos: nat ensures PlainFunction(data, pos).Entry? ==> pos + 4 < PlainFunction(data, pos).next <= |data| {
      PlainFunctionInPrefix(data, |data|, pos);
    }
    forall data, pos: nat, k: nat | k <= |data|
      ensures PlainFunction(data[..k], pos).Entry? ==> PlainFunction(data, pos) == PlainFunction(data[..k], pos)
      ensures PlainFunction(data, pos).Entry? && PlainFunction(data, pos).next <= k ==> PlainFunction(data[..k], pos) == PlainFunction(data, pos)
    {
      PlainFunctionInPrefix(data, k, pos);
    }
  }

  /** A function `ping` without documentation, then an entry of unknown kind 99. */
  const PING: seq<Byte> := [
    0, 0, 0, 0, 0, 0, 0, 0, 0, 0, 0, 4, 112, 105, 110, 103, 0, 0, 0, 0, 0, 0, 0, 0,
    0, 0, 0, 99]

  lemma PingWords()
    ensures |PING| == 28
    ensures WordAt(PING, 0) == Some(0) && WordAt(PING, 4) == Some(0) && WordAt(PING, 8) == Some(4)
    ensures WordAt(PING, 16) == Some(0) && WordAt(PING, 20) == Some(0) && WordAt(PING, 24) == Some(99)
  {
  }

  lemma PingReads()
    ensures PlainFunction(PING, 0) == Entry(8, 24) && PlainFunction(PING, 24) == Unreadable
  {
    PingWords();
    hide WordAt, PING;
    assert StringEnd(PING, 4) == Some(8);
    assert StringEnd(PING, 8) == Some(16);
  }

  lemma OneEntryLies(value: nat, stop: nat)
    requires PlainFunction(PING, 0) == Entry(value, stop)
    ensures Lies(PlainFunction, PING, 0, [value], stop)
  {
    var one: seq<nat> := [value];
    hide PlainFunction, PING;
    assert Lies(PlainFunction, PING, stop, one[1..], stop);
  }

  /** One entry of 24 bytes is read and four bytes are left: 24 are reported. */
  lemma SkippedCanBeTooHigh()
    ensures WellBehaved(PlainFunction)
    ensures Salvaged(PlainFunction, PING, Partial([8], 4, false)) && forall others :: !Decodes(PlainFunction, PING, others)
    ensures |PING| - 4 * |[8]| == 24
  {
    PlainFunctionsBehave();
    PingReads();
    PingWords();
    OneEntryLies(8, 24);
    hide PlainFunction, WellBehaved, PING, WordAt;
    StuckIsLongest(PlainFunction, PING, [8], 24);
  }
}
