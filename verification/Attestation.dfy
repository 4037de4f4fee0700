/** Signed statements: the bytes a signature covers, and when an envelope is
    accepted.  Base64, statement parsing and the signature scheme are library
    code; they enter as functions. */
module Attestation {
  import opened Prelude
  import opened Ordering
  import opened Text
  import opened Findings
  import opened Json
  import opened JsonReader

  const STATEMENT_TYPE := "https://in-toto.io/Statement/v1"

  const PREDICATE_TYPE := "https://github.com/ShippedLabs/soroban-upgrade-safeguard/attestation/v1"

  const DSSE_PAYLOAD_TYPE := "application/vnd.in-toto+json"

  /** The pre-authentication encoding of the DSSE v1.0 protocol. */
  function DssePae(payloadType: string, payload: string): string {
    "DSSEv1 " + (Decimal(|payloadType|) + (" " + (payloadType + (" " + (Decimal(|payload|) + (" " + payload))))))
  }

  /** The encoding determines both of its parts. */
  lemma PaeIsInjective(t: string, u: string, p: string, q: string)
    requires DssePae(t, p) == DssePae(u, q)
    ensures t == u && p == q
  {
    var p2, q2 := Decimal(|p|) + (" " + p), Decimal(|q|) + (" " + q);
    var t2, u2 := t + (" " + p2), u + (" " + q2);
    DropPrefix("DSSEv1 ", Decimal(|t|) + (" " + t2), Decimal(|u|) + (" " + u2));
    DecimalPrefix(|t|, |u|, " " + t2, " " + u2);
    DropPrefix(" ", t2, u2);
    SplitAt(t, u, " " + p2, " " + q2);
    DropPrefix(" ", p2, q2);
    DecimalPrefix(|p|, |q|, " " + p, " " + q);
    DropPrefix(" ", p, q);
  }

  lemma LengthsInDecimal()
    ensures Decimal(10) == "10" && Decimal(5) == "5"
  {
    assert Decimal(10) == Decimal(1) + [DigitChar(0)] && Decimal(1) == "1";
  }

  lemma ExampleHead(rest: string)
    ensures "DSSEv1 " + ("10" + (" " + rest)) == "DSSEv1 10 " + rest
  {
    Assoc("10", " ", rest);
    Assoc("DSSEv1 ", "10" + " ", rest);
    assert "10" + " " == "10 ";
    assert "DSSEv1 " + "10 " == "DSSEv1 10 ";
  }

  lemma ExampleTail()
    ensures " " + ("5" + (" " + "hello")) == " 5 hello"
  {
    assert " " + "hello" == " hello";
    assert "5" + " hello" == "5 hello";
  }

  lemma ExampleWhole()
    ensures "DSSEv1 10 " + ("text/plain" + " 5 hello") == "DSSEv1 10 text/plain 5 hello"
  {
    assert "text/plain" + " 5 hello" == "text/plain 5 hello";
  }

  /** One encoding in full, as an example of what is signed. */
  lemma PaeExample()
    ensures DssePae("text/plain", "hello") == "DSSEv1 10 text/plain 5 hello"
  {
    LengthsInDecimal();
    ExampleTail();
    ExampleHead("text/plain" + " 5 hello");
    ExampleWhole();
    hide Decimal;
    assert |"text/plain"| == 10 && |"hello"| == 5;
  }

  /** Equal signed bytes mean the same payload type and the same JSON value;
      the order in which members were inserted never matters. */
  lemma SignedBytesAreExact(t: string, u: string, v: Json, w: Json)
    requires WellFormed(v) && WellFormed(w) && AllIntegers(v) && AllIntegers(w)
    ensures DssePae(t, TextOf(v)) == DssePae(u, TextOf(w)) <==> t == u && Same(v, w)
  {
    CanonicalTextIsExact(v, w);
    if DssePae(t, TextOf(v)) == DssePae(u, TextOf(w)) {
      PaeIsInjective(t, u, TextOf(v), TextOf(w));
    }
  }

  ghost function CanonicalOf(v: Json): Option<string> {
    if AllIntegers(v) then Some(TextOf(v)) else None
  }

  method CanonicalBytes(v: Json) returns (r: Option<string>)
    requires WellFormed(v)
    ensures r == CanonicalOf(v)
  {
    var writer := new JsonWriter();
    var ok := writer.Write(v);
    assert AllIntegers(v) ==> "" + TextOf(v) == TextOf(v);
    r := if ok then Some(writer.output) else None;
  }

  /** A statement: the fields that are checked, and its JSON form. */
  datatype Statement = Statement(statementType: string, predicateType: string, predicateVersion: nat, json: Json)

  predicate IsValid(s: Statement) {
    s.statementType == STATEMENT_TYPE && s.predicateType == PREDICATE_TYPE && s.predicateVersion == 1
  }

  datatype Signature = Signature(keyid: string, sig: string)

  datatype Envelope = Envelope(payloadType: string, payload: string, signatures: seq<Signature>)

  datatype FailureKind = InvalidStatement | NonCanonicalPayload | InvalidSignature | UntrustedSigner

  datatype Failure = Failure(kind: FailureKind, subject: Option<string>)

  datatype Verification = Verification(verified: bool, identities: seq<string>, failures: seq<Failure>)

  /** The library functions an envelope is checked with. */
  datatype Library = Library(
    decode64: string -> Option<string>,
    parse: string -> Option<Statement>,
    verifies: (string, string, string) -> bool)

  /** The payload is base64 of canonical JSON of a valid statement. */
  ghost predicate PayloadOk(e: Envelope, lib: Library) {
    var payload := lib.decode64(e.payload);
    payload.Some? &&
    var statement := lib.parse(payload.value);
    statement.Some? && CanonicalOf(statement.value.json) == payload && IsValid(statement.value)
  }

  /** One signature: its key is trusted and it verifies over the PAE bytes. */
  ghost predicate SignatureOk(s: Signature, message: string, trusted: map<string, string>, lib: Library) {
    && s.keyid in trusted
    && lib.decode64(s.sig).Some?
    && lib.verifies(trusted[s.keyid], message, lib.decode64(s.sig).value)
  }

  /** Some signature by this key holds. */
  ghost predicate SignedBy(signatures: seq<Signature>, keyid: string, message: string, trusted: map<string, string>, lib: Library) {
    exists s :: s in signatures && s.keyid == keyid && SignatureOk(s, message, trusted, lib)
  }

  function FailureFor(s: Signature, trusted: map<string, string>): Failure {
    Failure(if s.keyid in trusted then InvalidSignature else UntrustedSigner, Some(s.keyid))
  }

  /** The failures, in signature order: one for each that does not hold. */
  ghost function FailuresOf(signatures: seq<Signature>, message: string, trusted: map<string, string>, lib: Library): seq<Failure> {
    if signatures == [] then []
    else
      var last := signatures[|signatures| - 1];
      FailuresOf(signatures[..|signatures| - 1], message, trusted, lib)
      + if SignatureOk(last, message, trusted, lib) then [] else [FailureFor(last, trusted)]
  }

  /** Why an envelope is turned away before any signature is looked at. */
  ghost function Rejection(e: Envelope, lib: Library): Option<FailureKind> {
    var payload := lib.decode64(e.payload);
    if payload.None? || lib.parse(payload.value).None? then Some(InvalidStatement)
    else
      var statement := lib.parse(payload.value).value;
      if CanonicalOf(statement.json) != payload then Some(NonCanonicalPayload)
      else if !IsValid(statement) then Some(InvalidStatement)
      else if e.signatures == [] then Some(InvalidSignature)
      else None
  }

  ghost function SignedMessage(e: Envelope, lib: Library): string
    requires PayloadOk(e, lib)
  {
    DssePae(e.payloadType, lib.decode64(e.payload).value)
  }

  ghost predicate ParsesWellFormed(lib: Library) {
    forall p :: lib.parse(p).Some? ==> WellFormed(lib.parse(p).value.json)
  }

  function Rejected(kind: FailureKind): Verification {
    Verification(false, [], [Failure(kind, None)])
  }

  method CheckSignature(s: Signature, message: string, trusted: map<string, string>, lib: Library) returns (r: Option<Failure>)
    ensures r.None? <==> SignatureOk(s, message, trusted, lib)
    ensures r.Some? ==> r.value == FailureFor(s, trusted)
  {
    if s.keyid !in trusted {
      return Some(Failure(UntrustedSigner, Some(s.keyid)));
    }
    var sig := lib.decode64(s.sig);
    if sig.None? || !lib.verifies(trusted[s.keyid], message, sig.value) {
      return Some(Failure(InvalidSignature, Some(s.keyid)));
    }
    r := None;
  }

  lemma OneMoreFailure(signatures: seq<Signature>, i: nat, message: string, trusted: map<string, string>, lib: Library)
    requires i < |signatures|
    ensures FailuresOf(signatures[..i + 1], message, trusted, lib)
         == FailuresOf(signatures[..i], message, trusted, lib)
            + if SignatureOk(signatures[i], message, trusted, lib) then [] else [FailureFor(signatures[i], trusted)]
  {
    assert signatures[..i + 1][..i] == signatures[..i];
  }

  lemma OneMoreSigned(signatures: seq<Signature>, i: nat, message: string, trusted: map<string, string>, lib: Library)
    requires i < |signatures|
    ensures forall k :: SignedBy(signatures[..i + 1], k, message, trusted, lib) <==>
      SignedBy(signatures[..i], k, message, trusted, lib)
      || (k == signatures[i].keyid && SignatureOk(signatures[i], message, trusted, lib))
  {
    hide SignatureOk;
    var before, last := signatures[..i], signatures[i];
    assert signatures[..i + 1] == before + [last];
    assert last in signatures[..i + 1];
    forall k
      ensures SignedBy(signatures[..i + 1], k, message, trusted, lib) <==>
        SignedBy(before, k, message, trusted, lib) || (k == last.keyid && SignatureOk(last, message, trusted, lib))
    {
      if SignedBy(before, k, message, trusted, lib) {
        var s :| s in before && s.keyid == k && SignatureOk(s, message, trusted, lib);
        assert s in signatures[..i + 1];
      }
    }
  }

  method CheckAll(e: Envelope, message: string, trusted: map<string, string>, lib: Library) returns (r: Verification)
    ensures r.verified <==> r.identities != []
    ensures forall k :: k in r.identities <==> SignedBy(e.signatures, k, message, trusted, lib)
    ensures r.failures == FailuresOf(e.signatures, message, trusted, lib)
    ensures NoDup(r.identities) && Sorted(r.identities, LexLeq)
  {
    var good: set<string>, failures: seq<Failure> := {}, [];
    assert FailuresOf(e.signatures[..0], message, trusted, lib) == [];
    assert forall k :: !SignedBy(e.signatures[..0], k, message, trusted, lib);
    hide SignatureOk, FailureFor, SignedBy, FailuresOf, LexLeq, Sorted, NoDup, SortedNames;
    for i := 0 to |e.signatures|
      invariant forall k :: k in good <==> SignedBy(e.signatures[..i], k, message, trusted, lib)
      invariant failures == FailuresOf(e.signatures[..i], message, trusted, lib)
    {
      var s := e.signatures[i];
      OneMoreFailure(e.signatures, i, message, trusted, lib);
      OneMoreSigned(e.signatures, i, message, trusted, lib);
      var failure := CheckSignature(s, message, trusted, lib);
      if failure.None? {
        good := good + {s.keyid};
      } else {
        failures := failures + [failure.value];
      }
    }
    assert e.signatures[..|e.signatures|] == e.signatures;
    var identities := CollectNames(good);
    SortedNamesMembers(good);
    SortedNamesNoDup(good);
    SortedNamesSorted(good);
    r := Verification(identities != [], identities, failures);
  }

  /** An envelope is verified iff its payload is in order and some trusted key
      signed it; the identities are exactly the trusted keys whose signatures
      verify, in order and each once; every other signature is one failure. */
  method VerifySignatures(e: Envelope, trusted: map<string, string>, lib: Library) returns (r: Verification)
    requires ParsesWellFormed(lib)
    ensures r.verified <==> r.identities != []
    ensures Rejection(e, lib).Some? <==> !PayloadOk(e, lib) || e.signatures == []
    ensures Rejection(e, lib).Some? ==> r == Rejected(Rejection(e, lib).value)
    ensures Rejection(e, lib).None? ==>
      && (forall k :: k in r.identities <==> SignedBy(e.signatures, k, SignedMessage(e, lib), trusted, lib))
      && r.failures == FailuresOf(e.signatures, SignedMessage(e, lib), trusted, lib)
    ensures NoDup(r.identities) && Sorted(r.identities, LexLeq)
  {
    var payload := lib.decode64(e.payload);
    if payload.None? { return Rejected(InvalidStatement); }
    var statement := lib.parse(payload.value);
    if statement.None? { return Rejected(InvalidStatement); }
    var bytes := CanonicalBytes(statement.value.json);
    if bytes != payload { return Rejected(NonCanonicalPayload); }
    if !IsValid(statement.value) { return Rejected(InvalidStatement); }
    if e.signatures == [] { return Rejected(InvalidSignature); }
    r := CheckAll(e, DssePae(e.payloadType, payload.value), trusted, lib);
  }

  /** Signing does not validate; it canonicalizes, encodes and signs.  The text
      that is signed reads back as the statement, keys in byte order. */
  method SignStatement(s: Statement, keyid: string, sign: string -> string, encode64: string -> string) returns (r: Option<Envelope>)
    requires WellFormed(s.json)
    ensures r.Some? <==> AllIntegers(s.json)
    ensures r.Some? ==> r.value == Envelope(DSSE_PAYLOAD_TYPE, encode64(TextOf(s.json)),
      [Signature(keyid, encode64(sign(DssePae(DSSE_PAYLOAD_TYPE, TextOf(s.json)))))])
    ensures r.Some? ==> ReadValue(TextOf(s.json)) == Parsed(InOrder(s.json), "")
    ensures Same(s.json, InOrder(s.json)) && KeysAscend(InOrder(s.json))
  {
    InOrderIsSame(s.json);
    var payload := CanonicalBytes(s.json);
    if payload.None? { return None; }
    assert TextOf(s.json) + "" == TextOf(s.json);
    CanonicalTextReads(s.json, "");
    var pae := DssePae(DSSE_PAYLOAD_TYPE, payload.value);
    r := Some(Envelope(DSSE_PAYLOAD_TYPE, encode64(payload.value), [Signature(keyid, encode64(sign(pae)))]));
  }

  /** Signing and verifying, end to end.  Signing does not validate, so a
      signed statement is accepted exactly when it is valid; then the key is
      among the identities and nothing fails. */
  lemma SignedStatementVerifies(s: Statement, keyid: string, sign: string -> string, encode64: string -> string, e: Envelope, trusted: map<string, string>, lib: Library)
    requires AllIntegers(s.json)
    requires e == Envelope(DSSE_PAYLOAD_TYPE, encode64(TextOf(s.json)),
      [Signature(keyid, encode64(sign(DssePae(DSSE_PAYLOAD_TYPE, TextOf(s.json)))))])
    requires forall x :: lib.decode64(encode64(x)) == Some(x)
    requires lib.parse(TextOf(s.json)) == Some(s)
    requires keyid in trusted && forall m :: lib.verifies(trusted[keyid], m, sign(m))
    ensures Rejection(e, lib) == if IsValid(s) then None else Some(InvalidStatement)
    ensures IsValid(s) ==>
      && SignedBy(e.signatures, keyid, SignedMessage(e, lib), trusted, lib)
      && FailuresOf(e.signatures, SignedMessage(e, lib), trusted, lib) == []
  {
    if IsValid(s) {
      var message := SignedMessage(e, lib);
      assert e.signatures[0] in e.signatures && SignatureOk(e.signatures[0], message, trusted, lib);
      assert e.signatures[..0] == [] && FailuresOf([], message, trusted, lib) == [];
    }
  }

  /** Accepted envelopes with equal signed messages carry the same payload type,
      the same payload bytes and so the very same statement. */
  lemma SignatureBindsStatement(e: Envelope, f: Envelope, lib: Library)
    requires PayloadOk(e, lib) && PayloadOk(f, lib)
    requires SignedMessage(e, lib) == SignedMessage(f, lib)
    ensures e.payloadType == f.payloadType
    ensures lib.decode64(e.payload) == lib.decode64(f.payload)
    ensures lib.parse(lib.decode64(e.payload).value) == lib.parse(lib.decode64(f.payload).value)
  {
    PaeIsInjective(e.payloadType, f.payloadType, lib.decode64(e.payload).value, lib.decode64(f.payload).value);
  }
}
