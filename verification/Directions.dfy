/** One direction of the comparison, over every function the client knows: the
    report, what it holds, and which positions it speaks of. */
module Directions {
  import opened Prelude
  import opened Ordering
  import opened Spec
  import opened Text
  import opened CallAbi
  import opened Simulation
  import opened Routes

  function FieldTypeList(fields: seq<Field>): seq<SpecType> {
    seq(|fields|, i requires 0 <= i < |fields| => fields[i].ty)
  }

  ghost function ArgumentBreaks(client: ContractSpec, contract: ContractSpec, name: Name): seq<Break>
    requires name in client.functions && name in contract.functions
  {
    var a, b := client.functions[name].inputs, contract.functions[name].inputs;
    if |a| != |b| then [Break(name, "function." + name + ".arguments", ArgumentCount(|a|, |b|))]
    else EachBreaks(Flow(client, contract, name), FieldTypeList(a), FieldTypeList(b),
                    "function." + name + ".argument", |a|, {})
  }

  /** Return values flow the other way: the contract encodes, the client decodes. */
  ghost function ReturnBreaks(client: ContractSpec, contract: ContractSpec, name: Name): seq<Break>
    requires name in client.functions && name in contract.functions
  {
    var a, b := client.functions[name].outputs, contract.functions[name].outputs;
    if |a| != |b| then [Break(name, "function." + name + ".return", ReturnCount(|b|, |a|))]
    else EachBreaks(Flow(contract, client, name), b, a, "function." + name + ".return", |a|, {})
  }

  ghost function FunctionBreaks(client: ContractSpec, contract: ContractSpec, name: Name): seq<Break>
    requires name in client.functions
  {
    if name !in contract.functions then [Break(name, "function." + name, FunctionNotExported)]
    else ArgumentBreaks(client, contract, name) + ReturnBreaks(client, contract, name)
  }

  ghost function BreaksOf(client: ContractSpec, contract: ContractSpec): Name -> multiset<Break> {
    n => if n in client.functions then multiset(FunctionBreaks(client, contract, n)) else multiset{}
  }

  /** No function the client knows breaks. */
  ghost predicate CleanDirection(client: ContractSpec, contract: ContractSpec) {
    forall n :: n in client.functions ==> FunctionBreaks(client, contract, n) == []
  }

  lemma CleanIffNoBreaks(client: ContractSpec, contract: ContractSpec, breaks: seq<Break>)
    requires multiset(breaks) == BagUnion(client.functions.Keys, BreaksOf(client, contract))
    ensures breaks == [] <==> CleanDirection(client, contract)
  {
    var found := BreaksOf(client, contract);
    BagUnionEmpty(client.functions.Keys, found);
    assert |multiset(breaks)| == |breaks|;
    forall n | n in client.functions
      ensures found(n) == multiset{} <==> FunctionBreaks(client, contract, n) == []
    {
      assert |found(n)| == |FunctionBreaks(client, contract, n)|;
    }
  }

  // ------------------------------------------------------------------
  // What the report holds
  // ------------------------------------------------------------------

  /** The client's argument against the contract's parameter. */
  ghost function ArgumentVisit(client: ContractSpec, contract: ContractSpec, n: Name, i: nat): Visit
    requires n in client.functions && n in contract.functions
    requires i < |client.functions[n].inputs| && i < |contract.functions[n].inputs|
  {
    Visit(client.functions[n].inputs[i].ty, contract.functions[n].inputs[i].ty, "function." + n + ".argument[" + Decimal(i) + "]", {})
  }

  /** The contract's result against what the client decodes. */
  ghost function ReturnVisit(client: ContractSpec, contract: ContractSpec, n: Name, j: nat): Visit
    requires n in client.functions && n in contract.functions
    requires j < |client.functions[n].outputs| && j < |contract.functions[n].outputs|
  {
    Visit(contract.functions[n].outputs[j], client.functions[n].outputs[j], "function." + n + ".return[" + Decimal(j) + "]", {})
  }

  ghost predicate ArgumentReported(client: ContractSpec, contract: ContractSpec, n: Name, x: Break)
    requires n in client.functions && n in contract.functions
  {
    var a, b := |client.functions[n].inputs|, |contract.functions[n].inputs|;
    if a != b then x == Break(n, "function." + n + ".arguments", ArgumentCount(a, b))
    else exists i :: 0 <= i < a && IsFound(Flow(client, contract, n), ArgumentVisit(client, contract, n, i), x)
  }

  ghost predicate ReturnReported(client: ContractSpec, contract: ContractSpec, n: Name, x: Break)
    requires n in client.functions && n in contract.functions
  {
    var a, b := |client.functions[n].outputs|, |contract.functions[n].outputs|;
    if a != b then x == Break(n, "function." + n + ".return", ReturnCount(b, a))
    else exists j :: 0 <= j < a && IsFound(Flow(contract, client, n), ReturnVisit(client, contract, n, j), x)
  }

  /** A function the client knows is missing, or its arguments or its results
      differ in number, or a route from one of their positions ends here. */
  ghost predicate Reported(client: ContractSpec, contract: ContractSpec, x: Break) {
    x.fn in client.functions &&
    if x.fn !in contract.functions then x == Break(x.fn, "function." + x.fn, FunctionNotExported)
    else ArgumentReported(client, contract, x.fn, x) || ReturnReported(client, contract, x.fn, x)
  }

  lemma {:induction false} EachIsFound(fl: Flow, ts: seq<SpecType>, us: seq<SpecType>, path: string, x: Break)
    requires |ts| == |us|
    ensures x in EachBreaks(fl, ts, us, path, |ts|, {})
       <==> exists i :: 0 <= i < |ts| && IsFound(fl, ElementVisit(ts, us, path, i, {}), x)
  {
    EachMember(fl, ts, us, path, |ts|, {}, x);
    forall i | 0 <= i < |ts|
      ensures IsFound(fl, ElementVisit(ts, us, path, i, {}), x) <==> x in BreaksAt(fl, ElementVisit(ts, us, path, i, {}))
    {
      WalkIsExact(fl, ElementVisit(ts, us, path, i, {}), x);
    }
    hide IsFound, BreaksAt, EachBreaks, ElementVisit;
  }

  lemma PlaceText(n: Name, part: string, i: nat)
    ensures ("function." + n + part) + "[" + Decimal(i) + "]" == "function." + n + (part + "[") + Decimal(i) + "]"
  {
    Assoc("function." + n, part, "[");
  }

  lemma ArgumentsAreExact(client: ContractSpec, contract: ContractSpec, n: Name, x: Break)
    requires n in client.functions && n in contract.functions
    ensures x in ArgumentBreaks(client, contract, n) <==> ArgumentReported(client, contract, n, x)
  {
    var a, b := client.functions[n].inputs, contract.functions[n].inputs;
    if |a| == |b| {
      var ts, us, path := FieldTypeList(a), FieldTypeList(b), "function." + n + ".argument";
      EachIsFound(Flow(client, contract, n), ts, us, path, x);
      forall i | 0 <= i < |a| ensures ElementVisit(ts, us, path, i, {}) == ArgumentVisit(client, contract, n, i) {
        PlaceText(n, ".argument", i);
        assert ".argument" + "[" == ".argument[";
      }
      hide IsFound, EachBreaks, ElementVisit, ArgumentVisit;
    }
  }

  lemma ReturnsAreExact(client: ContractSpec, contract: ContractSpec, n: Name, x: Break)
    requires n in client.functions && n in contract.functions
    ensures x in ReturnBreaks(client, contract, n) <==> ReturnReported(client, contract, n, x)
  {
    var a, b := client.functions[n].outputs, contract.functions[n].outputs;
    if |a| == |b| {
      var path := "function." + n + ".return";
      EachIsFound(Flow(contract, client, n), b, a, path, x);
      forall j | 0 <= j < |a| ensures ElementVisit(b, a, path, j, {}) == ReturnVisit(client, contract, n, j) {
        PlaceText(n, ".return", j);
        assert ".return" + "[" == ".return[";
      }
      hide IsFound, EachBreaks, ElementVisit, ReturnVisit;
    }
  }

  lemma FoundAtFunction(fl: Flow, v: Visit, x: Break)
    requires IsFound(fl, v, x)
    ensures v.path <= x.path && x.fn == fl.fn
  {
    var n :| Found(fl, v, x, n);
    FoundBelow(fl, v, x, n);
  }

  lemma ReportedAtFunction(client: ContractSpec, contract: ContractSpec, n: Name, x: Break)
    requires n in client.functions && n in contract.functions
    requires ArgumentReported(client, contract, n, x) || ReturnReported(client, contract, n, x)
    ensures x.fn == n
  {
    hide IsFound, ArgumentVisit, ReturnVisit;
    if |client.functions[n].inputs| == |contract.functions[n].inputs| && ArgumentReported(client, contract, n, x) {
      var i :| 0 <= i < |client.functions[n].inputs| && IsFound(Flow(client, contract, n), ArgumentVisit(client, contract, n, i), x);
      FoundAtFunction(Flow(client, contract, n), ArgumentVisit(client, contract, n, i), x);
    } else if |client.functions[n].outputs| == |contract.functions[n].outputs| && ReturnReported(client, contract, n, x) {
      var j :| 0 <= j < |client.functions[n].outputs| && IsFound(Flow(contract, client, n), ReturnVisit(client, contract, n, j), x);
      FoundAtFunction(Flow(contract, client, n), ReturnVisit(client, contract, n, j), x);
    }
  }

  /** One function's breaks are what is reported of it. */
  lemma FunctionReport(client: ContractSpec, contract: ContractSpec, n: Name, x: Break)
    requires n in client.functions
    ensures x in FunctionBreaks(client, contract, n) <==> x.fn == n && Reported(client, contract, x)
  {
    hide ArgumentBreaks, ReturnBreaks, ArgumentReported, ReturnReported;
    if n in contract.functions {
      ArgumentsAreExact(client, contract, n, x);
      ReturnsAreExact(client, contract, n, x);
      if x in FunctionBreaks(client, contract, n) {
        ReportedAtFunction(client, contract, n, x);
      }
    }
  }

  lemma ReportedIsKnown(client: ContractSpec, contract: ContractSpec, x: Break)
    requires Reported(client, contract, x)
    ensures x.fn in client.functions
  {
  }

  lemma BreakOfFunction(client: ContractSpec, contract: ContractSpec, x: Break)
    ensures x in BagUnion(client.functions.Keys, BreaksOf(client, contract)) <==> Reported(client, contract, x)
  {
    var names, found := client.functions.Keys, BreaksOf(client, contract);
    hide Reported, FunctionBreaks;
    if x in BagUnion(names, found) {
      var n := BagUnionMember(names, found, x);
      FunctionReport(client, contract, n, x);
    }
    if Reported(client, contract, x) {
      ReportedIsKnown(client, contract, x);
      FunctionReport(client, contract, x.fn, x);
      BagUnionRemove(names, found, x.fn);
    }
  }

  // ------------------------------------------------------------------
  // Which positions the report speaks of
  // ------------------------------------------------------------------

  /** Some break of this function stands under this place. */
  ghost predicate BreaksUnder(breaks: seq<Break>, n: Name, place: string) {
    exists x :: x in breaks && x.fn == n && place <= x.path
  }

  /** The numbers of arguments and results differ iff there is a break of its
      own for it; a missing function has the one break for that. */
  ghost predicate ArityIsTold(client: ContractSpec, contract: ContractSpec, breaks: seq<Break>, n: Name)
    requires n in client.functions
  {
    if n !in contract.functions then forall x :: x in breaks && x.fn == n <==> x == Break(n, "function." + n, FunctionNotExported)
    else
      var f, g := client.functions[n], contract.functions[n];
      && (|f.inputs| != |g.inputs| ==> Break(n, "function." + n + ".arguments", ArgumentCount(|f.inputs|, |g.inputs|)) in breaks)
      && (|f.outputs| != |g.outputs| ==> Break(n, "function." + n + ".return", ReturnCount(|g.outputs|, |f.outputs|)) in breaks)
  }

  /** With as many on both sides, a position has a break under it exactly when
      its types are not compatible: arguments from client to contract, results
      back. */
  ghost predicate TypesAreTold(client: ContractSpec, contract: ContractSpec, breaks: seq<Break>, n: Name)
    requires n in client.functions && n in contract.functions
  {
    var f, g := client.functions[n], contract.functions[n];
    && (|f.inputs| == |g.inputs| ==> forall i :: 0 <= i < |f.inputs| ==>
          (BreaksUnder(breaks, n, "function." + n + ".argument[" + Decimal(i) + "]")
           <==> !Compatible(Flow(client, contract, n), f.inputs[i].ty, g.inputs[i].ty)))
    && (|f.outputs| == |g.outputs| ==> forall j :: 0 <= j < |f.outputs| ==>
          (BreaksUnder(breaks, n, "function." + n + ".return[" + Decimal(j) + "]")
           <==> !Compatible(Flow(contract, client, n), g.outputs[j], f.outputs[j])))
  }

  ghost predicate PositionsAreTold(client: ContractSpec, contract: ContractSpec, breaks: seq<Break>) {
    forall n :: n in client.functions ==>
      ArityIsTold(client, contract, breaks, n) && (n in contract.functions ==> TypesAreTold(client, contract, breaks, n))
  }

  ghost predicate HasAPlace(client: ContractSpec, contract: ContractSpec, x: Break) {
    x.fn in client.functions &&
    if x.fn !in contract.functions then x.path == "function." + x.fn
    else
      var f, g := client.functions[x.fn], contract.functions[x.fn];
      || (|f.inputs| != |g.inputs| && x.path == "function." + x.fn + ".arguments")
      || (|f.outputs| != |g.outputs| && x.path == "function." + x.fn + ".return")
      || (|f.inputs| == |g.inputs| && exists i :: 0 <= i < |f.inputs| && "function." + x.fn + ".argument[" + Decimal(i) + "]" <= x.path)
      || (|f.outputs| == |g.outputs| && exists j :: 0 <= j < |f.outputs| && "function." + x.fn + ".return[" + Decimal(j) + "]" <= x.path)
  }

  ghost predicate EveryBreakHasAPlace(client: ContractSpec, contract: ContractSpec, breaks: seq<Break>) {
    forall x :: x in breaks ==> HasAPlace(client, contract, x)
  }

  lemma FoundIffIncompatible(fl: Flow, v: Visit)
    requires v.seen == {}
    ensures (exists x :: IsFound(fl, v, x)) <==> !Compatible(fl, v.t, v.u)
  {
    var breaks := TypeBreaks(fl, v.t, v.u, v.path, {});
    CycleCutIsExact(fl, v.t, v.u, v.path);
    forall x ensures IsFound(fl, v, x) <==> x in breaks {
      WalkIsExact(fl, v, x);
    }
    hide IsFound, TypeBreaks, Compatible;
    if breaks != [] {
      assert breaks[0] in breaks;
    }
  }

  /** Places of one kind are told apart by their number. */
  lemma PlacesDiffer(front: string, i: nat, j: nat, path: string)
    requires front + Decimal(i) + "]" <= path && front + Decimal(j) + "]" <= path
    ensures i == j
  {
    var a, b := front + Decimal(i) + "]", front + Decimal(j) + "]";
    var r, s := path[|a|..], path[|b|..];
    assert a + r == path == b + s;
    Assoc3(front, Decimal(i), "]", r);
    Assoc3(front, Decimal(j), "]", s);
    DropPrefix(front, Decimal(i) + ("]" + r), Decimal(j) + ("]" + s));
    DecimalPrefix(i, j, "]" + r, "]" + s);
  }

  /** An argument's place is never a result's. */
  lemma KindsDiffer(front: string, a: string, b: string, path: string)
    ensures !(front + ".argument" + a <= path) || !(front + ".return" + b <= path)
  {
    var k := |front| + 1;
    assert (front + ".argument" + a)[k] == ".argument"[1];
    assert (front + ".return" + b)[k] == ".return"[1];
  }

  lemma PartPlace(front: string, part: string, i: nat)
    ensures front + (part + "[") + Decimal(i) + "]" == front + part + ("[" + Decimal(i) + "]")
  {
    Assoc(front, part, "[");
    Assoc3(front + part, "[", Decimal(i), "]");
    Assoc("[", Decimal(i), "]");
  }

  lemma ArgumentPlace(front: string, i: nat)
    ensures front + ".argument[" + Decimal(i) + "]" == front + ".argument" + ("[" + Decimal(i) + "]")
  {
    assert ".argument[" == ".argument" + "[";
    PartPlace(front, ".argument", i);
  }

  lemma ReturnPlace(front: string, j: nat)
    ensures front + ".return[" + Decimal(j) + "]" == front + ".return" + ("[" + Decimal(j) + "]")
  {
    assert ".return[" == ".return" + "[";
    PartPlace(front, ".return", j);
  }

  lemma NotAResult(client: ContractSpec, contract: ContractSpec, n: Name, i: nat, x: Break)
    requires n in client.functions && n in contract.functions
    requires i < |client.functions[n].inputs| && i < |contract.functions[n].inputs|
    requires ArgumentVisit(client, contract, n, i).path <= x.path
    ensures !ReturnReported(client, contract, n, x)
  {
    var front := "function." + n;
    var b := |client.functions[n].outputs|;
    ArgumentPlace(front, i);
    KindsDiffer(front, "[" + Decimal(i) + "]", "", x.path);
    assert front + ".return" + "" == front + ".return";
    if b == |contract.functions[n].outputs| && ReturnReported(client, contract, n, x) {
      var j :| 0 <= j < b && IsFound(Flow(contract, client, n), ReturnVisit(client, contract, n, j), x);
      ReturnPlace(front, j);
      FoundAtFunction(Flow(contract, client, n), ReturnVisit(client, contract, n, j), x);
    }
  }

  lemma ArgumentTold(client: ContractSpec, contract: ContractSpec, breaks: seq<Break>, n: Name, i: nat)
    requires forall x :: x in breaks <==> Reported(client, contract, x)
    requires n in client.functions && n in contract.functions
    requires |client.functions[n].inputs| == |contract.functions[n].inputs| && i < |client.functions[n].inputs|
    ensures BreaksUnder(breaks, n, ArgumentVisit(client, contract, n, i).path)
       <==> !Compatible(Flow(client, contract, n), client.functions[n].inputs[i].ty, contract.functions[n].inputs[i].ty)
  {
    var fl, v := Flow(client, contract, n), ArgumentVisit(client, contract, n, i);
    FoundIffIncompatible(fl, v);
    hide IsFound, Compatible;
    if x :| x in breaks && x.fn == n && v.path <= x.path {
      NotAResult(client, contract, n, i, x);
      var j :| 0 <= j < |client.functions[n].inputs| && IsFound(fl, ArgumentVisit(client, contract, n, j), x);
      FoundAtFunction(fl, ArgumentVisit(client, contract, n, j), x);
      PlacesDiffer("function." + n + ".argument[", i, j, x.path);
    }
    if x :| IsFound(fl, v, x) {
      FoundAtFunction(fl, v, x);
      assert Reported(client, contract, x);
    }
  }

  lemma NotAnArgument(client: ContractSpec, contract: ContractSpec, n: Name, j: nat, x: Break)
    requires n in client.functions && n in contract.functions
    requires j < |client.functions[n].outputs| && j < |contract.functions[n].outputs|
    requires ReturnVisit(client, contract, n, j).path <= x.path
    ensures !ArgumentReported(client, contract, n, x)
  {
    var front := "function." + n;
    var a := |client.functions[n].inputs|;
    ReturnPlace(front, j);
    KindsDiffer(front, "s", "[" + Decimal(j) + "]", x.path);
    assert ".argument" + "s" == ".arguments";
    Assoc(front, ".argument", "s");
    if a == |contract.functions[n].inputs| && ArgumentReported(client, contract, n, x) {
      var i :| 0 <= i < a && IsFound(Flow(client, contract, n), ArgumentVisit(client, contract, n, i), x);
      ArgumentPlace(front, i);
      KindsDiffer(front, "[" + Decimal(i) + "]", "[" + Decimal(j) + "]", x.path);
      FoundAtFunction(Flow(client, contract, n), ArgumentVisit(client, contract, n, i), x);
    }
  }

  lemma ReturnTold(client: ContractSpec, contract: ContractSpec, breaks: seq<Break>, n: Name, j: nat)
    requires forall x :: x in breaks <==> Reported(client, contract, x)
    requires n in client.functions && n in contract.functions
    requires |client.functions[n].outputs| == |contract.functions[n].outputs| && j < |client.functions[n].outputs|
    ensures BreaksUnder(breaks, n, ReturnVisit(client, contract, n, j).path)
       <==> !Compatible(Flow(contract, client, n), contract.functions[n].outputs[j], client.functions[n].outputs[j])
  {
    var fl, v := Flow(contract, client, n), ReturnVisit(client, contract, n, j);
    FoundIffIncompatible(fl, v);
    hide IsFound, Compatible;
    if x :| x in breaks && x.fn == n && v.path <= x.path {
      NotAnArgument(client, contract, n, j, x);
      var i :| 0 <= i < |client.functions[n].outputs| && IsFound(fl, ReturnVisit(client, contract, n, i), x);
      FoundAtFunction(fl, ReturnVisit(client, contract, n, i), x);
      PlacesDiffer("function." + n + ".return[", i, j, x.path);
    }
    if x :| IsFound(fl, v, x) {
      FoundAtFunction(fl, v, x);
      assert Reported(client, contract, x);
    }
  }

  lemma ArityTold(client: ContractSpec, contract: ContractSpec, breaks: seq<Break>, n: Name)
    requires forall x :: x in breaks <==> Reported(client, contract, x)
    requires n in client.functions
    ensures ArityIsTold(client, contract, breaks, n)
  {
    hide IsFound;
    if n in contract.functions {
      var f, g := client.functions[n], contract.functions[n];
      if |f.inputs| != |g.inputs| {
        assert Reported(client, contract, Break(n, "function." + n + ".arguments", ArgumentCount(|f.inputs|, |g.inputs|)));
      }
      if |f.outputs| != |g.outputs| {
        assert Reported(client, contract, Break(n, "function." + n + ".return", ReturnCount(|g.outputs|, |f.outputs|)));
      }
    }
  }

  lemma PlaceOf(client: ContractSpec, contract: ContractSpec, x: Break)
    requires Reported(client, contract, x)
    ensures HasAPlace(client, contract, x)
  {
    hide IsFound;
    var n := x.fn;
    if n in contract.functions {
      if |client.functions[n].inputs| == |contract.functions[n].inputs| && ArgumentReported(client, contract, n, x) {
        var i :| 0 <= i < |client.functions[n].inputs| && IsFound(Flow(client, contract, n), ArgumentVisit(client, contract, n, i), x);
        FoundAtFunction(Flow(client, contract, n), ArgumentVisit(client, contract, n, i), x);
      } else if |client.functions[n].outputs| == |contract.functions[n].outputs| && ReturnReported(client, contract, n, x) {
        var j :| 0 <= j < |client.functions[n].outputs| && IsFound(Flow(contract, client, n), ReturnVisit(client, contract, n, j), x);
        FoundAtFunction(Flow(contract, client, n), ReturnVisit(client, contract, n, j), x);
      }
    }
  }

  lemma TypesTold(client: ContractSpec, contract: ContractSpec, breaks: seq<Break>, n: Name)
    requires forall x :: x in breaks <==> Reported(client, contract, x)
    requires n in client.functions && n in contract.functions
    ensures TypesAreTold(client, contract, breaks, n)
  {
    var f, g := client.functions[n], contract.functions[n];
    hide Compatible, BreaksUnder, Reported;
    if |f.inputs| == |g.inputs| {
      forall i | 0 <= i < |f.inputs|
        ensures BreaksUnder(breaks, n, "function." + n + ".argument[" + Decimal(i) + "]")
           <==> !Compatible(Flow(client, contract, n), f.inputs[i].ty, g.inputs[i].ty)
      {
        ArgumentTold(client, contract, breaks, n, i);
      }
    }
    if |f.outputs| == |g.outputs| {
      forall j | 0 <= j < |f.outputs|
        ensures BreaksUnder(breaks, n, "function." + n + ".return[" + Decimal(j) + "]")
           <==> !Compatible(Flow(contract, client, n), g.outputs[j], f.outputs[j])
      {
        ReturnTold(client, contract, breaks, n, j);
      }
    }
  }

  /** Every position with incompatible types is told of, and nothing else is. */
  lemma ReportTells(client: ContractSpec, contract: ContractSpec, breaks: seq<Break>)
    requires forall x :: x in breaks <==> Reported(client, contract, x)
    ensures PositionsAreTold(client, contract, breaks) && EveryBreakHasAPlace(client, contract, breaks)
  {
    hide Reported, ArityIsTold, TypesAreTold, HasAPlace;
    forall n | n in client.functions
      ensures ArityIsTold(client, contract, breaks, n)
      ensures n in contract.functions ==> TypesAreTold(client, contract, breaks, n)
    {
      ArityTold(client, contract, breaks, n);
      if n in contract.functions {
        TypesTold(client, contract, breaks, n);
      }
    }
    forall x | x in breaks ensures HasAPlace(client, contract, x) {
      PlaceOf(client, contract, x);
    }
  }

  lemma StepIsFound(fl: Flow, v: Visit, w: Visit, x: Break)
    requires Leads(fl, v, w) && IsFound(fl, w, x)
    ensures IsFound(fl, v, x)
  {
    hide Leads, Mismatch;
    var n: nat :| Found(fl, w, x, n);
    assert Found(fl, w, x, n + 1 - 1);
    assert Found(fl, v, x, n + 1);
  }

  /** The same below any pair of types: where a step of a route meets types that
      are not compatible given the pairs in progress, there is a break under it.
      So no field, case, key, value or element is passed over. */
  lemma NoPartIsPassedOver(fl: Flow, v: Visit, w: Visit)
    requires Leads(fl, v, w) && !CompatibleGiven(fl, w.t, w.u, w.seen)
    ensures exists x :: x in TypeBreaks(fl, v.t, v.u, v.path, v.seen) && w.path <= x.path
  {
    hide Leads, CompatibleGiven, TypeBreaks, Found;
    CutIsExact(fl, w.t, w.u, w.path, w.seen);
    var x := TypeBreaks(fl, w.t, w.u, w.path, w.seen)[0];
    WalkIsExact(fl, w, x);
    FoundAtFunction(fl, w, x);
    StepIsFound(fl, v, w, x);
    WalkIsExact(fl, v, x);
  }

  // ------------------------------------------------------------------
  // The report
  // ------------------------------------------------------------------

  /** Breaks are sorted by function, path, then the text of the reason.  That
      text is not modelled; only that texts are totally ordered. */
  function BreakLeq(reasonLeq: (Reason, Reason) -> bool): (Break, Break) -> bool {
    (x: Break, y: Break) =>
      if x.fn != y.fn then LexLeq(x.fn, y.fn)
      else if x.path != y.path then LexLeq(x.path, y.path)
      else reasonLeq(x.reason, y.reason)
  }

  lemma BreakTransitive(x: Break, y: Break, z: Break, reasonLeq: (Reason, Reason) -> bool)
    requires TotalOrder(reasonLeq)
    requires BreakLeq(reasonLeq)(x, y) && BreakLeq(reasonLeq)(y, z)
    ensures BreakLeq(reasonLeq)(x, z)
  {
    if x.fn != z.fn && x.fn != y.fn && y.fn != z.fn {
      LexTransitive(x.fn, y.fn, z.fn);
    } else if x.fn == z.fn != y.fn {
      LexTotal(x.fn, y.fn);
    } else if x.path == z.path != y.path {
      LexTotal(x.path, y.path);
    } else if x.path != z.path && x.path != y.path && y.path != z.path && x.fn == y.fn == z.fn {
      LexTransitive(x.path, y.path, z.path);
    }
  }

  lemma BreakOrder(reasonLeq: (Reason, Reason) -> bool)
    requires TotalOrder(reasonLeq)
    ensures TotalOrder(BreakLeq(reasonLeq))
  {
    var leq := BreakLeq(reasonLeq);
    forall x, y
      ensures leq(x, y) || leq(y, x)
      ensures leq(x, y) && leq(y, x) ==> x == y
    {
      LexTotal(x.fn, y.fn);
      LexTotal(x.path, y.path);
    }
    forall x, y, z | leq(x, y) && leq(y, z) ensures leq(x, z) {
      BreakTransitive(x, y, z, reasonLeq);
    }
  }

  /** Function names in byte order, paths in byte order within a function, and
      reasons by their text within a path. */
  ghost predicate InReportOrder(breaks: seq<Break>, reasonLeq: (Reason, Reason) -> bool) {
    forall i, j :: 0 <= i < j < |breaks| ==>
      || Precedes(breaks[i].fn, breaks[j].fn)
      || (breaks[i].fn == breaks[j].fn && Precedes(breaks[i].path, breaks[j].path))
      || (breaks[i].fn == breaks[j].fn && breaks[i].path == breaks[j].path && reasonLeq(breaks[i].reason, breaks[j].reason))
  }

  lemma OrderIsSpelled(breaks: seq<Break>, reasonLeq: (Reason, Reason) -> bool)
    requires Sorted(breaks, BreakLeq(reasonLeq))
    ensures InReportOrder(breaks, reasonLeq)
  {
    forall i, j | 0 <= i < j < |breaks|
      ensures
        || Precedes(breaks[i].fn, breaks[j].fn)
        || (breaks[i].fn == breaks[j].fn && Precedes(breaks[i].path, breaks[j].path))
        || (breaks[i].fn == breaks[j].fn && breaks[i].path == breaks[j].path && reasonLeq(breaks[i].reason, breaks[j].reason))
    {
      assert BreakLeq(reasonLeq)(breaks[i], breaks[j]);
      LexIsExact(breaks[i].fn, breaks[j].fn);
      LexIsExact(breaks[i].path, breaks[j].path);
    }
  }

  method CompareFunction(client: ContractSpec, contract: ContractSpec, name: Name, walk: Walk)
    requires name in client.functions && walk.visiting == {}
    modifies walk
    ensures walk.visiting == {}
    ensures walk.breaks == old(walk.breaks) + FunctionBreaks(client, contract, name)
    ensures forall x :: x in walk.breaks <==> x in old(walk.breaks) || (x.fn == name && Reported(client, contract, x))
  {
    forall x ensures x in FunctionBreaks(client, contract, name) <==> x.fn == name && Reported(client, contract, x) {
      FunctionReport(client, contract, name, x);
    }
    hide Reported;
    if name !in contract.functions {
      walk.Push(Flow(client, contract, name), "function." + name, FunctionNotExported);
      return;
    }
    var f, g := client.functions[name], contract.functions[name];
    var path := "function." + name;
    if |f.inputs| != |g.inputs| {
      walk.Push(Flow(client, contract, name), path + ".arguments", ArgumentCount(|f.inputs|, |g.inputs|));
    } else {
      walk.CheckEach(Flow(client, contract, name), FieldTypeList(f.inputs), FieldTypeList(g.inputs), path + ".argument");
    }
    if |f.outputs| != |g.outputs| {
      walk.Push(Flow(client, contract, name), path + ".return", ReturnCount(|g.outputs|, |f.outputs|));
    } else {
      walk.CheckEach(Flow(contract, client, name), g.outputs, f.outputs, path + ".return");
    }
    Assoc(old(walk.breaks), ArgumentBreaks(client, contract, name), ReturnBreaks(client, contract, name));
  }

  /** The verdict: every function's breaks, in report order.  The functions
      come in whatever order the map yields; the sorted report is the same
      for all of them (`VerdictIsDetermined`). */
  method CompareDirection(client: ContractSpec, contract: ContractSpec, reasonLeq: (Reason, Reason) -> bool)
    returns (breaks: seq<Break>)
    requires TotalOrder(reasonLeq)
    ensures Sorted(breaks, BreakLeq(reasonLeq))
    ensures InReportOrder(breaks, reasonLeq)
    ensures forall x :: x in breaks <==> Reported(client, contract, x)
    ensures PositionsAreTold(client, contract, breaks) && EveryBreakHasAPlace(client, contract, breaks)
    ensures breaks == [] <==> CleanDirection(client, contract)
    ensures multiset(breaks) == BagUnion(client.functions.Keys, BreaksOf(client, contract))
  {
    var walk := new Walk();
    var rest := client.functions.Keys;
    ghost var found := BreaksOf(client, contract);
    ghost var all := BagUnion(client.functions.Keys, found);
    while rest != {}
      invariant fresh(walk) && walk.visiting == {}
      invariant rest <= client.functions.Keys
      invariant multiset(walk.breaks) + BagUnion(rest, found) == all
      decreases rest
    {
      var name :| name in rest;
      ghost var before := walk.breaks;
      CompareFunction(client, contract, name, walk);
      BagUnionStep(before, FunctionBreaks(client, contract, name), rest, found, name);
      rest := rest - {name};
    }
    BreakOrder(reasonLeq);
    SortSorted(walk.breaks, BreakLeq(reasonLeq));
    breaks := Sort(walk.breaks, BreakLeq(reasonLeq));
    CleanIffNoBreaks(client, contract, breaks);
    OrderIsSpelled(breaks, reasonLeq);
    forall x ensures x in breaks <==> Reported(client, contract, x) {
      BreakOfFunction(client, contract, x);
      assert x in breaks <==> x in multiset(breaks);
    }
    ReportTells(client, contract, breaks);
  }

  lemma VerdictIsDetermined(client: ContractSpec, contract: ContractSpec, reasonLeq: (Reason, Reason) -> bool, a: seq<Break>, b: seq<Break>)
    requires TotalOrder(reasonLeq)
    requires Sorted(a, BreakLeq(reasonLeq)) && multiset(a) == BagUnion(client.functions.Keys, BreaksOf(client, contract))
    requires Sorted(b, BreakLeq(reasonLeq)) && multiset(b) == BagUnion(client.functions.Keys, BreaksOf(client, contract))
    ensures a == b
  {
    BreakOrder(reasonLeq);
    SortedUnique(a, b, BreakLeq(reasonLeq));
  }
}
