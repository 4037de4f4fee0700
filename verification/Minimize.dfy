/** Delta reduction of a failing input: shrink it step by step while it keeps
    failing in the same way.  The analysis under test is the oracle. */
module Minimize {
  import opened Prelude

  type Bytes = string

  datatype FailureClass =
    | Accepted
    | ParseError(discriminant: string)
    | LimitExceeded(discriminant: string)
    | Panic(summary: string)

  datatype Strategy = TrimTail | TrimHead | BisectHead | BisectTail

  datatype Step = Step(strategy: Strategy, candidateLen: nat, accepted: bool)

  datatype Minimized = Minimized(kind: FailureClass, attempted: nat, acceptedSteps: nat, history: seq<Step>, bytes: Bytes)

  /** What a strategy makes of an input long enough for it. */
  function Reduce(s: Strategy, input: Bytes): Bytes
    requires |input| >= 1
  {
    match s
    case TrimTail => input[..|input| - 1]
    case TrimHead => input[1..]
    case BisectHead => input[..|input| / 2]
    case BisectTail => input[|input| / 2..]
  }

  function Strategies(input: Bytes): seq<Strategy> {
    if |input| > 2 then [TrimTail, TrimHead, BisectHead, BisectTail]
    else if |input| > 1 then [TrimTail, TrimHead]
    else []
  }

  method ReductionCandidates(input: Bytes) returns (out: seq<(Strategy, Bytes)>)
    ensures out ==
      var n := |input|;
      if n > 2 then [(TrimTail, input[..n - 1]), (TrimHead, input[1..]), (BisectHead, input[..n / 2]), (BisectTail, input[n / 2..])]
      else if n == 2 then [(TrimTail, input[..1]), (TrimHead, input[1..])]
      else []
    ensures |out| == |Strategies(input)|
    ensures forall i :: 0 <= i < |out| ==>
      out[i].0 == Strategies(input)[i] && out[i].1 == Reduce(out[i].0, input) && 0 < |out[i].1| < |input|
  {
    out := [];
    if |input| > 1 { out := out + [(TrimTail, input[..|input| - 1])]; }
    if |input| > 1 { out := out + [(TrimHead, input[1..])]; }
    if |input| > 2 { out := out + [(BisectHead, input[..|input| / 2])]; }
    if |input| > 2 { out := out + [(BisectTail, input[|input| / 2..])]; }
  }

  ghost predicate IsSlice(t: Bytes, s: Bytes) {
    exists i, j :: 0 <= i <= j <= |s| && t == s[i..j]
  }

  lemma SubSlice(s: Bytes, i: nat, j: nat, a: nat, b: nat)
    requires i <= j <= |s| && a <= b <= j - i
    ensures s[i..j][a..b] == s[i + a..i + b]
    ensures b == j - i ==> s[i..j][a..b] == s[i..j][a..]
    ensures a == 0 ==> s[i..j][a..b] == s[i..j][..b]
  {
    var x, y := s[i..j][a..b], s[i + a..i + b];
    forall k | 0 <= k < b - a ensures x[k] == y[k] {
      assert x[k] == s[i..j][a + k] == s[i + a + k] == y[k];
    }
  }

  lemma SliceOfSlice(t: Bytes, s: Bytes, r: Strategy)
    requires IsSlice(t, s) && |t| >= 1
    ensures IsSlice(Reduce(r, t), s)
  {
    var i, j :| 0 <= i <= j <= |s| && t == s[i..j];
    match r
    case TrimTail => SubSlice(s, i, j, 0, |t| - 1);
    case TrimHead => SubSlice(s, i, j, 1, |t|);
    case BisectHead => SubSlice(s, i, j, 0, |t| / 2);
    case BisectTail => SubSlice(s, i, j, |t| / 2, |t|);
  }

  /** The lengths of the accepted steps, oldest first. */
  function AcceptedLengths(history: seq<Step>): seq<nat> {
    if history == [] then []
    else
      var last := history[|history| - 1];
      AcceptedLengths(history[..|history| - 1]) + if last.accepted then [last.candidateLen] else []
  }

  ghost predicate Falls(lengths: seq<nat>, from: nat) {
    && (forall i :: 0 <= i < |lengths| ==> lengths[i] < from)
    && forall i, j :: 0 <= i < j < |lengths| ==> lengths[i] > lengths[j]
  }

  /** No reduction of the bytes still fails in this class. */
  ghost predicate LocalMinimum(oracle: Bytes -> FailureClass, bytes: Bytes, kind: FailureClass) {
    forall s :: s in Strategies(bytes) ==> oracle(Reduce(s, bytes)) != kind
  }

  /** In plain terms: no head trim, no tail trim and neither half. */
  lemma LocalMinimumMeans(oracle: Bytes -> FailureClass, bytes: Bytes, kind: FailureClass)
    ensures LocalMinimum(oracle, bytes, kind) <==>
      (|bytes| > 1 ==>
        && oracle(bytes[1..]) != kind && oracle(bytes[..|bytes| - 1]) != kind
        && oracle(bytes[..|bytes| / 2]) != kind && oracle(bytes[|bytes| / 2..]) != kind)
  {
    if |bytes| > 1 {
      assert TrimHead in Strategies(bytes) && TrimTail in Strategies(bytes);
      assert Reduce(TrimHead, bytes) == bytes[1..] && Reduce(TrimTail, bytes) == bytes[..|bytes| - 1];
      if |bytes| == 2 {
        assert bytes[..1] == bytes[..|bytes| / 2] && bytes[1..] == bytes[|bytes| / 2..];
      } else {
        assert BisectHead in Strategies(bytes) && BisectTail in Strategies(bytes);
        assert Reduce(BisectHead, bytes) == bytes[..|bytes| / 2] && Reduce(BisectTail, bytes) == bytes[|bytes| / 2..];
      }
    }
  }

  // ------------------------------------------------------------------
  // One pass
  // ------------------------------------------------------------------

  /** The first candidate from the i-th on that keeps the class; the number of
      candidates if none does. */
  function FirstKeeping(best: Bytes, kind: FailureClass, oracle: Bytes -> FailureClass, i: nat): (k: nat)
    requires i <= |Strategies(best)|
    ensures i <= k <= |Strategies(best)|
    ensures k < |Strategies(best)| ==> oracle(Reduce(Strategies(best)[k], best)) == kind
    ensures forall j :: i <= j < k ==> oracle(Reduce(Strategies(best)[j], best)) != kind
    decreases |Strategies(best)| - i
  {
    if i == |Strategies(best)| || oracle(Reduce(Strategies(best)[i], best)) == kind then i
    else FirstKeeping(best, kind, oracle, i + 1)
  }

  function StepAt(best: Bytes, i: nat, accepted: bool): Step
    requires i < |Strategies(best)|
  {
    Step(Strategies(best)[i], |Reduce(Strategies(best)[i], best)|, accepted)
  }

  /** The first n candidates, all turned down. */
  function Rejections(best: Bytes, n: nat): seq<Step>
    requires n <= |Strategies(best)|
  {
    seq(n, i requires 0 <= i < n => StepAt(best, i, false))
  }

  /** What a pass adds to the history when candidate k is the first to keep the
      class: everything tried, or only what was accepted. */
  function Recorded(best: Bytes, k: nat, verbose: bool): seq<Step>
    requires k <= |Strategies(best)|
  {
    (if verbose then Rejections(best, k) else []) + (if k < |Strategies(best)| then [StepAt(best, k, true)] else [])
  }

  lemma NoRejections(best: Bytes)
    ensures Rejections(best, 0) == []
  {
  }

  lemma RejectOne(best: Bytes, i: nat)
    requires i < |Strategies(best)|
    ensures Rejections(best, i + 1) == Rejections(best, i) + [StepAt(best, i, false)]
  {
  }

  lemma FirstKeepingFrom(best: Bytes, kind: FailureClass, oracle: Bytes -> FailureClass, i: nat)
    requires i < |Strategies(best)|
    ensures FirstKeeping(best, kind, oracle, i)
         == if oracle(Reduce(Strategies(best)[i], best)) == kind then i else FirstKeeping(best, kind, oracle, i + 1)
  {
  }

  /** Which candidate a pass ends with, and how many it tried: without the last
      byte, without the first, the first half, the second half. */
  ghost predicate TriedInOrder(best: Bytes, kind: FailureClass, oracle: Bytes -> FailureClass, found: Option<Bytes>, tried: nat) {
    var n := |best|;
    if n <= 1 then found == None && tried == 0
    else if oracle(best[..n - 1]) == kind then found == Some(best[..n - 1]) && tried == 1
    else if oracle(best[1..]) == kind then found == Some(best[1..]) && tried == 2
    else if n == 2 then found == None && tried == 2
    else if oracle(best[..n / 2]) == kind then found == Some(best[..n / 2]) && tried == 3
    else found == (if oracle(best[n / 2..]) == kind then Some(best[n / 2..]) else None) && tried == 4
  }

  lemma TriedIsInOrder(best: Bytes, kind: FailureClass, oracle: Bytes -> FailureClass)
    ensures
      var k := FirstKeeping(best, kind, oracle, 0);
      TriedInOrder(best, kind, oracle,
        if k < |Strategies(best)| then Some(Reduce(Strategies(best)[k], best)) else None,
        if k < |Strategies(best)| then k + 1 else k)
  {
    var ss := Strategies(best);
    if |ss| > 0 { FirstKeepingFrom(best, kind, oracle, 0); }
    if |ss| > 1 { FirstKeepingFrom(best, kind, oracle, 1); }
    if |ss| > 2 { FirstKeepingFrom(best, kind, oracle, 2); }
    if |ss| > 3 { FirstKeepingFrom(best, kind, oracle, 3); }
  }

  method TryCandidates(best: Bytes, kind: FailureClass, oracle: Bytes -> FailureClass, verbose: bool)
    returns (found: Option<Bytes>, tried: nat, more: seq<Step>)
    ensures
      var k := FirstKeeping(best, kind, oracle, 0);
      && found == (if k < |Strategies(best)| then Some(Reduce(Strategies(best)[k], best)) else None)
      && tried == (if k < |Strategies(best)| then k + 1 else k)
      && more == Recorded(best, k, verbose)
    ensures TriedInOrder(best, kind, oracle, found, tried)
  {
    TriedIsInOrder(best, kind, oracle);
    hide TriedInOrder, Reduce, Strategies, FirstKeeping, Rejections;
    var candidates := ReductionCandidates(best);
    assert Rejections(best, 0) == [] by { NoRejections(best); }
    more := [];
    tried := 0;
    found := None;
    while tried < |candidates|
      invariant tried <= |candidates|
      invariant FirstKeeping(best, kind, oracle, 0) == FirstKeeping(best, kind, oracle, tried)
      invariant more == if verbose then Rejections(best, tried) else []
    {
      var (strategy, candidate) := candidates[tried];
      var accepted := oracle(candidate) == kind;
      FirstKeepingFrom(best, kind, oracle, tried);
      RejectOne(best, tried);
      tried := tried + 1;
      if verbose {
        more := more + [Step(strategy, |candidate|, accepted)];
      }
      if accepted {
        if !verbose {
          more := more + [Step(strategy, |candidate|, true)];
        }
        found := Some(candidate);
        return;
      }
    }
  }

  lemma NoneKeepsIsMinimum(best: Bytes, kind: FailureClass, oracle: Bytes -> FailureClass)
    requires FirstKeeping(best, kind, oracle, 0) == |Strategies(best)|
    ensures LocalMinimum(oracle, best, kind)
  {
  }

  // ------------------------------------------------------------------
  // All passes
  // ------------------------------------------------------------------

  datatype State = State(best: Bytes, attempted: nat, accepted: nat, history: seq<Step>, done: bool)

  ghost function Pass(s: State, kind: FailureClass, oracle: Bytes -> FailureClass, verbose: bool): State {
    var k := FirstKeeping(s.best, kind, oracle, 0);
    var history := s.history + Recorded(s.best, k, verbose);
    if k < |Strategies(s.best)|
    then State(Reduce(Strategies(s.best)[k], s.best), s.attempted + k + 1, s.accepted + 1, history, false)
    else State(s.best, s.attempted + k, s.accepted, history, true)
  }

  /** Where n passes lead; once one finds nothing, no more are made. */
  ghost function After(input: Bytes, kind: FailureClass, oracle: Bytes -> FailureClass, verbose: bool, n: nat): State {
    if n == 0 then State(input, 0, 0, [], false)
    else
      var s := After(input, kind, oracle, verbose, n - 1);
      if s.done then s else Pass(s, kind, oracle, verbose)
  }

  lemma {:induction false} DoneStays(input: Bytes, kind: FailureClass, oracle: Bytes -> FailureClass, verbose: bool, n: nat, m: nat)
    requires n <= m && After(input, kind, oracle, verbose, n).done
    ensures After(input, kind, oracle, verbose, m) == After(input, kind, oracle, verbose, n)
  {
    if n < m {
      DoneStays(input, kind, oracle, verbose, n, m - 1);
    }
  }

  lemma SamePass(s: State, q: State, kind: FailureClass, oracle: Bytes -> FailureClass)
    requires s.(history := []) == q.(history := [])
    ensures Pass(s, kind, oracle, true).(history := []) == Pass(q, kind, oracle, false).(history := [])
    ensures s.done == q.done
  {
    hide FirstKeeping, Recorded, Strategies, Reduce;
    assert s.best == s.(history := []).best == q.best;
    assert s.attempted == s.(history := []).attempted == q.attempted;
    assert s.accepted == s.(history := []).accepted == q.accepted;
    assert s.done == s.(history := []).done == q.done;
  }

  /** Recording everything changes the history and nothing else. */
  lemma {:induction false} VerbosityOnlyRecords(input: Bytes, kind: FailureClass, oracle: Bytes -> FailureClass, n: nat)
    ensures After(input, kind, oracle, true, n).(history := []) == After(input, kind, oracle, false, n).(history := [])
  {
    hide FirstKeeping, Recorded, Strategies, Reduce;
    if n > 0 {
      var s, q := After(input, kind, oracle, true, n - 1), After(input, kind, oracle, false, n - 1);
      VerbosityOnlyRecords(input, kind, oracle, n - 1);
      SamePass(s, q, kind, oracle);
      hide Pass;
    }
  }

  lemma {:induction false} RejectedAddNothing(before: seq<Step>, more: seq<Step>)
    requires forall i :: 0 <= i < |more| ==> !more[i].accepted
    ensures AcceptedLengths(before + more) == AcceptedLengths(before)
  {
    if more == [] {
      assert before + more == before;
    } else {
      var n := |more| - 1;
      assert (before + more)[..|before + more| - 1] == before + more[..n];
      RejectedAddNothing(before, more[..n]);
    }
  }

  lemma AcceptedAddsLast(before: seq<Step>, more: seq<Step>)
    requires more != [] && forall i :: 0 <= i < |more| ==> (more[i].accepted <==> i == |more| - 1)
    ensures AcceptedLengths(before + more) == AcceptedLengths(before) + [more[|more| - 1].candidateLen]
  {
    var n := |more| - 1;
    assert (before + more)[..|before + more| - 1] == before + more[..n];
    RejectedAddNothing(before, more[..n]);
  }

  lemma {:induction false} RecordedAccepted(history: seq<Step>, best: Bytes, k: nat, verbose: bool)
    requires k <= |Strategies(best)|
    ensures AcceptedLengths(history + Recorded(best, k, verbose))
         == AcceptedLengths(history) + if k < |Strategies(best)| then [|Reduce(Strategies(best)[k], best)|] else []
  {
    var more := Recorded(best, k, verbose);
    hide Strategies, Reduce;
    if k < |Strategies(best)| {
      AcceptedAddsLast(history, more);
    } else {
      RejectedAddNothing(history, more);
    }
  }

  /** Accepted lengths fall from the input's to the current best's. */
  ghost predicate Progress(lengths: seq<nat>, input: nat, best: nat) {
    Falls(lengths, input) && best == (if lengths == [] then input else lengths[|lengths| - 1])
  }

  lemma ProgressStep(lengths: seq<nat>, input: nat, best: nat, next: nat)
    requires Progress(lengths, input, best) && next < best
    ensures Progress(lengths + [next], input, next)
  {
  }

  lemma KeepingReduces(best: Bytes, i: nat)
    requires i < |Strategies(best)|
    ensures |best| > 1 && 0 < |Reduce(Strategies(best)[i], best)| < |best|
  {
  }

  /** What every moment of the reduction keeps. */
  ghost predicate StateOk(input: Bytes, kind: FailureClass, oracle: Bytes -> FailureClass, verbose: bool, n: nat, s: State) {
    && oracle(s.best) == kind && IsSlice(s.best, input)
    && s.accepted == |AcceptedLengths(s.history)| <= n && |s.best| + s.accepted <= |input|
    && Progress(AcceptedLengths(s.history), |input|, |s.best|)
    && |s.history| == (if verbose then s.attempted else s.accepted)
    && (if s.done then LocalMinimum(oracle, s.best, kind) else s.accepted == n)
  }

  lemma StartOk(input: Bytes, kind: FailureClass, oracle: Bytes -> FailureClass, verbose: bool)
    requires oracle(input) == kind
    ensures StateOk(input, kind, oracle, verbose, 0, State(input, 0, 0, [], false))
  {
    assert input == input[0..|input|];
  }

  lemma PassOk(input: Bytes, kind: FailureClass, oracle: Bytes -> FailureClass, verbose: bool, n: nat, s: State)
    requires StateOk(input, kind, oracle, verbose, n, s) && !s.done
    ensures StateOk(input, kind, oracle, verbose, n + 1, Pass(s, kind, oracle, verbose))
  {
    hide IsSlice, LocalMinimum, AcceptedLengths, Progress, Strategies, Reduce;
    var k := FirstKeeping(s.best, kind, oracle, 0);
    RecordedAccepted(s.history, s.best, k, verbose);
    if k < |Strategies(s.best)| {
      var strategy := Strategies(s.best)[k];
      KeepingReduces(s.best, k);
      SliceOfSlice(s.best, input, strategy);
      ProgressStep(AcceptedLengths(s.history), |input|, |s.best|, |Reduce(strategy, s.best)|);
    } else {
      NoneKeepsIsMinimum(s.best, kind, oracle);
      assert AcceptedLengths(s.history) + [] == AcceptedLengths(s.history);
    }
  }

  lemma {:induction false} AfterOk(input: Bytes, kind: FailureClass, oracle: Bytes -> FailureClass, verbose: bool, n: nat)
    requires oracle(input) == kind
    ensures StateOk(input, kind, oracle, verbose, n, After(input, kind, oracle, verbose, n))
  {
    if n == 0 {
      StartOk(input, kind, oracle, verbose);
    } else {
      AfterOk(input, kind, oracle, verbose, n - 1);
      var s := After(input, kind, oracle, verbose, n - 1);
      if !s.done {
        PassOk(input, kind, oracle, verbose, n - 1, s);
      }
    }
  }

  /** The reduced input is a contiguous part of the input that fails in the same
      class; accepted lengths strictly fall to its length; and with at least as
      many iterations as bytes no candidate reduction is left. */
  ghost predicate Reduced(m: Minimized, input: Bytes, oracle: Bytes -> FailureClass, maxIterations: nat, verbose: bool) {
    && m.kind == oracle(input) == oracle(m.bytes) && IsSlice(m.bytes, input)
    && m.acceptedSteps == |AcceptedLengths(m.history)| <= maxIterations
    && Progress(AcceptedLengths(m.history), |input|, |m.bytes|)
    && |m.history| == (if verbose then m.attempted else m.acceptedSteps)
    && (maxIterations >= |input| ==> LocalMinimum(oracle, m.bytes, m.kind))
  }

  lemma ReductionIsSound(input: Bytes, kind: FailureClass, oracle: Bytes -> FailureClass, verbose: bool, n: nat)
    requires oracle(input) == kind
    ensures
      var s := After(input, kind, oracle, verbose, n);
      Reduced(Minimized(kind, s.attempted, s.accepted, s.history, s.best), input, oracle, n, verbose)
  {
    AfterOk(input, kind, oracle, verbose, n);
    var s := After(input, kind, oracle, verbose, n);
    hide After, IsSlice, Progress, AcceptedLengths;
    assert n >= |input| && !s.done ==> |s.best| == 0;
  }

  lemma AfterPass(input: Bytes, kind: FailureClass, oracle: Bytes -> FailureClass, verbose: bool, n: nat)
    requires !After(input, kind, oracle, verbose, n).done
    ensures After(input, kind, oracle, verbose, n + 1) == Pass(After(input, kind, oracle, verbose, n), kind, oracle, verbose)
  {
  }

  /** Nothing to do for accepted inputs; otherwise where the passes lead. */
  method MinimizeInput(input: Bytes, oracle: Bytes -> FailureClass, maxIterations: nat, verbose: bool) returns (r: Option<Minimized>)
    ensures r.None? <==> oracle(input) == Accepted
    ensures r.Some? ==>
      var s := After(input, oracle(input), oracle, verbose, maxIterations);
      && r.value == Minimized(oracle(input), s.attempted, s.accepted, s.history, s.best)
      && Reduced(r.value, input, oracle, maxIterations, verbose)
  {
    hide Reduced, FirstKeeping, Strategies, Reduce, Recorded, TriedInOrder;
    var kind := oracle(input);
    if kind == Accepted { return None; }
    var best, attempted, accepted, history := input, 0, 0, [];
    var done := false;
    for i := 0 to maxIterations
      invariant !done
      invariant After(input, kind, oracle, verbose, i) == State(best, attempted, accepted, history, false)
    {
      hide After;
      AfterPass(input, kind, oracle, verbose, i);
      var found, tried, more := TryCandidates(best, kind, oracle, verbose);
      attempted := attempted + tried;
      history := history + more;
      if found.None? {
        done := true;
        DoneStays(input, kind, oracle, verbose, i + 1, maxIterations);
        break;
      }
      best := found.value;
      accepted := accepted + 1;
    }
    r := Some(Minimized(kind, attempted, accepted, history, best));
    ReductionIsSound(input, kind, oracle, verbose, maxIterations);
  }
}
