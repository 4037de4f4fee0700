/** Findings as the later analyses read them. */
module Findings {
  import opened Prelude
  import opened Ordering

  datatype Severity = Critical | Warning | Info

  datatype Axis = StorageLayout | CallAbi | EventIndexer | SourceLevel | RuntimeSurface

  datatype Finding = Finding(
    severity: Severity,
    axes: seq<Axis>,
    category: string,
    message: string,
    typeName: Option<string>,
    target: Option<string>,
    rootTarget: Option<string>,
    change: Option<string>)

  /** An absent text comes before every present one. */
  predicate TextLeq(a: Option<string>, b: Option<string>) {
    a.None? || (b.Some? && LexLeq(a.value, b.value))
  }

  /** One text comes strictly before another, in byte order. */
  ghost predicate TextBefore(a: Option<string>, b: Option<string>) {
    b.Some? && (a.None? || Precedes(a.value, b.value))
  }

  lemma TextLeqIsExact(a: Option<string>, b: Option<string>)
    ensures TextLeq(a, b) <==> a == b || TextBefore(a, b)
  {
    if a.Some? && b.Some? {
      LexIsExact(a.value, b.value);
    }
  }

  lemma TextOrder()
    ensures TotalOrder(TextLeq)
  {
    LexOrder();
    forall a, b, c | TextLeq(a, b) && TextLeq(b, c) ensures TextLeq(a, c) {
      if a.Some? {
        assert LexLeq(a.value, b.value) && LexLeq(b.value, c.value);
      }
    }
    forall a, b ensures TextLeq(a, b) || TextLeq(b, a) {
      if a.Some? && b.Some? {
        assert LexLeq(a.value, b.value) || LexLeq(b.value, a.value);
      }
    }
    forall a, b | TextLeq(a, b) && TextLeq(b, a) ensures a == b {
      if a.Some? {
        assert LexLeq(a.value, b.value) && LexLeq(b.value, a.value);
      }
    }
  }
}
