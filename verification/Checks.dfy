/** Answers that name the first of several checks that fails. */
module Checks {
  import opened Bytes

  /** A check and what is answered when it is the first to fail. */
  datatype Check<+R> = Check(passes: bool, otherwise: R)

  ghost predicate FailsFirst<R>(checks: seq<Check<R>>, k: int) {
    0 <= k < |checks| && !checks[k].passes && forall j :: 0 <= j < k ==> checks[j].passes
  }

  /** No failure stands for checks that all pass. */
  ghost predicate FirstFailure<R>(checks: seq<Check<R>>, failure: Option<R>) {
    match failure
    case None => forall k :: 0 <= k < |checks| ==> checks[k].passes
    case Some(r) => exists k :: FailsFirst(checks, k) && checks[k].otherwise == r
  }

  /** Some check is the first to fail, or all pass. */
  lemma {:induction false} SomeFirst<R>(checks: seq<Check<R>>) returns (k: int)
    ensures FailsFirst(checks, k) || (k == |checks| && FirstFailure(checks, None))
    decreases |checks|
  {
    if checks == [] {
      k := 0;
    } else {
      var n := |checks| - 1;
      k := SomeFirst(checks[..n]);
      if k == n && checks[n].passes {
        k := n + 1;
      }
    }
  }

  /** There is exactly one such answer. */
  lemma FirstFailureUnique<R>(checks: seq<Check<R>>, failure: Option<R>, other: Option<R>)
    requires FirstFailure(checks, failure) && FirstFailure(checks, other)
    ensures failure == other
  {
    if failure.Some? && other.Some? {
      var k :| FailsFirst(checks, k) && checks[k].otherwise == failure.value;
      var j :| FailsFirst(checks, j) && checks[j].otherwise == other.value;
      assert j == k;
    }
  }
}
