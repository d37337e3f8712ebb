/** The two rate limiters: buckets per tier that a timer purges, and three windows per issuance request. */
module RateLimit {
  import opened JsText
  import opened SlidingWindow

  type Times = map<JsString, seq<int>>

  function At(m: Times, key: JsString): seq<int> {
    if key in m then m[key] else []
  }

  // ---------- Buckets ----------

  const WINDOW_MS := 60000

  datatype Tier = Sensitive | Attest | Standard

  function Limit(tier: Tier): int {
    match tier
    case Sensitive => 10
    case Attest => 100
    case Standard => 1000
  }

  function TierName(tier: Tier): JsString {
    match tier
    case Sensitive => [0x73, 0x65, 0x6e, 0x73, 0x69, 0x74, 0x69, 0x76, 0x65]
    case Attest => [0x61, 0x74, 0x74, 0x65, 0x73, 0x74]
    case Standard => [0x73, 0x74, 0x61, 0x6e, 0x64, 0x61, 0x72, 0x64]
  }

  function BucketKey(tier: Tier, caller: JsString): JsString {
    TierName(tier) + [COLON] + caller
  }

  lemma BucketKeyTexts(caller: JsString)
    ensures BucketKey(Sensitive, caller) == Text("sensitive:") + caller
    ensures BucketKey(Attest, caller) == Text("attest:") + caller
    ensures BucketKey(Standard, caller) == Text("standard:") + caller
  {
    assert TierName(Sensitive) + [COLON] == Text("sensitive:");
    assert TierName(Attest) + [COLON] == Text("attest:");
    assert TierName(Standard) + [COLON] == Text("standard:");
  }

  lemma BucketKeyInjective(tier: Tier, caller: JsString, tier': Tier, caller': JsString)
    requires BucketKey(tier, caller) == BucketKey(tier', caller')
    ensures tier == tier' && caller == caller'
  {
    var k := BucketKey(tier, caller);
    assert k[0] == TierName(tier)[0] == TierName(tier')[0] && k[1] == TierName(tier)[1] == TierName(tier')[1];
    assert caller == k[|TierName(tier)| + 1..] && caller' == k[|TierName(tier')| + 1..];
  }

  /** The bucket after a request, which is pruned even when the request is denied. */
  function HitBucket(times: seq<int>, limit: int, now: int): (seq<int>, Verdict) {
    var inWindow := After(times, now - WINDOW_MS);
    var verdict := Judge(inWindow, WINDOW_MS, limit, now);
    (if verdict.allowed then inWindow + [now] else inWindow, verdict)
  }

  /** Empty buckets are dropped. */
  function Purged(m: Times, now: int): Times {
    map key | key in m && After(m[key], now - WINDOW_MS) != [] :: After(m[key], now - WINDOW_MS)
  }

  /** After a purge the buckets are those with a time in the last minute, and hold just these times. */
  lemma PurgedExactly(m: Times, now: int, key: JsString)
    ensures key in Purged(m, now) <==> key in m && exists t :: t in m[key] && t > now - 60_000
    ensures key in Purged(m, now) ==>
              && (forall t :: t in Purged(m, now)[key] <==> t in m[key] && t > now - 60_000)
              && |Purged(m, now)[key]| <= |m[key]|
  {
    if key in m {
      AfterMembers(m[key], now - 60_000);
      AfterShorter(m[key], now - 60_000);
      var kept := After(m[key], now - 60_000);
      if kept != [] {
        assert kept[0] in kept;
        assert kept[0] in m[key] && kept[0] > now - 60_000;
      } else {
        assert forall t :: t in m[key] && t > now - 60_000 ==> t in kept;
      }
    }
  }

  class BucketLimiter {
    var buckets: Times

    constructor ()
      ensures buckets == map[]
    {
      buckets := map[];
    }

    method Handle(tier: Tier, caller: JsString, now: int) returns (verdict: Verdict)
      modifies this
      ensures var key := BucketKey(tier, caller);
              var hit := HitBucket(At(old(buckets), key), Limit(tier), now);
              buckets == old(buckets)[key := hit.0] && verdict == hit.1
    {
      var limit, key := Limit(tier), BucketKey(tier, caller);
      var cutoff := now - WINDOW_MS;
      if key !in buckets {
        buckets := buckets[key := []];
      }
      buckets := buckets[key := After(buckets[key], cutoff)];
      var count := |buckets[key]|;
      var resetMs := if count > 0 then buckets[key][0] + WINDOW_MS else now + WINDOW_MS;
      if count >= limit {
        return Verdict(false, limit, 0, resetMs);
      }
      buckets := buckets[key := buckets[key] + [now]];
      return Verdict(true, limit, limit - count - 1, resetMs);
    }

    method Purge(now: int)
      modifies this
      ensures buckets == Purged(old(buckets), now)
    {
      var cutoff := now - WINDOW_MS;
      ghost var before := buckets;
      var todo := buckets.Keys;
      while todo != {}
        invariant todo <= buckets.Keys <= before.Keys
        invariant forall key :: key in todo ==> buckets[key] == before[key]
        invariant forall key :: key in before && key !in todo ==>
                    (key in buckets <==> After(before[key], cutoff) != [])
        invariant forall key :: key in buckets && key !in todo ==> buckets[key] == After(before[key], cutoff)
        decreases |todo|
      {
        var key :| key in todo;
        var kept := After(buckets[key], cutoff);
        buckets := buckets[key := kept];
        if |kept| == 0 {
          buckets := buckets - {key};
        }
        todo := todo - {key};
      }
      assert buckets == Purged(before, now);
    }
  }

  datatype Op = Hit(tier: Tier, caller: JsString, now: int) | Purge(now: int)

  /** Time never goes back, and is now at the given point. */
  predicate Clocked(ops: seq<Op>, now: int)
    decreases |ops|
  {
    ops == [] || (ops[|ops| - 1].now <= now && Clocked(ops[..|ops| - 1], ops[|ops| - 1].now))
  }

  function Buckets(ops: seq<Op>): Times {
    if ops == [] then map[]
    else
      var n := |ops| - 1;
      match ops[n]
      case Purge(now) => Purged(Buckets(ops[..n]), now)
      case Hit(tier, caller, now) =>
        var key := BucketKey(tier, caller);
        Buckets(ops[..n])[key := HitBucket(At(Buckets(ops[..n]), key), Limit(tier), now).0]
  }

  /** The verdict on one more request. */
  function VerdictAfter(ops: seq<Op>, tier: Tier, caller: JsString, now: int): Verdict {
    HitBucket(At(Buckets(ops), BucketKey(tier, caller)), Limit(tier), now).1
  }

  /** The requests of one caller in one tier. */
  function HitsOf(ops: seq<Op>, tier: Tier, caller: JsString): seq<int> {
    if ops == [] then []
    else
      var n := |ops| - 1;
      var earlier := HitsOf(ops[..n], tier, caller);
      if ops[n].Hit? && ops[n].tier == tier && ops[n].caller == caller then earlier + [ops[n].now] else earlier
  }

  /** Those that were let through. */
  function PassedOf(ops: seq<Op>, tier: Tier, caller: JsString): seq<int> {
    if ops == [] then []
    else
      var n := |ops| - 1;
      var earlier := PassedOf(ops[..n], tier, caller);
      if ops[n] == Hit(tier, caller, ops[n].now) && VerdictAfter(ops[..n], tier, caller, ops[n].now).allowed
      then earlier + [ops[n].now] else earlier
  }

  lemma HitsSnoc(ops: seq<Op>, op: Op, tier: Tier, caller: JsString)
    ensures HitsOf(ops + [op], tier, caller)
         == if op.Hit? && op.tier == tier && op.caller == caller then HitsOf(ops, tier, caller) + [op.now] else HitsOf(ops, tier, caller)
  {
    assert (ops + [op])[..|ops|] == ops;
  }

  /** What a caller was admitted to, had nothing ever been pruned. */
  function AdmittedOf(ops: seq<Op>, tier: Tier, caller: JsString): seq<int> {
    Admitted(HitsOf(ops, tier, caller), WINDOW_MS, Limit(tier))
  }

  lemma PurgeAgrees(m: Times, key: JsString, admitted: seq<int>, since: int, now: int)
    requires Agrees(At(m, key), admitted, since) && now - WINDOW_MS <= since
    ensures Agrees(At(Purged(m, now), key), admitted, since)
  {
    AgreesPruned(At(m, key), admitted, since, now - WINDOW_MS);
  }

  lemma HitAgrees(times: seq<int>, requests: seq<int>, limit: int, now: int, since: int)
    requires Agrees(times, Admitted(requests, WINDOW_MS, limit), now - WINDOW_MS) && now - WINDOW_MS <= since
    ensures Agrees(HitBucket(times, limit, now).0, Admitted(requests + [now], WINDOW_MS, limit), since)
    ensures HitBucket(times, limit, now).1 == Reference(requests, WINDOW_MS, limit, now)
  {
    var admitted := Admitted(requests, WINDOW_MS, limit);
    AdmittedSnoc(requests, WINDOW_MS, limit, now);
    assert After(times, now - WINDOW_MS) == After(admitted, now - WINDOW_MS);
    AgreesPruned(times, admitted, now - WINDOW_MS, now - WINDOW_MS);
    AgreesSnoc(After(times, now - WINDOW_MS), admitted, now - WINDOW_MS, now);
  }

  /** A bucket agrees with the list of all admissions, whoever else made requests and whenever the timer ran. */
  lemma {:induction false} BucketAgrees(ops: seq<Op>, tier: Tier, caller: JsString, now: int)
    requires Clocked(ops, now)
    ensures Agrees(At(Buckets(ops), BucketKey(tier, caller)), AdmittedOf(ops, tier, caller), now - WINDOW_MS)
    decreases |ops|
  {
    if ops != [] {
      var n, key := |ops| - 1, BucketKey(tier, caller);
      var earlier, op := ops[..n], ops[n];
      match op
      case Purge(t) =>
        BucketAgrees(earlier, tier, caller, op.now);
        PurgeAgrees(Buckets(earlier), key, AdmittedOf(earlier, tier, caller), now - WINDOW_MS, t);
      case Hit(tier', caller', t) =>
        if BucketKey(tier', caller') == key {
          BucketKeyInjective(tier', caller', tier, caller);
          BucketAgrees(earlier, tier, caller, t);
          HitAgrees(At(Buckets(earlier), key), HitsOf(earlier, tier, caller), Limit(tier), t, now - WINDOW_MS);
        } else {
          BucketAgrees(earlier, tier, caller, op.now);
        }
    }
  }

  /** Every verdict is that of the limiter that forgets nothing, on the caller's own requests alone. */
  lemma BucketVerdict(ops: seq<Op>, tier: Tier, caller: JsString, now: int)
    requires Clocked(ops, now)
    ensures VerdictAfter(ops, tier, caller, now) == Reference(HitsOf(ops, tier, caller), WINDOW_MS, Limit(tier), now)
  {
    BucketAgrees(ops, tier, caller, now);
    HitAgrees(At(Buckets(ops), BucketKey(tier, caller)), HitsOf(ops, tier, caller), Limit(tier), now, now - WINDOW_MS);
  }

  function WithoutPurges(ops: seq<Op>): seq<Op> {
    if ops == [] then []
    else
      var n := |ops| - 1;
      if ops[n].Purge? then WithoutPurges(ops[..n]) else WithoutPurges(ops[..n]) + [ops[n]]
  }

  lemma ClockedLater(ops: seq<Op>, now: int, later: int)
    requires Clocked(ops, now) && now <= later
    ensures Clocked(ops, later)
  {
  }

  lemma {:induction false} PurgesAreNoHits(ops: seq<Op>, tier: Tier, caller: JsString, now: int)
    requires Clocked(ops, now)
    ensures HitsOf(WithoutPurges(ops), tier, caller) == HitsOf(ops, tier, caller)
    ensures Clocked(WithoutPurges(ops), now)
    decreases |ops|
  {
    if ops != [] {
      var n := |ops| - 1;
      PurgesAreNoHits(ops[..n], tier, caller, ops[n].now);
      HitsSnoc(WithoutPurges(ops[..n]), ops[n], tier, caller);
      assert (WithoutPurges(ops[..n]) + [ops[n]])[..|WithoutPurges(ops[..n])|] == WithoutPurges(ops[..n]);
      ClockedLater(WithoutPurges(ops[..n]), ops[n].now, now);
    }
  }

  /** The purge timer never changes a verdict. */
  lemma PurgesChangeNothing(ops: seq<Op>, tier: Tier, caller: JsString, now: int)
    requires Clocked(ops, now)
    ensures VerdictAfter(ops, tier, caller, now) == VerdictAfter(WithoutPurges(ops), tier, caller, now)
  {
    PurgesAreNoHits(ops, tier, caller, now);
    BucketVerdict(ops, tier, caller, now);
    BucketVerdict(WithoutPurges(ops), tier, caller, now);
  }

  lemma {:induction false} PassedAreAdmitted(ops: seq<Op>, tier: Tier, caller: JsString, now: int)
    requires Clocked(ops, now)
    ensures PassedOf(ops, tier, caller) == AdmittedOf(ops, tier, caller)
    decreases |ops|
  {
    if ops != [] {
      var n := |ops| - 1;
      PassedAreAdmitted(ops[..n], tier, caller, ops[n].now);
      BucketVerdict(ops[..n], tier, caller, ops[n].now);
      AdmittedSnoc(HitsOf(ops[..n], tier, caller), WINDOW_MS, Limit(tier), ops[n].now);
    }
  }

  /** Over every run, no half-open minute lets through more than the limit of the tier. */
  lemma MinuteWithinLimit(ops: seq<Op>, tier: Tier, caller: JsString, now: int, from: int)
    requires Clocked(ops, now)
    ensures InWindow(PassedOf(ops, tier, caller), from, 60_000) <= match tier case Sensitive => 10 case Attest => 100 case Standard => 1_000
  {
    PassedAreAdmitted(ops, tier, caller, now);
    AdmittedBounded(HitsOf(ops, tier, caller), WINDOW_MS, Limit(tier));
  }

  lemma {:induction false} HitsInOrder(ops: seq<Op>, tier: Tier, caller: JsString, now: int)
    requires Clocked(ops, now)
    ensures Nondecreasing(HitsOf(ops, tier, caller)) && AtMost(HitsOf(ops, tier, caller), now)
    decreases |ops|
  {
    if ops != [] {
      HitsInOrder(ops[..|ops| - 1], tier, caller, ops[|ops| - 1].now);
    }
  }

  /** Over every run a request is let through exactly when fewer than the limit were in the minute that ends with it, and
      the answer tells the limit, what remains, and when the oldest of them leaves the minute. */
  lemma AnswerExactly(ops: seq<Op>, tier: Tier, caller: JsString, now: int)
    requires Clocked(ops, now)
    ensures var v, passed := VerdictAfter(ops, tier, caller, now), PassedOf(ops, tier, caller);
            var n := InWindow(passed, now - 60_000, 60_000);
            && v.limit == (match tier case Sensitive => 10 case Attest => 100 case Standard => 1_000)
            && (v.allowed <==> n < v.limit) && v.remaining == (if n < v.limit then v.limit - n - 1 else 0)
            && IsReset(passed, 60_000, now, v.resetMs)
  {
    PassedAreAdmitted(ops, tier, caller, now);
    BucketVerdict(ops, tier, caller, now);
    HitsInOrder(ops, tier, caller, now);
    ReferenceExactly(HitsOf(ops, tier, caller), WINDOW_MS, Limit(tier), now);
  }

  /** A denied caller that is admitted nothing more stays denied before resetMs and is admitted from then on, whatever
      other callers and the timer do. */
  lemma DeniedUntilResetMs(ops: seq<Op>, more: seq<Op>, tier: Tier, caller: JsString, now: int, later: int)
    requires Clocked(ops, now) && now <= later && ops <= more && Clocked(more, later)
    requires PassedOf(more, tier, caller) == PassedOf(ops, tier, caller)
    requires !VerdictAfter(ops, tier, caller, now).allowed
    ensures VerdictAfter(more, tier, caller, later).allowed <==> later >= VerdictAfter(ops, tier, caller, now).resetMs
  {
    BucketVerdict(ops, tier, caller, now);
    BucketVerdict(more, tier, caller, later);
    PassedAreAdmitted(ops, tier, caller, now);
    PassedAreAdmitted(more, tier, caller, later);
    HitsInOrder(ops, tier, caller, now);
    DeniedUntilReset(HitsOf(ops, tier, caller), WINDOW_MS, Limit(tier), now, later);
  }
}
