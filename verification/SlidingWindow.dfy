/** Sliding windows over lists of times, and the reference limiter that forgets nothing. */
module SlidingWindow {

  /** The times after a cutoff. */
  function After(times: seq<int>, cutoff: int): seq<int> {
    if times == [] then []
    else
      var n := |times| - 1;
      if times[n] > cutoff then After(times[..n], cutoff) + [times[n]] else After(times[..n], cutoff)
  }

  lemma {:induction false} AfterMembers(times: seq<int>, cutoff: int)
    ensures forall t :: t in After(times, cutoff) <==> t in times && t > cutoff
    decreases |times|
  {
    if times != [] {
      var n := |times| - 1;
      AfterMembers(times[..n], cutoff);
      assert times == times[..n] + [times[n]];
    }
  }

  lemma {:induction false} AfterShorter(times: seq<int>, cutoff: int)
    ensures |After(times, cutoff)| <= |times|
    ensures forall i :: 0 <= i < |After(times, cutoff)| ==> After(times, cutoff)[i] in times
    decreases |times|
  {
    if times != [] {
      AfterShorter(times[..|times| - 1], cutoff);
    }
  }

  /** How many times lie in the half-open window (from, to]. */
  function Count(times: seq<int>, from: int, to: int): nat {
    if times == [] then 0
    else
      var n := |times| - 1;
      Count(times[..n], from, to) + if from < times[n] <= to then 1 else 0
  }

  predicate AtMost(times: seq<int>, latest: int) {
    forall i :: 0 <= i < |times| ==> times[i] <= latest
  }

  predicate Nondecreasing(times: seq<int>) {
    forall i, j :: 0 <= i < j < |times| ==> times[i] <= times[j]
  }

  lemma AfterSnoc(times: seq<int>, t: int, cutoff: int)
    ensures After(times + [t], cutoff) == if t > cutoff then After(times, cutoff) + [t] else After(times, cutoff)
  {
    assert (times + [t])[..|times|] == times;
  }

  lemma CountSnoc(times: seq<int>, t: int, from: int, to: int)
    ensures Count(times + [t], from, to) == Count(times, from, to) + if from < t <= to then 1 else 0
  {
    assert (times + [t])[..|times|] == times;
  }

  /** Pruning at an earlier cutoff does not show at a later one. */
  lemma {:induction false} AfterAfter(times: seq<int>, early: int, late: int)
    requires early <= late
    ensures After(After(times, early), late) == After(times, late)
    decreases |times|
  {
    if times != [] {
      var n := |times| - 1;
      AfterAfter(times[..n], early, late);
      if times[n] > early {
        AfterSnoc(After(times[..n], early), times[n], late);
      }
    }
  }

  lemma {:induction false} CountAtMost(times: seq<int>, from: int, to: int, cutoff: int)
    requires cutoff <= from
    ensures Count(times, from, to) <= |After(times, cutoff)|
    decreases |times|
  {
    if times != [] {
      CountAtMost(times[..|times| - 1], from, to, cutoff);
    }
  }

  lemma {:induction false} AfterIsCount(times: seq<int>, cutoff: int, to: int)
    requires AtMost(times, to)
    ensures |After(times, cutoff)| == Count(times, cutoff, to)
    decreases |times|
  {
    if times != [] {
      var n := |times| - 1;
      AfterIsCount(times[..n], cutoff, to);
    }
  }

  // ---------- One decision ----------

  datatype Verdict = Verdict(allowed: bool, limit: int, remaining: int, resetMs: int)

  /** The verdict on a request at a time, given the admitted times still inside the window. */
  function Judge(inWindow: seq<int>, window: int, limit: int, now: int): Verdict {
    var count := |inWindow|;
    var resetMs := if count > 0 then inWindow[0] + window else now + window;
    Verdict(count < limit, limit, if count < limit then limit - count - 1 else 0, resetMs)
  }

  // ---------- The reference limiter ----------

  /** The admitted ones among the requests, each judged against all earlier admissions. */
  function Admitted(requests: seq<int>, window: int, limit: int): (admitted: seq<int>)
    ensures forall t :: t in admitted ==> t in requests
  {
    if requests == [] then []
    else
      var n := |requests| - 1;
      var earlier := Admitted(requests[..n], window, limit);
      if Judge(After(earlier, requests[n] - window), window, limit, requests[n]).allowed then earlier + [requests[n]] else earlier
  }

  function Reference(requests: seq<int>, window: int, limit: int, now: int): Verdict {
    Judge(After(Admitted(requests, window, limit), now - window), window, limit, now)
  }

  lemma AdmittedSnoc(requests: seq<int>, window: int, limit: int, now: int)
    ensures var earlier := Admitted(requests, window, limit);
            Admitted(requests + [now], window, limit)
            == if Reference(requests, window, limit, now).allowed then earlier + [now] else earlier
  {
    assert (requests + [now])[..|requests|] == requests;
  }

  /** How many times lie in the window that begins after from. */
  function InWindow(times: seq<int>, from: int, window: int): nat {
    Count(times, from, from + window)
  }

  ghost predicate Bounded(times: seq<int>, window: int, limit: int) {
    forall from :: InWindow(times, from, window) <= limit
  }

  /** A request admitted because the window before it has room leaves every window within the limit. */
  lemma BoundedSnoc(times: seq<int>, window: int, limit: int, now: int)
    requires Bounded(times, window, limit) && |After(times, now - window)| < limit
    ensures Bounded(times + [now], window, limit)
  {
    forall from
      ensures InWindow(times + [now], from, window) <= limit
    {
      assert InWindow(times, from, window) <= limit;
      CountSnoc(times, now, from, from + window);
      if from < now <= from + window {
        CountAtMost(times, from, from + window, now - window);
      }
    }
  }

  /** No half-open window of the given length admits more than the limit. */
  lemma {:induction false} AdmittedBounded(requests: seq<int>, window: int, limit: int)
    requires limit >= 0
    ensures Bounded(Admitted(requests, window, limit), window, limit)
    decreases |requests|
  {
    if requests != [] {
      var n := |requests| - 1;
      AdmittedBounded(requests[..n], window, limit);
      var earlier := Admitted(requests[..n], window, limit);
      if |After(earlier, requests[n] - window)| < limit {
        BoundedSnoc(earlier, window, limit, requests[n]);
      }
    }
  }

  lemma {:induction false} AdmittedInOrder(requests: seq<int>, window: int, limit: int)
    requires Nondecreasing(requests)
    ensures Nondecreasing(Admitted(requests, window, limit))
    decreases |requests|
  {
    if requests != [] {
      var n := |requests| - 1;
      AdmittedInOrder(requests[..n], window, limit);
      var earlier := Admitted(requests[..n], window, limit);
      forall i | 0 <= i < |earlier|
        ensures earlier[i] <= requests[n]
      {
        assert earlier[i] in requests[..n];
      }
    }
  }

  lemma {:induction false} AfterInOrder(times: seq<int>, cutoff: int)
    requires Nondecreasing(times)
    ensures Nondecreasing(After(times, cutoff))
    decreases |times|
  {
    if times != [] {
      var n := |times| - 1;
      AfterInOrder(times[..n], cutoff);
      var r := After(times[..n], cutoff);
      AfterMembers(times[..n], cutoff);
      forall i | 0 <= i < |r|
        ensures r[i] <= times[n]
      {
        assert r[i] in r;
        assert r[i] in times[..n];
      }
    }
  }

  lemma {:induction false} AfterAll(times: seq<int>, cutoff: int)
    requires forall i :: 0 <= i < |times| ==> times[i] > cutoff
    ensures After(times, cutoff) == times
    decreases |times|
  {
    if times != [] {
      var n := |times| - 1;
      AfterAll(times[..n], cutoff);
    }
  }

  lemma {:induction false} AfterFewer(times: seq<int>, cutoff: int)
    requires times != [] && times[0] <= cutoff
    ensures |After(times, cutoff)| < |times|
    decreases |times|
  {
    if |times| > 1 {
      AfterFewer(times[..|times| - 1], cutoff);
    }
  }

  /** A full window has room again exactly when its oldest time has left it. */
  lemma RoomAfterOldest(full: seq<int>, limit: int, cutoff: int)
    requires |full| == limit >= 1 && Nondecreasing(full)
    ensures |After(full, cutoff)| < limit <==> full[0] <= cutoff
  {
    if full[0] > cutoff {
      AfterAll(full, cutoff);
    } else {
      AfterFewer(full, cutoff);
    }
  }

  lemma AdmittedAtMost(requests: seq<int>, window: int, limit: int, now: int)
    requires AtMost(requests, now)
    ensures AtMost(Admitted(requests, window, limit), now)
  {
    var admitted := Admitted(requests, window, limit);
    forall i | 0 <= i < |admitted|
      ensures admitted[i] <= now
    {
      assert admitted[i] in requests;
    }
  }

  lemma FullWindow(requests: seq<int>, window: int, limit: int, now: int)
    requires limit >= 1 && Nondecreasing(requests) && AtMost(requests, now)
    ensures var inWindow := After(Admitted(requests, window, limit), now - window);
            |inWindow| <= limit && Nondecreasing(inWindow)
  {
    var admitted := Admitted(requests, window, limit);
    AdmittedBounded(requests, window, limit);
    AdmittedInOrder(requests, window, limit);
    AfterInOrder(admitted, now - window);
    AdmittedAtMost(requests, window, limit, now);
    AfterIsCount(admitted, now - window, now);
    assert InWindow(admitted, now - window, window) <= limit;
  }

  /** A full window admits again exactly when its oldest time has left it. */
  lemma RoomFromReset(times: seq<int>, window: int, limit: int, now: int, later: int)
    requires limit >= 1 && now <= later && |After(times, now - window)| == limit && Nondecreasing(After(times, now - window))
    ensures Judge(After(times, later - window), window, limit, later).allowed
       <==> later >= Judge(After(times, now - window), window, limit, now).resetMs
  {
    AfterAfter(times, now - window, later - window);
    RoomInFull(After(times, now - window), After(times, later - window), window, limit, now, later);
  }

  lemma RoomInFull(full: seq<int>, rest: seq<int>, window: int, limit: int, now: int, later: int)
    requires |full| == limit >= 1 && Nondecreasing(full) && rest == After(full, later - window)
    ensures Judge(rest, window, limit, later).allowed <==> later >= Judge(full, window, limit, now).resetMs
  {
    RoomAfterOldest(full, limit, later - window);
    RoomByJudge(full, rest, window, limit, now, later);
  }

  lemma RoomByJudge(full: seq<int>, rest: seq<int>, window: int, limit: int, now: int, later: int)
    requires |full| == limit >= 1 && (|rest| < limit <==> full[0] <= later - window)
    ensures Judge(rest, window, limit, later).allowed <==> later >= Judge(full, window, limit, now).resetMs
  {
  }

  /** A caller that is denied stays denied before resetMs and, unless others were admitted since, is admitted from then
      on: the reset time is exact. */
  lemma DeniedUntilReset(requests: seq<int>, window: int, limit: int, now: int, later: int)
    requires limit >= 1 && Nondecreasing(requests) && AtMost(requests, now) && now <= later
    requires !Reference(requests, window, limit, now).allowed
    ensures Reference(requests, window, limit, later).allowed <==> later >= Reference(requests, window, limit, now).resetMs
  {
    FullWindow(requests, window, limit, now);
    RoomFromReset(Admitted(requests, window, limit), window, limit, now, later);
  }

  function Again(t: int, times: nat): seq<int> {
    seq(times, _ => t)
  }

  lemma {:induction false} AdmittedAtOnce(requests: seq<int>, window: int, limit: int, now: int, times: nat)
    requires window > 0
    ensures var room := limit - |After(Admitted(requests, window, limit), now - window)|;
            room >= 0 ==> |After(Admitted(requests + Again(now, times), window, limit), now - window)|
                          == limit - (if times < room then room - times else 0)
    decreases times
  {
    if times == 0 {
      assert requests + Again(now, 0) == requests;
    } else {
      var earlier := requests + Again(now, times - 1);
      AdmittedAtOnce(requests, window, limit, now, times - 1);
      assert requests + Again(now, times) == earlier + [now];
      AdmittedSnoc(earlier, window, limit, now);
      AfterSnoc(Admitted(earlier, window, limit), now, now - window);
    }
  }

  /** The number remaining is exact: of the requests made at once after an admitted one, that many are admitted. */
  lemma RemainingIsExact(requests: seq<int>, window: int, limit: int, now: int, more: nat)
    requires window > 0 && Reference(requests, window, limit, now).allowed
    ensures Reference(requests + Again(now, 1 + more), window, limit, now).allowed
       <==> more < Reference(requests, window, limit, now).remaining
  {
    AdmittedAtOnce(requests, window, limit, now, 1 + more);
  }

  ghost predicate IsOldest(times: seq<int>, cutoff: int, x: int) {
    x in times && x > cutoff && forall t :: t in times && t > cutoff ==> x <= t
  }

  /** The time at which the oldest admission still in the window leaves it; the end of a window that begins now, if there
      is none. */
  ghost predicate IsReset(admitted: seq<int>, window: int, now: int, resetMs: int) {
    || IsOldest(admitted, now - window, resetMs - window)
    || (resetMs == now + window && forall t :: t in admitted ==> t <= now - window)
  }

  lemma FirstIsOldest(times: seq<int>, cutoff: int)
    requires Nondecreasing(times)
    ensures var rest := After(times, cutoff);
            if rest != [] then IsOldest(times, cutoff, rest[0]) else forall t :: t in times ==> t <= cutoff
  {
    var rest := After(times, cutoff);
    AfterMembers(times, cutoff);
    AfterInOrder(times, cutoff);
    if rest != [] {
      assert rest[0] in rest;
      forall t | t in times && t > cutoff
        ensures rest[0] <= t
      {
        assert t in rest;
      }
    } else {
      forall t | t in times
        ensures t <= cutoff
      {
        assert t > cutoff ==> t in rest;
      }
    }
  }

  lemma JudgeExactly(admitted: seq<int>, window: int, limit: int, now: int)
    requires Nondecreasing(admitted) && AtMost(admitted, now)
    ensures var v, n := Judge(After(admitted, now - window), window, limit, now), InWindow(admitted, now - window, window);
            && v.limit == limit && (v.allowed <==> n < limit) && v.remaining == (if n < limit then limit - n - 1 else 0)
            && IsReset(admitted, window, now, v.resetMs)
  {
    var inWindow := After(admitted, now - window);
    AfterIsCount(admitted, now - window, now);
    assert now - window + window == now;
    FirstIsOldest(admitted, now - window);
    assert Judge(inWindow, window, limit, now).resetMs == if inWindow != [] then inWindow[0] + window else now + window;
  }

  /** The whole verdict, from the admissions in the half-open window that ends now. */
  lemma ReferenceExactly(requests: seq<int>, window: int, limit: int, now: int)
    requires Nondecreasing(requests) && AtMost(requests, now)
    ensures var v, admitted := Reference(requests, window, limit, now), Admitted(requests, window, limit);
            var n := InWindow(admitted, now - window, window);
            && v.limit == limit && (v.allowed <==> n < limit) && v.remaining == (if n < limit then limit - n - 1 else 0)
            && IsReset(admitted, window, now, v.resetMs)
  {
    var admitted := Admitted(requests, window, limit);
    AdmittedAtMost(requests, window, limit, now);
    AdmittedInOrder(requests, window, limit);
    JudgeExactly(admitted, window, limit, now);
  }

  // ---------- Limiters that prune ----------

  /** A stored list of times is as good as the full list of admissions from a cutoff on. */
  ghost predicate Agrees(stored: seq<int>, admitted: seq<int>, since: int) {
    forall cutoff :: cutoff >= since ==> After(stored, cutoff) == After(admitted, cutoff)
  }

  lemma AgreesPruned(stored: seq<int>, admitted: seq<int>, since: int, early: int)
    requires Agrees(stored, admitted, since) && early <= since
    ensures Agrees(After(stored, early), admitted, since)
  {
    forall cutoff | cutoff >= since
      ensures After(After(stored, early), cutoff) == After(admitted, cutoff)
    {
      AfterAfter(stored, early, cutoff);
    }
  }

  lemma AgreesSnoc(stored: seq<int>, admitted: seq<int>, since: int, t: int)
    requires Agrees(stored, admitted, since)
    ensures Agrees(stored + [t], admitted + [t], since)
  {
    forall cutoff | cutoff >= since
      ensures After(stored + [t], cutoff) == After(admitted + [t], cutoff)
    {
      AfterSnoc(stored, t, cutoff);
      AfterSnoc(admitted, t, cutoff);
    }
  }
}
