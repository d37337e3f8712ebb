/** The limiter of credential issuance: an in-memory store of times, and three windows tried in turn per request. */
module IssuanceLimit {
  import opened JsText
  import opened SlidingWindow
  import opened RateLimit

  /** The times stored after a call: a denied call stores nothing, not even the pruning. */
  function Checked(times: seq<int>, window: int, limit: int, now: int): (seq<int>, Verdict) {
    var inWindow := After(times, now - window);
    var verdict := Judge(inWindow, window, limit, now);
    (if verdict.allowed then inWindow + [now] else times, verdict)
  }

  // ---------- One key of the store ----------

  function Stored(requests: seq<int>, window: int, limit: int): seq<int> {
    if requests == [] then []
    else
      var n := |requests| - 1;
      Checked(Stored(requests[..n], window, limit), window, limit, requests[n]).0
  }

  lemma CheckedAgrees(times: seq<int>, requests: seq<int>, window: int, limit: int, now: int)
    requires Agrees(times, Admitted(requests, window, limit), now - window)
    ensures Agrees(Checked(times, window, limit, now).0, Admitted(requests + [now], window, limit), now - window)
  {
    var admitted := Admitted(requests, window, limit);
    AdmittedSnoc(requests, window, limit, now);
    assert After(times, now - window) == After(admitted, now - window);
    if Reference(requests, window, limit, now).allowed {
      AgreesPruned(times, admitted, now - window, now - window);
      AgreesSnoc(After(times, now - window), admitted, now - window, now);
    }
  }

  lemma {:induction false} StoredAgrees(requests: seq<int>, window: int, limit: int, now: int)
    requires Nondecreasing(requests) && AtMost(requests, now)
    ensures Agrees(Stored(requests, window, limit), Admitted(requests, window, limit), now - window)
    decreases |requests|
  {
    if requests != [] {
      var n := |requests| - 1;
      StoredAgrees(requests[..n], window, limit, requests[n]);
      CheckedAgrees(Stored(requests[..n], window, limit), requests[..n], window, limit, requests[n]);
      assert requests[..n] + [requests[n]] == requests;
    }
  }

  /** Over any sequence of calls for one key, the store's verdicts are those of the limiter that forgets nothing. */
  lemma StoreVerdict(requests: seq<int>, window: int, limit: int, now: int)
    requires Nondecreasing(requests) && AtMost(requests, now)
    ensures Checked(Stored(requests, window, limit), window, limit, now).1 == Reference(requests, window, limit, now)
  {
    StoredAgrees(requests, window, limit, now);
  }

  // ---------- Three windows ----------

  datatype Kind = Minute | Hour | Day

  datatype Window = Window(key: JsString, windowMs: int, limit: int)

  /** A request: the bearer key, the company, and the clock. */
  datatype Request = Request(apiKey: JsString, companyId: JsString, now: int)

  function Prefix(kind: Kind): JsString {
    match kind
    case Minute => [0x72, 0x6c, 0x3a, 0x6d, 0x69, 0x6e, 0x3a]
    case Hour => [0x72, 0x6c, 0x3a, 0x68, 0x72, 0x3a]
    case Day => [0x72, 0x6c, 0x3a, 0x64, 0x61, 0x79, 0x3a, 0x63, 0x6d, 0x70, 0x3a]
  }

  function WindowOf(kind: Kind, caller: JsString): Window {
    var key := Prefix(kind) + caller;
    match kind
    case Minute => Window(key, 60000, 60)
    case Hour => Window(key, 3600000, 1000)
    case Day => Window(key, 86400000, 10000)
  }

  function CallerOf(kind: Kind, r: Request): JsString {
    if kind.Day? then r.companyId else r.apiKey
  }

  function Windows(r: Request): seq<Window> {
    [WindowOf(Minute, r.apiKey), WindowOf(Hour, r.apiKey), WindowOf(Day, r.companyId)]
  }

  lemma WindowKeyInjective(kind: Kind, caller: JsString, kind': Kind, caller': JsString)
    requires WindowOf(kind, caller).key == WindowOf(kind', caller').key
    ensures kind == kind' && caller == caller'
  {
    var k := WindowOf(kind, caller).key;
    assert k[3] == Prefix(kind)[3] == Prefix(kind')[3];
    assert caller == k[|Prefix(kind)|..] && caller' == k[|Prefix(kind')|..];
  }

  datatype Answer = Passed | TooMany(limit: int, retryAfter: int)

  /** Seconds until resetMs, rounded up, at least one. */
  function RetryAfter(resetMs: int, now: int): int {
    var seconds := (resetMs - now + 999) / 1000;
    if seconds > 1 then seconds else 1
  }

  function Try(m: Times, w: Window, now: int): (Times, Verdict) {
    var checked := Checked(At(m, w.key), w.windowMs, w.limit, now);
    (if checked.1.allowed then m[w.key := checked.0] else m, checked.1)
  }

  /** Windows tried before the one that denies have already counted the request. */
  function TryAll(m: Times, windows: seq<Window>, now: int): (Times, Answer)
    decreases |windows|
  {
    if windows == [] then (m, Passed)
    else
      var tried := Try(m, windows[0], now);
      if tried.1.allowed then TryAll(tried.0, windows[1..], now)
      else (m, TooMany(windows[0].limit, RetryAfter(tried.1.resetMs, now)))
  }

  class InMemoryRateLimitStore {
    var events: Times

    constructor ()
      ensures events == map[]
    {
      events := map[];
    }

    method CheckAndIncrement(key: JsString, windowMs: int, limit: int, nowMs: int) returns (verdict: Verdict)
      modifies this
      ensures (events, verdict) == Try(old(events), Window(key, windowMs, limit), nowMs)
    {
      var cutoff := nowMs - windowMs;
      var existing := if key in events then events[key] else [];
      var inWindow := After(existing, cutoff);
      var count := |inWindow|;
      var allowed := count < limit;
      var resetMs := if count > 0 then inWindow[0] + windowMs else nowMs + windowMs;
      if allowed {
        inWindow := inWindow + [nowMs];
        events := events[key := inWindow];
      }
      return Verdict(allowed, limit, if allowed then limit - count - 1 else 0, resetMs);
    }

    method Middleware(r: Request) returns (answer: Answer)
      modifies this
      ensures (events, answer) == TryAll(old(events), Windows(r), r.now)
    {
      var windows := Windows(r);
      ghost var whole := TryAll(events, windows, r.now);
      assert windows[0..] == windows;
      for i := 0 to |windows|
        invariant TryAll(events, windows[i..], r.now) == whole
      {
        var w := windows[i];
        assert windows[i..][0] == w && windows[i..][1..] == windows[i + 1..];
        var verdict := CheckAndIncrement(w.key, w.windowMs, w.limit, r.now);
        if !verdict.allowed {
          return TooMany(w.limit, RetryAfter(verdict.resetMs, r.now));
        }
      }
      return Passed;
    }
  }

  // ---------- Every run ----------

  function Events(requests: seq<Request>): Times {
    if requests == [] then map[]
    else
      var n := |requests| - 1;
      TryAll(Events(requests[..n]), Windows(requests[n]), requests[n].now).0
  }

  function AnswerAfter(requests: seq<Request>, r: Request): Answer {
    TryAll(Events(requests), Windows(r), r.now).1
  }

  /** The times of the requests of one caller that all three windows let through. */
  function PassedOf(requests: seq<Request>, kind: Kind, caller: JsString): seq<int> {
    if requests == [] then []
    else
      var n := |requests| - 1;
      var earlier := PassedOf(requests[..n], kind, caller);
      if CallerOf(kind, requests[n]) == caller && AnswerAfter(requests[..n], requests[n]).Passed?
      then earlier + [requests[n].now] else earlier
  }

  /** Time never goes back, and is now at the given point. */
  predicate Clocked(requests: seq<Request>, now: int)
    decreases |requests|
  {
    requests == []
    || (requests[|requests| - 1].now <= now && Clocked(requests[..|requests| - 1], requests[|requests| - 1].now))
  }

  predicate DistinctKeys(windows: seq<Window>) {
    forall i, j :: 0 <= i < j < |windows| ==> windows[i].key != windows[j].key
  }

  lemma WindowsDistinct(r: Request, kind: Kind, caller: JsString)
    ensures DistinctKeys(Windows(r))
    ensures WindowOf(kind, caller) in Windows(r) <==> caller == CallerOf(kind, r)
    ensures forall w :: w in Windows(r) && w.key == WindowOf(kind, caller).key ==> w == WindowOf(kind, caller)
  {
    forall k: Kind, k': Kind | WindowOf(k, CallerOf(k, r)).key == WindowOf(k', CallerOf(k', r)).key
      ensures k == k'
    {
      WindowKeyInjective(k, CallerOf(k, r), k', CallerOf(k', r));
    }
    forall k: Kind | WindowOf(k, CallerOf(k, r)).key == WindowOf(kind, caller).key
      ensures k == kind && CallerOf(k, r) == caller
    {
      WindowKeyInjective(k, CallerOf(k, r), kind, caller);
    }
    assert Windows(r) == [WindowOf(Minute, CallerOf(Minute, r)), WindowOf(Hour, CallerOf(Hour, r)), WindowOf(Day, CallerOf(Day, r))];
  }

  /** What trying windows in turn does to the list of one key. */
  ghost predicate TriedAt(m: Times, windows: seq<Window>, now: int, w: Window) {
    var after, answer := TryAll(m, windows, now).0, TryAll(m, windows, now).1;
    var pruned := After(At(m, w.key), now - w.windowMs);
    && (|| At(after, w.key) == At(m, w.key)
        || (|pruned| < w.limit && At(after, w.key) == pruned + [now]))
    && (w !in windows ==> At(after, w.key) == At(m, w.key))
    && (w in windows && answer.Passed? ==> |pruned| < w.limit && At(after, w.key) == pruned + [now])
  }

  lemma {:induction false} TryAllAt(m: Times, windows: seq<Window>, now: int, w: Window)
    requires DistinctKeys(windows) && forall v :: v in windows && v.key == w.key ==> v == w
    ensures TriedAt(m, windows, now, w)
    decreases |windows|
  {
    if windows != [] && Try(m, windows[0], now).1.allowed {
      TryAllAt(Try(m, windows[0], now).0, windows[1..], now, w);
      assert windows == [windows[0]] + windows[1..];
      if windows[0] == w {
        assert w !in windows[1..];
      }
    }
  }

  /** The store holds at least the passed requests that are still inside the window. */
  ghost predicate Holds(times: seq<int>, passed: seq<int>, since: int) {
    forall cutoff :: cutoff >= since ==> |After(passed, cutoff)| <= |After(times, cutoff)|
  }

  lemma HoldsStep(times: seq<int>, passed: seq<int>, since: int, early: int, now: int)
    requires Holds(times, passed, since) && early <= since
    ensures Holds(After(times, early) + [now], passed, since) && Holds(After(times, early) + [now], passed + [now], since)
  {
    forall cutoff | cutoff >= since
      ensures |After(passed, cutoff)| <= |After(After(times, early) + [now], cutoff)|
      ensures |After(passed + [now], cutoff)| <= |After(After(times, early) + [now], cutoff)|
    {
      AfterAfter(times, early, cutoff);
      AfterSnoc(After(times, early), now, cutoff);
      AfterSnoc(passed, now, cutoff);
    }
  }

  function PassedNext(m: Times, passed: seq<int>, windows: seq<Window>, now: int, w: Window): seq<int> {
    if w in windows && TryAll(m, windows, now).1.Passed? then passed + [now] else passed
  }

  lemma HoldsEither(times: seq<int>, passed: seq<int>, since: int, now: int, after: seq<int>, next: seq<int>)
    requires Holds(times, passed, since)
    requires (after == times && next == passed) || (after == After(times, since) + [now] && next in {passed, passed + [now]})
    ensures Holds(after, next, since)
  {
    HoldsStep(times, passed, since, since, now);
  }

  lemma HoldsNext(m: Times, passed: seq<int>, windows: seq<Window>, now: int, w: Window)
    requires TriedAt(m, windows, now, w) && Holds(At(m, w.key), passed, now - w.windowMs)
    ensures Holds(At(TryAll(m, windows, now).0, w.key), PassedNext(m, passed, windows, now, w), now - w.windowMs)
  {
    TriedEither(m, passed, windows, now, w);
    HoldsEither(At(m, w.key), passed, now - w.windowMs, now, At(TryAll(m, windows, now).0, w.key),
                PassedNext(m, passed, windows, now, w));
  }

  lemma TriedEither(m: Times, passed: seq<int>, windows: seq<Window>, now: int, w: Window)
    requires TriedAt(m, windows, now, w)
    ensures var times, after, next := At(m, w.key), At(TryAll(m, windows, now).0, w.key), PassedNext(m, passed, windows, now, w);
            || (after == times && next == passed)
            || (after == After(times, now - w.windowMs) + [now] && next in {passed, passed + [now]})
  {
  }

  lemma BoundedNext(m: Times, passed: seq<int>, windows: seq<Window>, now: int, w: Window)
    requires TriedAt(m, windows, now, w) && Holds(At(m, w.key), passed, now - w.windowMs)
    requires Bounded(passed, w.windowMs, w.limit)
    ensures Bounded(PassedNext(m, passed, windows, now, w), w.windowMs, w.limit)
  {
    if w in windows && TryAll(m, windows, now).1.Passed? {
      assert |After(passed, now - w.windowMs)| <= |After(At(m, w.key), now - w.windowMs)|;
      BoundedSnoc(passed, w.windowMs, w.limit, now);
    }
  }

  /** Over every run and for each of the three windows, no half-open window of its length lets more requests of one
      caller through than its limit. */
  lemma {:induction false} EveryWindowWithinLimit(requests: seq<Request>, kind: Kind, caller: JsString, now: int)
    requires Clocked(requests, now)
    ensures var w := WindowOf(kind, caller);
            && Bounded(PassedOf(requests, kind, caller), w.windowMs, w.limit)
            && w.windowMs == (match kind case Minute => 60_000 case Hour => 3_600_000 case Day => 86_400_000)
            && w.limit == (match kind case Minute => 60 case Hour => 1_000 case Day => 10_000)
            && Holds(At(Events(requests), w.key), PassedOf(requests, kind, caller), now - w.windowMs)
    decreases |requests|
  {
    if requests != [] {
      var n := |requests| - 1;
      EveryWindowWithinLimit(requests[..n], kind, caller, requests[n].now);
      var m, passed, r, w := Events(requests[..n]), PassedOf(requests[..n], kind, caller), requests[n], WindowOf(kind, caller);
      WindowsDistinct(r, kind, caller);
      TryAllAt(m, Windows(r), r.now, w);
      HoldsNext(m, passed, Windows(r), r.now, w);
      BoundedNext(m, passed, Windows(r), r.now, w);
      assert PassedOf(requests, kind, caller) == PassedNext(m, passed, Windows(r), r.now, w);
    }
  }

  /** A list of the store never outgrows its limit. */
  ghost predicate Fits(times: seq<int>, w: Window, now: int) {
    |times| <= w.limit && Nondecreasing(times) && AtMost(times, now)
  }

  lemma FitsTried(times: seq<int>, w: Window, now: int)
    requires Fits(times, w, now) && |After(times, now - w.windowMs)| < w.limit
    ensures Fits(After(times, now - w.windowMs) + [now], w, now)
  {
    var pruned := After(times, now - w.windowMs);
    AfterInOrder(times, now - w.windowMs);
    AfterShorter(times, now - w.windowMs);
    forall i | 0 <= i < |pruned|
      ensures pruned[i] <= now
    {
      assert pruned[i] in times;
    }
  }

  lemma {:induction false} ListsFit(requests: seq<Request>, kind: Kind, caller: JsString, now: int)
    requires Clocked(requests, now)
    ensures Fits(At(Events(requests), WindowOf(kind, caller).key), WindowOf(kind, caller), now)
    decreases |requests|
  {
    if requests != [] {
      var n, w := |requests| - 1, WindowOf(kind, caller);
      var m, r := Events(requests[..n]), requests[n];
      ListsFit(requests[..n], kind, caller, r.now);
      WindowsDistinct(r, kind, caller);
      TryAllAt(m, Windows(r), r.now, w);
      if At(Events(requests), w.key) != At(m, w.key) {
        FitsTried(At(m, w.key), w, r.now);
      }
    }
  }

  /** The window that denies a request: its list is then as it was before the request. */
  ghost predicate DeniedBy(m: Times, w: Window, now: int, answer: Answer) {
    var verdict := Try(m, w, now).1;
    !verdict.allowed && answer == TooMany(w.limit, RetryAfter(verdict.resetMs, now))
  }

  lemma {:induction false} SomeWindowDenies(m: Times, windows: seq<Window>, now: int) returns (w: Window)
    requires DistinctKeys(windows) && !TryAll(m, windows, now).1.Passed?
    ensures w in windows && DeniedBy(m, w, now, TryAll(m, windows, now).1)
    decreases |windows|
  {
    var tried := Try(m, windows[0], now);
    if tried.1.allowed {
      w := SomeWindowDenies(tried.0, windows[1..], now);
      assert windows == [windows[0]] + windows[1..];
    } else {
      w := windows[0];
    }
  }

  /** The least number of whole seconds, at least one, that reaches resetMs. */
  lemma RetryAfterLeast(resetMs: int, now: int)
    ensures RetryAfter(resetMs, now) >= 1 && now + 1000 * RetryAfter(resetMs, now) >= resetMs
    ensures RetryAfter(resetMs, now) > 1 ==> now + 1000 * (RetryAfter(resetMs, now) - 1) < resetMs
  {
  }

  /** A window that denies admits again exactly from resetMs on. */
  lemma DeniedUntil(times: seq<int>, w: Window, now: int, later: int)
    requires w.limit >= 1 && Fits(times, w, now) && !Checked(times, w.windowMs, w.limit, now).1.allowed && now <= later
    ensures Checked(times, w.windowMs, w.limit, later).1.allowed <==> later >= Checked(times, w.windowMs, w.limit, now).1.resetMs
  {
    AfterShorter(times, now - w.windowMs);
    AfterInOrder(times, now - w.windowMs);
    RoomFromReset(times, w.windowMs, w.limit, now, later);
  }

  /** A request denied in any run is denied by one of its windows, and however the run goes on, unless another request is
      counted under its key, that window admits it from retryAfter seconds on, and not yet a second earlier. */
  lemma RetryAfterExact(requests: seq<Request>, r: Request, more: seq<Request>, later: int) returns (kind: Kind)
    requires Clocked(requests, r.now) && AnswerAfter(requests, r).TooMany? && r.now <= later
    ensures var w, answer := WindowOf(kind, CallerOf(kind, r)), AnswerAfter(requests, r);
            && DeniedBy(Events(requests), w, r.now, answer) && answer.retryAfter >= 1
            && (At(Events(more), w.key) == At(Events(requests), w.key) ==>
                  && (later >= r.now + 1000 * answer.retryAfter ==> Try(Events(more), w, later).1.allowed)
                  && (later <= r.now + 1000 * (answer.retryAfter - 1) && answer.retryAfter > 1 ==> !Try(Events(more), w, later).1.allowed))
  {
    WindowsDistinct(r, Minute, r.apiKey);
    var w := SomeWindowDenies(Events(requests), Windows(r), r.now);
    kind := if w == WindowOf(Minute, r.apiKey) then Minute else if w == WindowOf(Hour, r.apiKey) then Hour else Day;
    assert w == WindowOf(kind, CallerOf(kind, r));
    ListsFit(requests, kind, CallerOf(kind, r), r.now);
    DeniedUntil(At(Events(requests), w.key), w, r.now, later);
    RetryAfterLeast(Try(Events(requests), w, r.now).1.resetMs, r.now);
  }

  // ---------- The windows and their order ----------

  /** Keys, lengths and limits. */
  lemma WindowsExactly(r: Request)
    ensures Windows(r) == [Window(Text("rl:min:") + r.apiKey, 60_000, 60), Window(Text("rl:hr:") + r.apiKey, 3_600_000, 1_000),
                           Window(Text("rl:day:cmp:") + r.companyId, 86_400_000, 10_000)]
  {
    assert Prefix(Minute) == Text("rl:min:") && Prefix(Hour) == Text("rl:hr:") && Prefix(Day) == Text("rl:day:cmp:");
  }

  lemma TryAllFirst(m: Times, w: Window, rest: seq<Window>, now: int)
    ensures TryAll(m, [w] + rest, now)
         == if Try(m, w, now).1.allowed then TryAll(Try(m, w, now).0, rest, now)
            else (m, TooMany(w.limit, RetryAfter(Try(m, w, now).1.resetMs, now)))
  {
    assert ([w] + rest)[1..] == rest;
  }

  /** The minute, the hour and the day are tried in this order; the first that denies answers, with its limit, and those
      before it have counted the request. */
  lemma MiddlewareExactly(m: Times, r: Request)
    ensures var minute, hour, day := WindowOf(Minute, r.apiKey), WindowOf(Hour, r.apiKey), WindowOf(Day, r.companyId);
            var first := Try(m, minute, r.now);
            var second := Try(first.0, hour, r.now);
            var third := Try(second.0, day, r.now);
            TryAll(m, Windows(r), r.now)
            == if !first.1.allowed then (m, TooMany(60, RetryAfter(first.1.resetMs, r.now)))
               else if !second.1.allowed then (first.0, TooMany(1_000, RetryAfter(second.1.resetMs, r.now)))
               else if !third.1.allowed then (second.0, TooMany(10_000, RetryAfter(third.1.resetMs, r.now)))
               else (third.0, Passed)
  {
    var minute, hour, day := WindowOf(Minute, r.apiKey), WindowOf(Hour, r.apiKey), WindowOf(Day, r.companyId);
    var first := Try(m, minute, r.now).0;
    var second := Try(first, hour, r.now).0;
    assert Windows(r) == [minute] + ([hour] + ([day] + []));
    TryAllFirst(m, minute, [hour] + ([day] + []), r.now);
    TryAllFirst(first, hour, [day] + [], r.now);
    TryAllFirst(second, day, [], r.now);
  }

  ghost predicate HasRoom(m: Times, w: Window, now: int) {
    |After(At(m, w.key), now - w.windowMs)| < w.limit
  }

  /** A request passes exactly when each of its three windows has counted fewer than its limit. */
  lemma PassesExactly(requests: seq<Request>, r: Request)
    ensures AnswerAfter(requests, r).Passed? <==>
              && HasRoom(Events(requests), WindowOf(Minute, r.apiKey), r.now)
              && HasRoom(Events(requests), WindowOf(Hour, r.apiKey), r.now)
              && HasRoom(Events(requests), WindowOf(Day, r.companyId), r.now)
  {
    var m, windows := Events(requests), Windows(r);
    WindowsDistinct(r, Minute, r.apiKey);
    AllAllowed(m, windows, r.now);
    assert windows[0] == WindowOf(Minute, r.apiKey) && windows[1] == WindowOf(Hour, r.apiKey) && windows[2] == WindowOf(Day, r.companyId);
  }

  /** Windows with different keys do not disturb one another. */
  lemma {:induction false} AllAllowed(m: Times, windows: seq<Window>, now: int)
    requires DistinctKeys(windows)
    ensures TryAll(m, windows, now).1.Passed? <==> forall i :: 0 <= i < |windows| ==> HasRoom(m, windows[i], now)
    decreases |windows|
  {
    if windows != [] && Try(m, windows[0], now).1.allowed {
      var m', rest := Try(m, windows[0], now).0, windows[1..];
      AllAllowed(m', rest, now);
      forall i | 0 <= i < |rest|
        ensures HasRoom(m', rest[i], now) <==> HasRoom(m, windows[i + 1], now)
      {
        assert rest[i].key != windows[0].key;
      }
    }
  }
}
