/** The per-key queue: for each key the tail of a chain of promises, over every order in which promises can settle. */
module KeyedQueue {
  import opened Bytes
  import opened JsText

  type Key = JsString

  datatype Status = Pending | Running | Fulfilled | Rejected

  /** What a call of then creates.  A task runs its function when the parent settles, whether fulfilled or rejected; the
      other kind swallows the parent's outcome.  No parent stands for Promise.resolve(). */
  datatype Promise = Promise(key: Key, parent: Option<nat>, task: bool, status: Status)

  /** Promises in order of creation. */
  datatype Queue = Queue(tails: map<Key, nat>, promises: seq<Promise>)

  const EMPTY := Queue(map[], [])

  predicate Done(status: Status) {
    status.Fulfilled? || status.Rejected?
  }

  predicate Settled(P: seq<Promise>, p: Option<nat>) {
    p.None? || (p.value < |P| && Done(P[p.value].status))
  }

  function Tail(q: Queue, key: Key): Option<nat> {
    if key in q.tails then Some(q.tails[key]) else None
  }

  /** run: a promise for the function behind the old tail, and behind it the new tail. */
  function Submitted(q: Queue, key: Key): Queue {
    var n := |q.promises|;
    Queue(q.tails[key := n + 1],
          q.promises + [Promise(key, Tail(q, key), true, Pending), Promise(key, Some(n), false, Pending)])
  }

  class TailMap {
    var tails: map<Key, nat>
    var promises: seq<Promise>

    constructor ()
      ensures Value() == EMPTY
    {
      tails := map[];
      promises := [];
    }

    function Value(): Queue
      reads this
    {
      Queue(tails, promises)
    }

    method Then(key: Key, parent: Option<nat>, task: bool) returns (p: nat)
      modifies this`promises
      ensures p == |old(promises)|
      ensures promises == old(promises) + [Promise(key, parent, task, Pending)]
    {
      p := |promises|;
      promises := promises + [Promise(key, parent, task, Pending)];
    }

    method Run(key: Key) returns (next: nat)
      modifies this
      ensures Value() == Submitted(old(Value()), key)
      ensures next == |old(promises)|
    {
      var prev := if key in tails then Some(tails[key]) else None;
      next := Then(key, prev, true);
      var tail := Then(key, Some(next), false);
      tails := tails[key := tail];
    }
  }

  // ---------- Schedules ----------

  datatype Event = Submit(key: Key) | Start(p: nat) | Finish(p: nat, ok: bool) | Swallow(p: nat)

  function With(q: Queue, p: nat, status: Status): Queue
    requires p < |q.promises|
  {
    q.(promises := q.promises[p := q.promises[p].(status := status)])
  }

  /** One step; None when it is not possible. */
  function Next(q: Queue, e: Event): Option<Queue> {
    match e
    case Submit(key) => Some(Submitted(q, key))
    case Start(p) =>
      if p < |q.promises| && q.promises[p].task && q.promises[p].status.Pending? && Settled(q.promises, q.promises[p].parent)
      then Some(With(q, p, Running)) else None
    case Finish(p, ok) =>
      if p < |q.promises| && q.promises[p].status.Running?
      then Some(With(q, p, if ok then Fulfilled else Rejected)) else None
    case Swallow(p) =>
      if p < |q.promises| && !q.promises[p].task && q.promises[p].status.Pending? && Settled(q.promises, q.promises[p].parent)
      then Some(With(q, p, Fulfilled)) else None
  }

  function Schedule(q: Queue, events: seq<Event>): Option<Queue>
    decreases |events|
  {
    if events == [] then Some(q)
    else
      match Next(q, events[0])
      case None => None
      case Some(next) => Schedule(next, events[1..])
  }

  // ---------- The invariant ----------

  /** The promises of a key form one chain in order of creation, and none has stepped before its parent settled. */
  ghost predicate Linked(P: seq<Promise>, p: nat)
    requires p < |P|
  {
    && (P[p].parent.Some? ==> P[p].parent.value < p && P[P[p].parent.value].key == P[p].key)
    && (forall j :: (if P[p].parent.Some? then P[p].parent.value else -1) < j < p ==> P[j].key != P[p].key)
    && (!P[p].status.Pending? ==> Settled(P, P[p].parent))
    && (!P[p].task ==> P[p].status.Pending? || P[p].status.Fulfilled?)
  }

  ghost predicate Inv(q: Queue) {
    && (forall p :: 0 <= p < |q.promises| ==> Linked(q.promises, p))
    && (forall k :: k in q.tails ==> q.tails[k] < |q.promises| && q.promises[q.tails[k]].key == k && !q.promises[q.tails[k]].task)
    && (forall k, j :: k in q.tails && q.tails[k] < j < |q.promises| ==> q.promises[j].key != k)
    && (forall j :: 0 <= j < |q.promises| ==> q.promises[j].key in q.tails)
  }

  lemma SubmitKeeps(q: Queue, key: Key)
    requires Inv(q)
    ensures Inv(Submitted(q, key))
  {
    var P, R := q.promises, Submitted(q, key).promises;
    forall p | 0 <= p < |R|
      ensures Linked(R, p)
    {
      if p < |P| {
        LinkedStays(P, R, p);
      }
    }
  }

  lemma LinkedStays(P: seq<Promise>, R: seq<Promise>, p: nat)
    requires P <= R && p < |P| && Linked(P, p)
    ensures Linked(R, p)
  {
  }

  lemma StatusKeeps(q: Queue, p: nat, status: Status)
    requires Inv(q) && p < |q.promises| && !Done(q.promises[p].status) && !status.Pending?
    requires Settled(q.promises, q.promises[p].parent) && (!q.promises[p].task ==> status.Fulfilled?)
    ensures Inv(With(q, p, status))
  {
    var P, R := q.promises, With(q, p, status).promises;
    forall j | 0 <= j < |R|
      ensures Linked(R, j)
    {
      assert Linked(P, j);
    }
  }

  lemma StepKeeps(q: Queue, e: Event)
    requires Inv(q) && Next(q, e).Some?
    ensures Inv(Next(q, e).value)
  {
    match e
    case Submit(key) => SubmitKeeps(q, key);
    case Start(p) => StatusKeeps(q, p, Running);
    case Finish(p, ok) =>
      assert Linked(q.promises, p);
      StatusKeeps(q, p, if ok then Fulfilled else Rejected);
    case Swallow(p) => StatusKeeps(q, p, Fulfilled);
  }

  lemma {:induction false} ScheduleKeeps(q: Queue, events: seq<Event>)
    requires Inv(q) && Schedule(q, events).Some?
    ensures Inv(Schedule(q, events).value)
    decreases |events|
  {
    if events != [] {
      StepKeeps(q, events[0]);
      ScheduleKeeps(Next(q, events[0]).value, events[1..]);
    }
  }

  // ---------- Every call becomes a task ----------

  function Submissions(events: seq<Event>): seq<Key> {
    if events == [] then []
    else (if events[0].Submit? then [events[0].key] else []) + Submissions(events[1..])
  }

  /** Two promises of a call: the one that runs its function, and the new tail. */
  ghost predicate TaskAt(P: seq<Promise>, p: int, key: Key) {
    0 <= p < |P| - 1 && P[p].key == P[p + 1].key == key && P[p].task && !P[p + 1].task
  }

  /** Those of the given calls, in order, from a position to the end. */
  ghost predicate TasksFrom(P: seq<Promise>, n: nat, keys: seq<Key>) {
    |P| == n + 2 * |keys| && forall k :: 0 <= k < |keys| ==> TaskAt(P, n + 2 * k, keys[k])
  }

  lemma StepAdds(q: Queue, e: Event)
    requires Next(q, e).Some?
    ensures var P, R := q.promises, Next(q, e).value.promises;
            && |P| <= |R| && (forall p :: 0 <= p < |P| ==> R[p].key == P[p].key && R[p].task == P[p].task)
            && TasksFrom(R, |P|, if e.Submit? then [e.key] else [])
  {
  }

  lemma {:induction false} ScheduleAdds(q: Queue, events: seq<Event>)
    requires Schedule(q, events).Some?
    ensures var P, R := q.promises, Schedule(q, events).value.promises;
            && |P| <= |R| && (forall p :: 0 <= p < |P| ==> R[p].key == P[p].key && R[p].task == P[p].task)
            && TasksFrom(R, |P|, Submissions(events))
    decreases |events|
  {
    if events != [] {
      var next := Next(q, events[0]).value;
      StepAdds(q, events[0]);
      ScheduleAdds(next, events[1..]);
      TasksJoin(q.promises, next.promises, Schedule(q, events).value.promises,
                if events[0].Submit? then [events[0].key] else [], Submissions(events[1..]));
    }
  }

  lemma TasksJoin(P: seq<Promise>, Q: seq<Promise>, R: seq<Promise>, first: seq<Key>, rest: seq<Key>)
    requires TasksFrom(Q, |P|, first) && TasksFrom(R, |Q|, rest)
    requires forall p :: 0 <= p < |Q| ==> R[p].key == Q[p].key && R[p].task == Q[p].task
    ensures TasksFrom(R, |P|, first + rest)
  {
    var keys := first + rest;
    forall k | 0 <= k < |keys|
      ensures TaskAt(R, |P| + 2 * k, keys[k])
    {
      if k < |first| {
        assert TaskAt(Q, |P| + 2 * k, first[k]);
      } else {
        assert TaskAt(R, |Q| + 2 * (k - |first|), rest[k - |first|]);
        assert |P| + 2 * k == |Q| + 2 * (k - |first|);
      }
    }
  }

  /** Over every schedule: the function of the k-th call is the 2k-th promise, under the key of the call, and nothing else
      runs a function. */
  lemma EveryCallIsATask(events: seq<Event>)
    requires Schedule(EMPTY, events).Some?
    ensures TasksFrom(Schedule(EMPTY, events).value.promises, 0, Submissions(events))
  {
    ScheduleAdds(EMPTY, events);
  }

  // ---------- One at a time, in order ----------

  lemma {:induction false} StepsInOrder(q: Queue, i: nat, j: nat)
    requires Inv(q) && i < j < |q.promises| && q.promises[i].key == q.promises[j].key && !q.promises[j].status.Pending?
    ensures Done(q.promises[i].status)
    decreases j
  {
    assert Linked(q.promises, j);
    var x := q.promises[j].parent;
    if x.Some? && i < x.value {
      StepsInOrder(q, i, x.value);
    }
  }

  /** Over every schedule: a task has started only if every task submitted before it under the same key has finished.
      So at most one task of a key runs at a time, and tasks start in the order of submission. */
  lemma OneAtATimeInOrder(events: seq<Event>, i: nat, j: nat)
    requires Schedule(EMPTY, events).Some?
    requires var P := Schedule(EMPTY, events).value.promises;
             i < j < |P| && P[i].key == P[j].key && P[i].task && P[j].task && !P[j].status.Pending?
    ensures Done(Schedule(EMPTY, events).value.promises[i].status)
  {
    ScheduleKeeps(EMPTY, events);
    StepsInOrder(Schedule(EMPTY, events).value, i, j);
  }

  // ---------- Failures stay where they are ----------

  lemma OneRejection(q: Queue, e: Event, p: nat)
    requires Inv(q) && Next(q, e).Some? && p < |Next(q, e).value.promises|
    requires Next(q, e).value.promises[p].status.Rejected?
    ensures e == Finish(p, false) || (p < |q.promises| && q.promises[p].status.Rejected?)
  {
  }

  /** A promise is rejected only by its own function: no later call inherits it. */
  lemma {:induction false} OnlyItsOwnFailure(q: Queue, events: seq<Event>, p: nat)
    requires Inv(q) && Schedule(q, events).Some? && p < |Schedule(q, events).value.promises|
    requires Schedule(q, events).value.promises[p].status.Rejected?
    ensures Finish(p, false) in events || (p < |q.promises| && q.promises[p].status.Rejected?)
    decreases |events|
  {
    if events != [] {
      var next := Next(q, events[0]).value;
      StepKeeps(q, events[0]);
      OnlyItsOwnFailure(next, events[1..], p);
      if p < |next.promises| && next.promises[p].status.Rejected? {
        OneRejection(q, events[0], p);
      }
    }
  }

  // ---------- Nothing blocks ----------

  /** How many steps a promise still has to take. */
  function StepsLeft(p: Promise): nat {
    if Done(p.status) then 0
    else if p.task && p.status.Pending? then 2
    else 1
  }

  function Remaining(P: seq<Promise>): nat {
    if P == [] then 0 else Remaining(P[..|P| - 1]) + StepsLeft(P[|P| - 1])
  }

  lemma {:induction false} RemainingAfter(P: seq<Promise>, p: nat, x: Promise)
    requires p < |P|
    ensures Remaining(P[p := x]) == Remaining(P) - StepsLeft(P[p]) + StepsLeft(x)
    decreases |P|
  {
    var n := |P| - 1;
    if p < n {
      RemainingAfter(P[..n], p, x);
      assert P[p := x][..n] == P[..n][p := x];
    } else {
      assert P[p := x][..n] == P[..n];
    }
  }

  predicate Concerns(q: Queue, e: Event, key: Key) {
    match e
    case Submit(k) => k == key
    case _ => e.p < |q.promises| && q.promises[e.p].key == key
  }

  /** While a promise has not settled, some step of its own key is possible: neither a failure nor a task of another key
      that never ends can block it. */
  lemma {:induction false} NothingBlocks(q: Queue, p: nat) returns (e: Event)
    requires Inv(q) && p < |q.promises| && !Done(q.promises[p].status)
    ensures !e.Submit? && Concerns(q, e, q.promises[p].key) && Next(q, e).Some?
    decreases p
  {
    assert Linked(q.promises, p);
    var promise := q.promises[p];
    if promise.parent.Some? && !Done(q.promises[promise.parent.value].status) {
      e := NothingBlocks(q, promise.parent.value);
    } else {
      e := if promise.status.Running? then Finish(p, true) else if promise.task then Start(p) else Swallow(p);
    }
  }

  lemma StepCounts(q: Queue, e: Event)
    requires Inv(q) && !e.Submit? && Next(q, e).Some?
    ensures Remaining(Next(q, e).value.promises) == Remaining(q.promises) - 1
  {
    var P := q.promises;
    assert Linked(P, e.p);
    match e
    case Start(p) => RemainingAfter(P, p, P[p].(status := Running));
    case Finish(p, ok) => RemainingAfter(P, p, P[p].(status := if ok then Fulfilled else Rejected));
    case Swallow(p) => RemainingAfter(P, p, P[p].(status := Fulfilled));
  }

  /** Without new submissions every schedule comes to an end, after the same number of steps whichever tasks fail; by
      NothingBlocks it ends with every promise settled. */
  lemma {:induction false} EveryScheduleDrains(q: Queue, events: seq<Event>)
    requires Inv(q) && (forall e :: e in events ==> !e.Submit?) && Schedule(q, events).Some?
    ensures |events| + Remaining(Schedule(q, events).value.promises) == Remaining(q.promises)
    decreases |events|
  {
    if events != [] {
      StepCounts(q, events[0]);
      StepKeeps(q, events[0]);
      EveryScheduleDrains(Next(q, events[0]).value, events[1..]);
    }
  }

  // ---------- Keys are independent ----------

  /** The same promises of one key, and the same tail. */
  ghost predicate SameFor(q: Queue, r: Queue, key: Key) {
    && Tail(q, key) == Tail(r, key)
    && |q.promises| <= |r.promises|
    && (forall p :: 0 <= p < |q.promises| && q.promises[p].key == key ==> r.promises[p] == q.promises[p])
    && (forall p :: 0 <= p < |q.promises| ==> r.promises[p].key == q.promises[p].key)
    && (forall p :: |q.promises| <= p < |r.promises| ==> r.promises[p].key != key)
  }

  lemma OtherKeyUntouched(q: Queue, e: Event, key: Key)
    requires Inv(q) && !Concerns(q, e, key) && Next(q, e).Some?
    ensures SameFor(q, Next(q, e).value, key)
  {
  }

  /** A step of one key neither changes what another key sees nor which of its steps are possible. */
  lemma KeysIndependent(q: Queue, e: Event, f: Event, key: Key)
    requires Inv(q) && !Concerns(q, e, key) && Next(q, e).Some?
    requires Concerns(q, f, key) && !f.Submit?
    ensures SameFor(q, Next(q, e).value, key)
    ensures Next(q, f).Some? <==> Next(Next(q, e).value, f).Some?
  {
    OtherKeyUntouched(q, e, key);
    var P, R := q.promises, Next(q, e).value.promises;
    assert Linked(P, f.p);
    assert R[f.p] == P[f.p];
    assert Settled(P, P[f.p].parent) == Settled(R, R[f.p].parent);
  }
}
