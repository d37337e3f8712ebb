/** The queue and the log together: calls of the append are submitted to the queue, and nothing but the queue keeps two
    calls of one company apart.

    Each call keeps its own entry between its start and its answer, and any number of calls of a company may run at
    once as far as the steps are concerned.  That never happens, so the log sees the runs of LogRuns.
 */
module QueuedAppends {
  import opened Bytes
  import opened RecordHash
  import opened Chain
  import opened Store
  import opened CheckpointLog
  import opened LogRuns
  import opened LogSafety
  import opened LogWorld
  import Q = KeyedQueue

  // ---------- State ----------

  /** A call that has sent its entry to the store and awaits the answer. */
  datatype Call = Call(p: nat, entry: Entry, committed: bool)

  /** A company's log, whose own field waiting is left to loading, and its running calls in the order of their start. */
  datatype Tenant = Tenant(log: Log, calls: seq<Call>)

  /** A call that returned its entry.  Calls are numbered anew in each epoch, the life of one process. */
  datatype Finished = Finished(company: Company, epoch: nat, p: nat, entry: Entry)

  datatype Service = Service(queue: Q.Queue, inputs: map<nat, Input>, tenants: map<Company, Tenant>, epoch: nat,
                             finished: seq<Finished>)

  const IDLE := Service(Q.EMPTY, map[], map[], 0, [])

  function TenantOf(sv: Service, c: Company): Tenant {
    if c in sv.tenants then sv.tenants[c] else Tenant(Start(NO_ROWS), [])
  }

  datatype ServiceEvent =
    | Submit(company: Company, input: Input)
    | StartCall(p: nat, now: int)
    | Answer(p: nat, ok: bool)
    | Swallow(p: nat)
    | Load(company: Company, event: Event)
    | Database(company: Company, event: Event)
    | PowerLoss

  // ---------- Steps of one company ----------

  function Find(calls: seq<Call>, p: nat): Option<Call> {
    if calls == [] then None
    else if calls[0].p == p then Some(calls[0])
    else Find(calls[1..], p)
  }

  function Drop(calls: seq<Call>, p: nat): seq<Call> {
    if calls == [] then []
    else if calls[0].p == p then calls[1..]
    else [calls[0]] + Drop(calls[1..], p)
  }

  /** The calls whose entry a transaction carries learn of its commit. */
  function Marked(calls: seq<Call>, txn: Txn): seq<Call> {
    seq(|calls|, i requires 0 <= i < |calls| => if Append(calls[i].entry) == txn then calls[i].(committed := true) else calls[i])
  }

  /** What the call computes from memory when it starts; None when it throws. */
  function EntryAt(s: System, t: Tenant, input: Input, now: int): Option<Entry> {
    if t.log.memory.None? then None else NextEntry(s, t.log.memory.value.records, input, now)
  }

  /** The begin step, whatever other calls are running. */
  function Started(t: Tenant, p: nat, e: Entry): Tenant {
    Tenant(t.log.(inFlight := t.log.inFlight + {Append(e)}), t.calls + [Call(p, e, false)])
  }

  /** chain.push: refuses a record whose index is not the length of memory. */
  function Pushed(t: Tenant, call: Call): Option<Tenant> {
    if t.log.memory.None? || call.entry.record.index != IndexNum(|t.log.memory.value.records|) then None
    else
      var m := t.log.memory.value;
      Some(Tenant(t.log.(memory := Some(m.(records := m.records + [call.entry.record], latest := Some(call.entry.head)))),
                  Drop(t.calls, call.p)))
  }

  /** It refuses exactly a record that does not come next. */
  lemma PushedExactly(t: Tenant, call: Call)
    ensures Pushed(t, call).Some? <==> t.log.memory.Some? && call.entry.record.index == IndexNum(|t.log.memory.value.records|)
    ensures Pushed(t, call).Some? ==>
              && Pushed(t, call).value.log.tables == t.log.tables
              && Pushed(t, call).value.log.memory.value.records == t.log.memory.value.records + [call.entry.record]
  {
  }

  function AfterDatabase(s: System, t: Tenant, e: Event): Option<Tenant> {
    match e
    case Commit(txn) =>
      (match AfterCommit(t.log, txn)
       case None => None
       case Some(l) => Some(Tenant(l, Marked(t.calls, txn))))
    case Abort(_) =>
      (match Next(s, t.log, e)
       case None => None
       case Some(l) => Some(Tenant(l, t.calls)))
    case _ => None
  }

  function AfterLoad(s: System, t: Tenant, e: Event): Option<Tenant> {
    if !e.BootRead? && !e.BootCheck? && !e.AnswerOk? && !e.AnswerError? then None
    else
      match Next(s, t.log, e)
      case None => None
      case Some(l) => Some(Tenant(l, t.calls))
  }

  // ---------- Steps of the service ----------

  function With(sv: Service, queue: Q.Queue, c: Company, t: Tenant): Service {
    sv.(queue := queue, tenants := sv.tenants[c := t])
  }

  /** Only a company that is loaded has requests. */
  function AfterSubmit(sv: Service, c: Company, input: Input): Option<Service> {
    if TenantOf(sv, c).log.memory.None? then None
    else Some(sv.(queue := Q.Submitted(sv.queue, c), inputs := sv.inputs[|sv.queue.promises| := input]))
  }

  function AfterStart(s: System, sv: Service, p: nat, now: int): Option<Service> {
    match Q.Next(sv.queue, Q.Start(p))
    case None => None
    case Some(queue) =>
      if p !in sv.inputs then None
      else
        var c := sv.queue.promises[p].key;
        match EntryAt(s, TenantOf(sv, c), sv.inputs[p], now)
        case None => Some(sv.(queue := queue))
        case Some(e) => Some(With(sv, queue, c, Started(TenantOf(sv, c), p, e)))
  }

  function Finish(sv: Service, p: nat, ok: bool, t: Tenant): Option<Service>
    requires p < |sv.queue.promises|
  {
    match Q.Next(sv.queue, Q.Finish(p, ok))
    case None => None
    case Some(queue) => Some(With(sv, queue, sv.queue.promises[p].key, t))
  }

  /** A call returns only once its own entry is committed and pushed; it may throw at any time. */
  function AfterAnswer(sv: Service, p: nat, ok: bool): Option<Service> {
    if p >= |sv.queue.promises| then None
    else
      var c := sv.queue.promises[p].key;
      var t := TenantOf(sv, c);
      var call := Find(t.calls, p);
      if !ok then Finish(sv, p, false, t.(calls := Drop(t.calls, p)))
      else if call.None? || !call.value.committed then None
      else
        match Pushed(t, call.value)
        case None => Finish(sv, p, false, t.(calls := Drop(t.calls, p)))
        case Some(t') =>
          match Finish(sv, p, true, t')
          case None => None
          case Some(next) => Some(next.(finished := sv.finished + [Finished(c, sv.epoch, p, call.value.entry)]))
  }

  function NextService(s: System, sv: Service, e: ServiceEvent): Option<Service> {
    match e
    case Submit(c, input) => AfterSubmit(sv, c, input)
    case StartCall(p, now) => AfterStart(s, sv, p, now)
    case Answer(p, ok) => AfterAnswer(sv, p, ok)
    case Swallow(p) =>
      (match Q.Next(sv.queue, Q.Swallow(p))
       case None => None
       case Some(queue) => Some(sv.(queue := queue)))
    case Load(c, event) =>
      (match AfterLoad(s, TenantOf(sv, c), event)
       case None => None
       case Some(t) => Some(With(sv, sv.queue, c, t)))
    case Database(c, event) =>
      (match AfterDatabase(s, TenantOf(sv, c), event)
       case None => None
       case Some(t) => Some(With(sv, sv.queue, c, t)))
    case PowerLoss =>
      Some(Service(Q.EMPTY, map[], map c | c in sv.tenants :: Tenant(Crashed(sv.tenants[c].log), []), sv.epoch + 1, sv.finished))
  }

  function Serve(s: System, sv: Service, events: seq<ServiceEvent>): Option<Service>
    decreases |events|
  {
    if events == [] then Some(sv)
    else
      match NextService(s, sv, events[0])
      case None => None
      case Some(next) => Serve(s, next, events[1..])
  }

  // ---------- What the log sees ----------

  /** The log with the first running call for the one that waits. */
  function View(t: Tenant): Log {
    if t.calls == [] then t.log
    else t.log.(waiting := Some(Waiting(Append(t.calls[0].entry), t.calls[0].committed)))
  }

  /** What a step of the service is for one company. */
  datatype Part =
    | Nothing
    | Begins(p: nat, input: Input, now: int, entry: Entry)
    | Returns(call: Call)
    | Throws(call: Call)
    | Stores(event: Event)
    | Loads(event: Event)
    | Crashes

  function PartOf(s: System, sv: Service, e: ServiceEvent, c: Company): Part {
    match e
    case Submit(_, _) => Nothing
    case Swallow(_) => Nothing
    case StartCall(p, now) =>
      if p < |sv.queue.promises| && p in sv.inputs && sv.queue.promises[p].key == c
         && EntryAt(s, TenantOf(sv, c), sv.inputs[p], now).Some?
      then Begins(p, sv.inputs[p], now, EntryAt(s, TenantOf(sv, c), sv.inputs[p], now).value) else Nothing
    case Answer(p, ok) =>
      if p < |sv.queue.promises| && sv.queue.promises[p].key == c && Find(TenantOf(sv, c).calls, p).Some?
      then if ok then Returns(Find(TenantOf(sv, c).calls, p).value) else Throws(Find(TenantOf(sv, c).calls, p).value)
      else Nothing
    case Load(d, event) => if c == d then Loads(event) else Nothing
    case Database(d, event) => if c == d then Stores(event) else Nothing
    case PowerLoss => Crashes
  }

  /** The step of the company's log. */
  function EventsOf(part: Part): seq<Event> {
    match part
    case Nothing => []
    case Begins(_, input, now, _) => [Begin(input, now)]
    case Returns(_) => [AnswerOk]
    case Throws(_) => [AnswerError]
    case Stores(event) => [event]
    case Loads(event) => [event]
    case Crashes => [Crash]
  }

  function SeenStep(s: System, sv: Service, e: ServiceEvent, c: Company): seq<Event> {
    EventsOf(PartOf(s, sv, e, c))
  }

  function SeenBy(s: System, sv: Service, events: seq<ServiceEvent>, c: Company): seq<Event>
    decreases |events|
  {
    if events == [] then []
    else
      match NextService(s, sv, events[0])
      case None => []
      case Some(next) => SeenStep(s, sv, events[0], c) + SeenBy(s, next, events[1..], c)
  }

  // ---------- The invariant ----------

  /** At most one call of the company runs, as the queue knows; and the company is loaded while it has promises. */
  ghost predicate QueueSide(queue: Q.Queue, t: Tenant, c: Company) {
    && Q.Inv(queue)
    && |t.calls| <= 1
    && (t.calls != [] ==> IsRunning(queue, t.calls[0].p, c))
    && (forall p :: 0 <= p < |queue.promises| && queue.promises[p].key == c ==> t.log.memory.Some?)
  }

  predicate IsRunning(queue: Q.Queue, p: nat, c: Company) {
    p < |queue.promises| && queue.promises[p].key == c && queue.promises[p].task && queue.promises[p].status.Running?
  }

  ghost predicate LogSide(s: System, t: Tenant) {
    && Sound(s, View(t))
    && (t.log.waiting.Some? ==> t.log.waiting.value.txn.Anchor? && t.calls == [])
  }

  // ---------- The queue keeps calls apart ----------

  /** While a function of a key runs, none other of the key does. */
  lemma OneRunning(queue: Q.Queue, p: nat, p': nat, c: Company)
    requires Q.Inv(queue) && IsRunning(queue, p, c) && IsRunning(queue, p', c)
    ensures p == p'
  {
    if p < p' {
      Q.StepsInOrder(queue, p, p');
    } else if p' < p {
      Q.StepsInOrder(queue, p', p);
    }
  }

  /** And none runs where one can be started. */
  lemma NoneRunningAtStart(queue: Q.Queue, p: nat, p': nat, c: Company)
    requires Q.Inv(queue) && Q.Next(queue, Q.Start(p)).Some? && queue.promises[p].key == c
    ensures !IsRunning(queue, p', c)
  {
    if IsRunning(queue, p', c) {
      var after := Q.Next(queue, Q.Start(p)).value;
      Q.StepKeeps(queue, Q.Start(p));
      OneRunning(after, p, p', c);
    }
  }

  // ---------- Every step of a company's log ----------

  lemma StartIsBegin(s: System, t: Tenant, p: nat, input: Input, now: int, e: Entry)
    requires LogSide(s, t) && t.calls == [] && EntryAt(s, t, input, now) == Some(e)
    ensures t.log.waiting.None?
    ensures Next(s, View(t), Begin(input, now)) == Some(View(Started(t, p, e)))
  {
    BeginSends(s, View(t), input, now, e);
  }

  lemma AnswerIsAnswer(s: System, t: Tenant, call: Call)
    requires LogSide(s, t) && t.calls == [call] && call.committed
    ensures Pushed(t, call).Some? && Next(s, View(t), AnswerOk) == Some(View(Pushed(t, call).value))
    ensures t.log.memory.Some? && call.entry.head.treeSize == |t.log.memory.value.records| + 1
    ensures call.entry.record.index == IndexNum(call.entry.head.treeSize - 1)
  {
    assert WaitingSound(s, Rows(t.log.tables), View(t), View(t).waiting.value);
    assert Drop(t.calls, call.p) == [];
  }

  lemma ThrowIsError(s: System, t: Tenant, call: Call)
    requires LogSide(s, t) && t.calls == [call]
    ensures Next(s, View(t), AnswerError) == Some(View(t.(calls := Drop(t.calls, call.p))))
  {
    assert WaitingSound(s, Rows(t.log.tables), View(t), View(t).waiting.value);
    assert Drop(t.calls, call.p) == [];
  }

  lemma DatabaseIsStep(s: System, t: Tenant, e: Event)
    requires LogSide(s, t) && |t.calls| <= 1 && AfterDatabase(s, t, e).Some?
    ensures Next(s, View(t), e) == Some(View(AfterDatabase(s, t, e).value))
  {
    if t.calls != [] {
      assert WaitingSound(s, Rows(t.log.tables), View(t), View(t).waiting.value);
    }
  }

  /** Loading and running calls exclude each other. */
  lemma LoadIsStep(s: System, t: Tenant, e: Event)
    requires LogSide(s, t) && AfterLoad(s, t, e).Some?
    ensures t.calls == [] && Next(s, View(t), e) == Some(View(AfterLoad(s, t, e).value))
  {
  }

  lemma SidesKept(s: System, t: Tenant, e: Event, t': Tenant)
    requires CanSign(s) && LogSide(s, t) && Next(s, View(t), e) == Some(View(t'))
    requires t'.log.waiting.Some? ==> t'.log.waiting.value.txn.Anchor? && t'.calls == []
    ensures LogSide(s, t') && Run(s, View(t), [e]) == Some(View(t'))
  {
    StepSound(s, View(t), e);
    RunOne(s, View(t), e);
  }

  // ---------- Every step of the service, seen from the queue ----------

  /** The tenant after its part; None when the part is not possible. */
  function Applied(s: System, t: Tenant, part: Part): Option<Tenant> {
    match part
    case Nothing => Some(t)
    case Begins(p, input, now, e) => if EntryAt(s, t, input, now) == Some(e) then Some(Started(t, p, e)) else None
    case Returns(call) =>
      if !call.committed then None
      else if Pushed(t, call).Some? then Pushed(t, call) else Some(t.(calls := Drop(t.calls, call.p)))
    case Throws(call) => Some(t.(calls := Drop(t.calls, call.p)))
    case Stores(event) => AfterDatabase(s, t, event)
    case Loads(event) => AfterLoad(s, t, event)
    case Crashes => Some(Tenant(Crashed(t.log), []))
  }

  /** What the queue guarantees of a part. */
  predicate Alone(t: Tenant, part: Part) {
    match part
    case Begins(_, _, _, _) => t.calls == []
    case Returns(call) => t.calls == [call]
    case Throws(call) => t.calls == [call]
    case _ => |t.calls| <= 1
  }

  /** Each company's part of a step is one that its queue keeps apart from its other calls. */
  ghost predicate PartAlone(s: System, sv: Service, e: ServiceEvent, c: Company) {
    match NextService(s, sv, e)
    case None => true
    case Some(after) =>
      var t, part := TenantOf(sv, c), PartOf(s, sv, e, c);
      && QueueSide(after.queue, TenantOf(after, c), c)
      && Alone(t, part) && Applied(s, t, part) == Some(TenantOf(after, c))
  }

  /** A step of the queue that leaves the company's running call alone. */
  lemma QueueAdvances(queue: Q.Queue, e: Q.Event, t: Tenant, c: Company)
    requires QueueSide(queue, t, c) && !e.Submit? && Q.Next(queue, e).Some?
    requires t.calls != [] ==> t.calls[0].p != e.p
    ensures QueueSide(Q.Next(queue, e).value, t, c)
  {
    Q.StepKeeps(queue, e);
  }

  lemma SubmitPart(s: System, sv: Service, c: Company, d: Company, input: Input)
    requires QueueSide(sv.queue, TenantOf(sv, c), c)
    ensures PartAlone(s, sv, Submit(d, input), c)
  {
    Q.SubmitKeeps(sv.queue, d);
  }

  lemma SwallowPart(s: System, sv: Service, c: Company, p: nat)
    requires QueueSide(sv.queue, TenantOf(sv, c), c)
    ensures PartAlone(s, sv, Swallow(p), c)
  {
    if Q.Next(sv.queue, Q.Swallow(p)).Some? {
      QueueAdvances(sv.queue, Q.Swallow(p), TenantOf(sv, c), c);
    }
  }

  lemma QueueStarts(queue: Q.Queue, p: nat, t: Tenant, c: Company)
    requires QueueSide(queue, t, c) && Q.Next(queue, Q.Start(p)).Some?
    ensures QueueSide(Q.Next(queue, Q.Start(p)).value, t, c)
    ensures queue.promises[p].key == c ==> t.calls == [] && t.log.memory.Some? && IsRunning(Q.Next(queue, Q.Start(p)).value, p, c)
  {
    if t.calls != [] && queue.promises[p].key == c {
      NoneRunningAtStart(queue, p, t.calls[0].p, c);
    }
    QueueAdvances(queue, Q.Start(p), t, c);
  }

  lemma StartedSide(queue: Q.Queue, t: Tenant, p: nat, e: Entry, c: Company)
    requires QueueSide(queue, t, c) && t.calls == [] && t.log.memory.Some? && IsRunning(queue, p, c)
    ensures QueueSide(queue, Started(t, p, e), c)
  {
  }

  lemma StartApplied(s: System, sv: Service, c: Company, p: nat, now: int)
    requires AfterStart(s, sv, p, now).Some?
    ensures var after, part := AfterStart(s, sv, p, now).value, PartOf(s, sv, StartCall(p, now), c);
            && Q.Next(sv.queue, Q.Start(p)) == Some(after.queue)
            && (part.Nothing? || (part.Begins? && part.p == p && sv.queue.promises[p].key == c))
            && Applied(s, TenantOf(sv, c), part) == Some(TenantOf(after, c))
  {
  }

  lemma StartPart(s: System, sv: Service, c: Company, p: nat, now: int)
    requires QueueSide(sv.queue, TenantOf(sv, c), c)
    ensures PartAlone(s, sv, StartCall(p, now), c)
  {
    if AfterStart(s, sv, p, now).Some? {
      var part := PartOf(s, sv, StartCall(p, now), c);
      QueueStarts(sv.queue, p, TenantOf(sv, c), c);
      StartApplied(s, sv, c, p, now);
      if part.Begins? {
        StartedSide(Q.Next(sv.queue, Q.Start(p)).value, TenantOf(sv, c), p, part.entry, c);
      }
    }
  }

  lemma QueueFinishes(queue: Q.Queue, p: nat, ok: bool, t: Tenant, t': Tenant, c: Company)
    requires QueueSide(queue, t, c) && Q.Next(queue, Q.Finish(p, ok)).Some?
    requires queue.promises[p].key == c ==> t'.calls == Drop(t.calls, p) && (t.log.memory.Some? ==> t'.log.memory.Some?)
    requires queue.promises[p].key != c ==> t' == t
    ensures QueueSide(Q.Next(queue, Q.Finish(p, ok)).value, t', c)
    ensures queue.promises[p].key == c && Find(t.calls, p).None? ==> t.calls == []
    ensures queue.promises[p].key == c && Find(t.calls, p).Some? ==> t.calls == [Find(t.calls, p).value]
  {
    assert Q.Linked(queue.promises, p);
    Q.StepKeeps(queue, Q.Finish(p, ok));
    if t.calls != [] && queue.promises[p].key == c {
      OneRunning(queue, p, t.calls[0].p, c);
      assert t.calls == [t.calls[0]];
    }
  }

  lemma FindHasP(calls: seq<Call>, p: nat)
    requires Find(calls, p).Some?
    ensures Find(calls, p).value.p == p
  {
  }

  lemma AnswerApplied(s: System, sv: Service, c: Company, p: nat, ok: bool)
    requires AfterAnswer(sv, p, ok).Some?
    requires sv.queue.promises[p].key == c && Find(TenantOf(sv, c).calls, p).None? ==> TenantOf(sv, c).calls == []
    ensures Applied(s, TenantOf(sv, c), PartOf(s, sv, Answer(p, ok), c)) == Some(TenantOf(AfterAnswer(sv, p, ok).value, c))
  {
    if Find(TenantOf(sv, c).calls, p).Some? {
      FindHasP(TenantOf(sv, c).calls, p);
    }
  }

  lemma AnswerFinishes(sv: Service, c: Company, p: nat, ok: bool) returns (settled: bool)
    requires AfterAnswer(sv, p, ok).Some?
    ensures var t, t' := TenantOf(sv, c), TenantOf(AfterAnswer(sv, p, ok).value, c);
            && Q.Next(sv.queue, Q.Finish(p, settled)) == Some(AfterAnswer(sv, p, ok).value.queue)
            && (sv.queue.promises[p].key == c ==> t'.calls == Drop(t.calls, p) && (t.log.memory.Some? ==> t'.log.memory.Some?))
            && (sv.queue.promises[p].key != c ==> t' == t)
  {
    var t := TenantOf(sv, sv.queue.promises[p].key);
    settled := ok && Pushed(t, Find(t.calls, p).value).Some?;
    if ok {
      FindHasP(t.calls, p);
    }
  }

  lemma AnswerPart(s: System, sv: Service, c: Company, p: nat, ok: bool)
    requires QueueSide(sv.queue, TenantOf(sv, c), c) && AfterAnswer(sv, p, ok).Some?
    ensures PartAlone(s, sv, Answer(p, ok), c)
  {
    var settled := AnswerFinishes(sv, c, p, ok);
    QueueFinishes(sv.queue, p, settled, TenantOf(sv, c), TenantOf(AfterAnswer(sv, p, ok).value, c), c);
    AnswerApplied(s, sv, c, p, ok);
  }

  /** What the queue side of a tenant depends on. */
  lemma SameCalls(queue: Q.Queue, t: Tenant, t': Tenant, c: Company)
    requires QueueSide(queue, t, c) && |t'.calls| == |t.calls| && (t.calls != [] ==> t'.calls[0].p == t.calls[0].p)
    requires t.log.memory.Some? ==> t'.log.memory.Some?
    ensures QueueSide(queue, t', c)
  {
  }

  lemma DatabaseKeepsCalls(s: System, t: Tenant, e: Event)
    requires AfterDatabase(s, t, e).Some?
    ensures var t' := AfterDatabase(s, t, e).value;
            && |t'.calls| == |t.calls| && (forall i :: 0 <= i < |t.calls| ==> t'.calls[i].p == t.calls[i].p)
            && t'.log.memory == t.log.memory
            && (t'.log.waiting.Some? <==> t.log.waiting.Some?)
            && (t.log.waiting.Some? ==> t'.log.waiting.value.txn == t.log.waiting.value.txn)
  {
  }

  lemma DatabasePart(s: System, sv: Service, c: Company, d: Company, event: Event)
    requires QueueSide(sv.queue, TenantOf(sv, c), c)
    ensures PartAlone(s, sv, Database(d, event), c)
  {
    var t := TenantOf(sv, d);
    if AfterDatabase(s, t, event).Some? && c == d {
      DatabaseKeepsCalls(s, t, event);
      SameCalls(sv.queue, t, AfterDatabase(s, t, event).value, c);
    }
  }

  lemma LoadKeepsCalls(s: System, t: Tenant, e: Event)
    requires AfterLoad(s, t, e).Some?
    ensures AfterLoad(s, t, e).value.calls == t.calls
    ensures t.log.memory.Some? ==> AfterLoad(s, t, e).value.log.memory.Some?
  {
  }

  lemma LoadPart(s: System, sv: Service, c: Company, d: Company, event: Event)
    requires QueueSide(sv.queue, TenantOf(sv, c), c)
    ensures PartAlone(s, sv, Load(d, event), c)
  {
    var t := TenantOf(sv, d);
    if AfterLoad(s, t, event).Some? && c == d {
      LoadKeepsCalls(s, t, event);
      SameCalls(sv.queue, t, AfterLoad(s, t, event).value, c);
    }
  }

  lemma ServicePart(s: System, sv: Service, e: ServiceEvent, c: Company)
    requires QueueSide(sv.queue, TenantOf(sv, c), c)
    ensures PartAlone(s, sv, e, c)
  {
    match e
    case Submit(d, input) => SubmitPart(s, sv, c, d, input);
    case StartCall(p, now) => StartPart(s, sv, c, p, now);
    case Answer(p, ok) =>
      if AfterAnswer(sv, p, ok).Some? {
        AnswerPart(s, sv, c, p, ok);
      }
    case Swallow(p) => SwallowPart(s, sv, c, p);
    case Load(d, event) => LoadPart(s, sv, c, d, event);
    case Database(d, event) => DatabasePart(s, sv, c, d, event);
    case PowerLoss =>
  }

  // ---------- Every step of the service, seen from the log ----------

  /** A part that is a step of the log, after which only the head of a load is awaited. */
  ghost predicate StepsAs(s: System, t: Tenant, part: Part)
    requires !part.Nothing? && Applied(s, t, part).Some?
  {
    var t' := Applied(s, t, part).value;
    && Next(s, View(t), EventsOf(part)[0]) == Some(View(t'))
    && (t'.log.waiting.Some? ==> t'.log.waiting.value.txn.Anchor? && t'.calls == [])
  }

  lemma BeginsStep(s: System, t: Tenant, p: nat, input: Input, now: int, e: Entry)
    requires LogSide(s, t) && t.calls == [] && EntryAt(s, t, input, now) == Some(e)
    ensures StepsAs(s, t, Begins(p, input, now, e))
  {
    StartIsBegin(s, t, p, input, now, e);
  }

  lemma ReturnsStep(s: System, t: Tenant, call: Call)
    requires LogSide(s, t) && t.calls == [call] && call.committed
    ensures StepsAs(s, t, Returns(call))
  {
    AnswerIsAnswer(s, t, call);
  }

  lemma ThrowsStep(s: System, t: Tenant, call: Call)
    requires LogSide(s, t) && t.calls == [call]
    ensures StepsAs(s, t, Throws(call))
  {
    ThrowIsError(s, t, call);
  }

  lemma StoresStep(s: System, t: Tenant, event: Event)
    requires LogSide(s, t) && |t.calls| <= 1 && Applied(s, t, Stores(event)).Some?
    ensures StepsAs(s, t, Stores(event))
  {
    DatabaseIsStep(s, t, event);
    StoredStillWaits(s, t, event);
  }

  lemma StoredStillWaits(s: System, t: Tenant, event: Event)
    requires AfterDatabase(s, t, event).Some? && Next(s, View(t), event) == Some(View(AfterDatabase(s, t, event).value))
    requires t.log.waiting.Some? ==> t.log.waiting.value.txn.Anchor? && t.calls == []
    ensures StepsAs(s, t, Stores(event))
  {
    DatabaseKeepsCalls(s, t, event);
  }

  lemma LoadsStep(s: System, t: Tenant, event: Event)
    requires LogSide(s, t) && AfterLoad(s, t, event).Some?
    ensures StepsAs(s, t, Loads(event))
  {
    LoadIsStep(s, t, event);
  }

  lemma CrashStep(s: System, t: Tenant)
    ensures StepsAs(s, t, Crashes)
  {
  }

  lemma PartIsStep(s: System, t: Tenant, part: Part)
    requires LogSide(s, t) && Alone(t, part) && !part.Nothing? && Applied(s, t, part).Some?
    ensures StepsAs(s, t, part)
  {
    match part
    case Begins(p, input, now, e) => BeginsStep(s, t, p, input, now, e);
    case Returns(call) => ReturnsStep(s, t, call);
    case Throws(call) => ThrowsStep(s, t, call);
    case Stores(event) => StoresStep(s, t, event);
    case Loads(event) => LoadsStep(s, t, event);
    case Crashes => CrashStep(s, t);
  }

  lemma PartRuns(s: System, t: Tenant, part: Part)
    requires CanSign(s) && LogSide(s, t) && Alone(t, part) && Applied(s, t, part).Some?
    ensures LogSide(s, Applied(s, t, part).value)
    ensures Run(s, View(t), EventsOf(part)) == Some(View(Applied(s, t, part).value))
  {
    if !part.Nothing? {
      PartIsStep(s, t, part);
      SidesKept(s, t, EventsOf(part)[0], Applied(s, t, part).value);
      assert EventsOf(part) == [EventsOf(part)[0]];
    }
  }

  // ---------- Every schedule ----------

  ghost predicate Good(s: System, sv: Service, c: Company) {
    QueueSide(sv.queue, TenantOf(sv, c), c) && LogSide(s, TenantOf(sv, c))
  }

  /** Over every schedule, what a company's log sees of the calls is a run of the log: the queue alone keeps the calls
      apart, although none of its own steps does. */
  lemma {:induction false} CallsAreRuns(s: System, sv: Service, events: seq<ServiceEvent>, c: Company)
    requires CanSign(s) && Good(s, sv, c) && Serve(s, sv, events).Some?
    ensures Good(s, Serve(s, sv, events).value, c)
    ensures Run(s, View(TenantOf(sv, c)), SeenBy(s, sv, events, c)) == Some(View(TenantOf(Serve(s, sv, events).value, c)))
    decreases |events|
  {
    if events != [] {
      var next, t := NextService(s, sv, events[0]).value, TenantOf(sv, c);
      ServicePart(s, sv, events[0], c);
      PartRuns(s, t, PartOf(s, sv, events[0], c));
      CallsAreRuns(s, next, events[1..], c);
      Composes(s, View(t), SeenStep(s, sv, events[0], c), View(TenantOf(next, c)), SeenBy(s, next, events[1..], c));
    }
  }

  lemma IdleGood(s: System, c: Company)
    ensures Good(s, IDLE, c) && View(TenantOf(IDLE, c)) == Start(NO_ROWS)
  {
    StartSound(s, NO_ROWS);
  }

  /** From an empty queue and an empty database: each company's log is the end of a run of its own. */
  lemma QueuedAppendsAreRuns(s: System, events: seq<ServiceEvent>, c: Company)
    requires CanSign(s) && Serve(s, IDLE, events).Some?
    ensures Run(s, Start(NO_ROWS), SeenBy(s, IDLE, events, c)) == Some(View(TenantOf(Serve(s, IDLE, events).value, c)))
    ensures |TenantOf(Serve(s, IDLE, events).value, c).calls| <= 1
  {
    IdleGood(s, c);
    CallsAreRuns(s, IDLE, events, c);
  }

  /** Whenever a call starts, its company's log awaits nothing. */
  lemma NothingAwaitedAtStart(s: System, events: seq<ServiceEvent>, p: nat, now: int)
    requires CanSign(s) && Serve(s, IDLE, events).Some? && AfterStart(s, Serve(s, IDLE, events).value, p, now).Some?
    ensures var sv := Serve(s, IDLE, events).value;
            var t := TenantOf(sv, sv.queue.promises[p].key);
            t.calls == [] && View(t).waiting.None? && t.log.memory.Some?
  {
    var sv := Serve(s, IDLE, events).value;
    var c := sv.queue.promises[p].key;
    IdleGood(s, c);
    CallsAreRuns(s, IDLE, events, c);
    QueueStarts(sv.queue, p, TenantOf(sv, c), c);
    LoadedAwaitsNothing(s, TenantOf(sv, c));
  }

  lemma LoadedAwaitsNothing(s: System, t: Tenant)
    requires LogSide(s, t) && t.calls == [] && t.log.memory.Some?
    ensures View(t).waiting.None?
  {
  }

  // ---------- Indices increase in the order of submission ----------

  predicate Within(finished: seq<Finished>, c: Company, n: int) {
    forall i :: 0 <= i < |finished| && finished[i].company == c ==> 1 <= finished[i].entry.head.treeSize <= n
  }

  /** Every size that memory, a load or the store has is at least that of every finished call. */
  ghost predicate Behind(finished: seq<Finished>, c: Company, l: Log) {
    && Within(finished, c, |l.tables.records|)
    && (l.memory.Some? ==> Within(finished, c, |l.memory.value.records|))
    && (l.boot.Some? ==> Within(finished, c, |l.boot.value.records|))
  }

  predicate Settled(queue: Q.Queue, epoch: nat, f: Finished) {
    && f.epoch <= epoch
    && (f.epoch == epoch ==> f.p < |queue.promises| && queue.promises[f.p].key == f.company && Q.Done(queue.promises[f.p].status))
  }

  /** Submitted earlier, and with the smaller index and tree size. */
  predicate Earlier(f: Finished, g: Finished) {
    && (f.epoch < g.epoch || (f.epoch == g.epoch && f.p < g.p))
    && f.entry.head.treeSize < g.entry.head.treeSize
  }

  ghost predicate InOrder(finished: seq<Finished>, c: Company) {
    && (forall i, j :: 0 <= i < j < |finished| && finished[i].company == c && finished[j].company == c ==> Earlier(finished[i], finished[j]))
    && (forall i :: 0 <= i < |finished| && finished[i].company == c ==>
                      finished[i].entry.head.treeSize >= 1
                      && finished[i].entry.record.index == IndexNum(finished[i].entry.head.treeSize - 1))
  }

  ghost predicate OrderSide(sv: Service, c: Company) {
    && Behind(sv.finished, c, TenantOf(sv, c).log)
    && (forall i :: 0 <= i < |sv.finished| && sv.finished[i].company == c ==> Settled(sv.queue, sv.epoch, sv.finished[i]))
    && InOrder(sv.finished, c)
  }

  lemma PartBehind(s: System, t: Tenant, part: Part, finished: seq<Finished>, c: Company)
    requires LogSide(s, t) && Alone(t, part) && Applied(s, t, part).Some? && Behind(finished, c, t.log)
    ensures Behind(finished, c, Applied(s, t, part).value.log)
  {
    match part
    case Stores(event) => StoreBehind(s, t, event, finished, c);
    case Loads(event) => LoadBehind(s, t, event, finished, c);
    case _ =>
  }

  lemma WithinMore(finished: seq<Finished>, c: Company, n: int, m: int)
    requires Within(finished, c, n) && n <= m
    ensures Within(finished, c, m)
  {
  }

  lemma StoreBehind(s: System, t: Tenant, e: Event, finished: seq<Finished>, c: Company)
    requires LogSide(s, t) && |t.calls| <= 1 && AfterDatabase(s, t, e).Some? && Behind(finished, c, t.log)
    ensures Behind(finished, c, AfterDatabase(s, t, e).value.log)
  {
    if e.Commit? {
      CommittedTables(s, t.log.tables, e.txn);
      WithinMore(finished, c, |t.log.tables.records|, |AfterDatabase(s, t, e).value.log.tables.records|);
    }
  }

  lemma LoadBehind(s: System, t: Tenant, e: Event, finished: seq<Finished>, c: Company)
    requires LogSide(s, t) && AfterLoad(s, t, e).Some? && Behind(finished, c, t.log)
    ensures Behind(finished, c, AfterLoad(s, t, e).value.log)
  {
    LoadIsStep(s, t, e);
    if e.BootRead? {
      AllRecordsOfGapless(t.log.tables, |t.log.tables.records|);
    }
  }

  /** A call that returns was submitted after all calls of its company that have returned. */
  lemma ReturnInOrder(call: Call, queue: Q.Queue, epoch: nat, finished: seq<Finished>, c: Company, n: int)
    requires Q.Inv(queue) && IsRunning(queue, call.p, c) && Within(finished, c, n) && InOrder(finished, c)
    requires n >= 0 && call.entry.head.treeSize == n + 1 && call.entry.record.index == IndexNum(n)
    requires forall i :: 0 <= i < |finished| && finished[i].company == c ==> Settled(queue, epoch, finished[i])
    ensures InOrder(finished + [Finished(c, epoch, call.p, call.entry)], c)
  {
    var more := finished + [Finished(c, epoch, call.p, call.entry)];
    forall i | 0 <= i < |finished| && finished[i].company == c
      ensures Earlier(finished[i], more[|finished|])
    {
      assert Settled(queue, epoch, finished[i]);
      if finished[i].epoch == epoch && finished[i].p > call.p {
        Q.StepsInOrder(queue, call.p, finished[i].p);
      }
    }
  }

  lemma PushedWithinStore(s: System, t: Tenant, call: Call)
    requires LogSide(s, t) && t.calls == [call] && call.committed
    ensures Pushed(t, call).Some? && |Pushed(t, call).value.log.memory.value.records| <= |t.log.tables.records|
    ensures t.log.boot.None?
  {
    AnswerIsAnswer(s, t, call);
    assert WaitingSound(s, Rows(t.log.tables), View(t), View(t).waiting.value);
  }

  lemma ReturnBehind(s: System, t: Tenant, call: Call, f: Finished, finished: seq<Finished>, c: Company)
    requires LogSide(s, t) && t.calls == [call] && call.committed && Behind(finished, c, t.log) && f.entry == call.entry
    ensures Pushed(t, call).Some? && Behind(finished + [f], c, Pushed(t, call).value.log)
  {
    AnswerIsAnswer(s, t, call);
    PushedWithinStore(s, t, call);
  }

  /** Promises stay, and so does what has settled. */
  ghost predicate Kept(queue: Q.Queue, after: Q.Queue) {
    && |queue.promises| <= |after.promises|
    && forall p :: 0 <= p < |queue.promises| ==>
         after.promises[p].key == queue.promises[p].key
         && (Q.Done(queue.promises[p].status) ==> Q.Done(after.promises[p].status))
  }

  lemma QueueStepKept(queue: Q.Queue, e: Q.Event)
    requires Q.Next(queue, e).Some?
    ensures Kept(queue, Q.Next(queue, e).value)
  {
  }

  /** The step of the queue, if there is one. */
  lemma QueueStep(s: System, sv: Service, e: ServiceEvent) returns (step: Option<Q.Event>)
    requires NextService(s, sv, e).Some? && !e.PowerLoss?
    ensures var after := NextService(s, sv, e).value;
            && after.epoch == sv.epoch
            && (step.None? ==> after.queue == sv.queue)
            && (step.Some? ==> Q.Next(sv.queue, step.value) == Some(after.queue))
  {
    match e
    case Submit(c, _) => step := Some(Q.Submit(c));
    case StartCall(p, _) => step := Some(Q.Start(p));
    case Answer(p, ok) =>
      var settled := AnswerFinishes(sv, sv.queue.promises[p].key, p, ok);
      step := Some(Q.Finish(p, settled));
    case Swallow(p) => step := Some(Q.Swallow(p));
    case Load(_, _) => step := None;
    case Database(_, _) => step := None;
  }

  lemma QueueKept(s: System, sv: Service, e: ServiceEvent)
    requires NextService(s, sv, e).Some? && !e.PowerLoss?
    ensures Kept(sv.queue, NextService(s, sv, e).value.queue) && NextService(s, sv, e).value.epoch == sv.epoch
  {
    var step := QueueStep(s, sv, e);
    if step.Some? {
      QueueStepKept(sv.queue, step.value);
    }
  }

  lemma StaySettled(s: System, sv: Service, e: ServiceEvent, c: Company)
    requires NextService(s, sv, e).Some?
    requires forall i :: 0 <= i < |sv.finished| && sv.finished[i].company == c ==> Settled(sv.queue, sv.epoch, sv.finished[i])
    ensures var after := NextService(s, sv, e).value;
            forall i :: 0 <= i < |sv.finished| && sv.finished[i].company == c ==> Settled(after.queue, after.epoch, sv.finished[i])
  {
    if !e.PowerLoss? {
      QueueKept(s, sv, e);
    }
  }

  /** The list of finished calls grows only by a call that returns. */
  lemma FinishedGrows(s: System, sv: Service, e: ServiceEvent)
    requires NextService(s, sv, e).Some?
    ensures var finished := NextService(s, sv, e).value.finished;
            || finished == sv.finished
            || (&& e.Answer? && e.ok && e.p < |sv.queue.promises|
                && var c := sv.queue.promises[e.p].key;
                   var call := Find(TenantOf(sv, c).calls, e.p);
                   && call.Some? && call.value.committed && call.value.p == e.p
                   && Q.Next(sv.queue, Q.Finish(e.p, true)) == Some(NextService(s, sv, e).value.queue)
                   && finished == sv.finished + [Finished(c, sv.epoch, e.p, call.value.entry)])
  {
    if e.Answer? && Find(TenantOf(sv, sv.queue.promises[e.p].key).calls, e.p).Some? {
      FindHasP(TenantOf(sv, sv.queue.promises[e.p].key).calls, e.p);
    }
  }

  lemma OtherInOrder(finished: seq<Finished>, f: Finished, c: Company, l: Log)
    requires f.company != c && InOrder(finished, c) && Behind(finished, c, l)
    ensures InOrder(finished + [f], c) && Behind(finished + [f], c, l)
  {
  }

  lemma ReturnAlone(s: System, sv: Service, p: nat, c: Company)
    requires QueueSide(sv.queue, TenantOf(sv, c), c) && AfterAnswer(sv, p, true).Some? && sv.queue.promises[p].key == c
    ensures var t := TenantOf(sv, c);
            var call := Find(t.calls, p);
            call.Some? && call.value.committed && t.calls == [call.value] && call.value.p == p && IsRunning(sv.queue, p, c)
  {
    FindHasP(TenantOf(sv, c).calls, p);
    AnswerPart(s, sv, c, p, true);
  }

  lemma ReturnState(sv: Service, p: nat, c: Company, call: Call)
    requires AfterAnswer(sv, p, true).Some? && sv.queue.promises[p].key == c
    requires Find(TenantOf(sv, c).calls, p) == Some(call) && Pushed(TenantOf(sv, c), call).Some?
    ensures var after := AfterAnswer(sv, p, true).value;
            && after.finished == sv.finished + [Finished(c, sv.epoch, p, call.entry)]
            && Some(TenantOf(after, c)) == Pushed(TenantOf(sv, c), call)
  {
  }

  /** A call of the company returns. */
  lemma OwnReturn(s: System, sv: Service, p: nat, c: Company)
    requires Good(s, sv, c) && OrderSide(sv, c) && AfterAnswer(sv, p, true).Some? && sv.queue.promises[p].key == c
    ensures var after := AfterAnswer(sv, p, true).value;
            InOrder(after.finished, c) && Behind(after.finished, c, TenantOf(after, c).log)
  {
    var t := TenantOf(sv, c);
    ReturnAlone(s, sv, p, c);
    var call := Find(t.calls, p).value;
    AnswerIsAnswer(s, t, call);
    ReturnInOrder(call, sv.queue, sv.epoch, sv.finished, c, |t.log.memory.value.records|);
    ReturnBehind(s, t, call, Finished(c, sv.epoch, p, call.entry), sv.finished, c);
    ReturnState(sv, p, c, call);
  }

  lemma OtherStep(s: System, sv: Service, e: ServiceEvent, c: Company)
    requires Good(s, sv, c) && Behind(sv.finished, c, TenantOf(sv, c).log) && NextService(s, sv, e).Some?
    ensures Behind(sv.finished, c, TenantOf(NextService(s, sv, e).value, c).log)
  {
    ServicePart(s, sv, e, c);
    PartBehind(s, TenantOf(sv, c), PartOf(s, sv, e, c), sv.finished, c);
  }

  lemma OrderSame(s: System, sv: Service, e: ServiceEvent, c: Company)
    requires Good(s, sv, c) && OrderSide(sv, c) && NextService(s, sv, e).Some?
    requires NextService(s, sv, e).value.finished == sv.finished
    ensures OrderSide(NextService(s, sv, e).value, c)
  {
    StaySettled(s, sv, e, c);
    OtherStep(s, sv, e, c);
  }

  lemma AllSettled(queue: Q.Queue, epoch: nat, finished: seq<Finished>, f: Finished, c: Company)
    requires forall i :: 0 <= i < |finished| && finished[i].company == c ==> Settled(queue, epoch, finished[i])
    requires f.company == c ==> Settled(queue, epoch, f)
    ensures var more := finished + [f];
            forall i :: 0 <= i < |more| && more[i].company == c ==> Settled(queue, epoch, more[i])
  {
  }

  /** A call that returns leaves all returned calls settled. */
  lemma ReturnedSettled(s: System, sv: Service, p: nat, c: Company)
    requires AfterAnswer(sv, p, true).Some? && AfterAnswer(sv, p, true).value.finished != sv.finished
    requires forall i :: 0 <= i < |sv.finished| && sv.finished[i].company == c ==> Settled(sv.queue, sv.epoch, sv.finished[i])
    ensures var after := AfterAnswer(sv, p, true).value;
            forall i :: 0 <= i < |after.finished| && after.finished[i].company == c ==> Settled(after.queue, after.epoch, after.finished[i])
  {
    var after := AfterAnswer(sv, p, true).value;
    StaySettled(s, sv, Answer(p, true), c);
    FinishedGrows(s, sv, Answer(p, true));
    AllSettled(after.queue, after.epoch, sv.finished, after.finished[|sv.finished|], c);
  }

  lemma OtherReturn(s: System, sv: Service, p: nat, c: Company)
    requires Good(s, sv, c) && OrderSide(sv, c) && AfterAnswer(sv, p, true).Some? && sv.queue.promises[p].key != c
    ensures var after := AfterAnswer(sv, p, true).value;
            InOrder(after.finished, c) && Behind(after.finished, c, TenantOf(after, c).log)
  {
    var after := AfterAnswer(sv, p, true).value;
    FinishedGrows(s, sv, Answer(p, true));
    OtherStep(s, sv, Answer(p, true), c);
    if after.finished != sv.finished {
      OtherInOrder(sv.finished, after.finished[|sv.finished|], c, TenantOf(after, c).log);
    }
  }

  lemma OrderMore(s: System, sv: Service, p: nat, c: Company)
    requires Good(s, sv, c) && OrderSide(sv, c) && AfterAnswer(sv, p, true).Some?
    requires AfterAnswer(sv, p, true).value.finished != sv.finished
    ensures OrderSide(AfterAnswer(sv, p, true).value, c)
  {
    ReturnedSettled(s, sv, p, c);
    if sv.queue.promises[p].key == c {
      OwnReturn(s, sv, p, c);
    } else {
      OtherReturn(s, sv, p, c);
    }
  }

  lemma OrderStep(s: System, sv: Service, e: ServiceEvent, c: Company)
    requires Good(s, sv, c) && OrderSide(sv, c) && NextService(s, sv, e).Some?
    ensures OrderSide(NextService(s, sv, e).value, c)
  {
    if NextService(s, sv, e).value.finished == sv.finished {
      OrderSame(s, sv, e, c);
    } else {
      FinishedGrows(s, sv, e);
      OrderMore(s, sv, e.p, c);
    }
  }

  lemma {:induction false} FinishedInOrder(s: System, sv: Service, events: seq<ServiceEvent>, c: Company)
    requires CanSign(s) && Good(s, sv, c) && OrderSide(sv, c) && Serve(s, sv, events).Some?
    ensures OrderSide(Serve(s, sv, events).value, c)
    decreases |events|
  {
    if events != [] {
      var next := NextService(s, sv, events[0]).value;
      OrderStep(s, sv, events[0], c);
      ServicePart(s, sv, events[0], c);
      PartRuns(s, TenantOf(sv, c), PartOf(s, sv, events[0], c));
      FinishedInOrder(s, next, events[1..], c);
    }
  }

  /** Two calls of a company that return have different indices and tree sizes, and the one submitted first, be it in an
      earlier process, has the smaller ones. */
  lemma IndicesIncrease(s: System, events: seq<ServiceEvent>, i: nat, j: nat)
    requires CanSign(s) && Serve(s, IDLE, events).Some?
    requires var finished := Serve(s, IDLE, events).value.finished;
             i < j < |finished| && finished[i].company == finished[j].company
    ensures var f, g := Serve(s, IDLE, events).value.finished[i], Serve(s, IDLE, events).value.finished[j];
            && Earlier(f, g)
            && f.entry.head.treeSize >= 1 && f.entry.record.index == IndexNum(f.entry.head.treeSize - 1)
            && g.entry.head.treeSize >= 1 && g.entry.record.index == IndexNum(g.entry.head.treeSize - 1)
  {
    var c := Serve(s, IDLE, events).value.finished[i].company;
    IdleGood(s, c);
    FinishedInOrder(s, IDLE, events, c);
  }
}
