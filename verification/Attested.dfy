/** What the rows of the log hold: what callers attested, once for each call, and for good. */
module Attested {
  import opened Bytes
  import opened RecordHash
  import opened Chain
  import opened Store
  import opened CheckpointLog
  import opened LogRuns
  import opened LogSafety
  import opened LogProgress
  import opened LogWorld
  import opened QueuedAppends

  // ---------- Every row was attested ----------

  ghost predicate BegunAt(events: seq<Event>, i: int, e: Entry) {
    0 <= i < |events| && events[i].Begin? && Attests(e.record, events[i].input) && e.head.timestamp == events[i].now
  }

  /** Some append of the run was asked to attest what the record holds, at the time of the head. */
  ghost predicate Begun(events: seq<Event>, e: Entry) {
    exists i :: BegunAt(events, i, e)
  }

  /** Record and head are in the tables. */
  ghost predicate Written(t: Tables, e: Entry) {
    && 1 <= e.head.treeSize && e.head.treeSize - 1 in t.records && t.records[e.head.treeSize - 1] == e.record
    && e.head.treeSize in t.heads && t.heads[e.head.treeSize] == e.head
  }

  ghost predicate WrittenOrSent(l: Log, e: Entry) {
    Written(l.tables, e) || Append(e) in l.inFlight
  }

  /** Every record has its head, and no transaction brings a head alone. */
  ghost predicate NoAnchors(l: Log) {
    Checkpointed(l.tables) && forall txn :: txn in l.inFlight ==> txn.Append?
  }

  lemma NoHeadNeeded(s: System, l: Log)
    requires Sound(s, l) && Checkpointed(l.tables) && l.boot.Some?
    ensures !NeedsHead(l.boot.value.records, LatestHead(l.tables))
  {
    LatestCovers(s, l.tables);
    var n := |l.tables.records|;
    if n > 0 {
      assert n - 1 in l.tables.records;
      assert HeadsCover(s, Rows(l.tables), l.tables.heads);
    }
  }

  /** Where every record has its head, loading never mints one. */
  lemma NeverAnchors(s: System, l: Log, e: Event)
    requires Sound(s, l) && NoAnchors(l) && Next(s, l, e).Some?
    ensures NoAnchors(Next(s, l, e).value)
  {
    StepGrows(s, l, e);
    if e.BootCheck? && l.boot.Some? {
      NoHeadNeeded(s, l);
    }
    OnlyAppendsSent(s, l, e);
  }

  lemma OnlyAppendsSent(s: System, l: Log, e: Event)
    requires Next(s, l, e).Some? && forall txn :: txn in l.inFlight ==> txn.Append?
    requires e.BootCheck? && l.boot.Some? ==> !NeedsHead(l.boot.value.records, LatestHead(l.tables))
    ensures forall txn :: txn in Next(s, l, e).value.inFlight ==> txn.Append?
  {
    match e
    case Commit(txn) => assert Next(s, l, e).value.inFlight == l.inFlight - {txn};
    case _ =>
  }

  lemma CommitWrites(s: System, l: Log, txn: Txn, e: Entry)
    requires Sound(s, l) && NoAnchors(l) && AfterCommit(l, txn).Some? && WrittenOrSent(AfterCommit(l, txn).value, e)
    ensures WrittenOrSent(l, e)
  {
    CommittedTables(s, l.tables, txn);
    AppendedAtEnd(l.tables, txn.entry);
  }

  lemma BeginAttests(s: System, l: Log, input: Input, now: int, e: Entry)
    requires AfterBegin(s, l, input, now).Some? && WrittenOrSent(AfterBegin(s, l, input, now).value, e)
    ensures WrittenOrSent(l, e) || BegunAt([Begin(input, now)], 0, e)
  {
    if !WrittenOrSent(l, e) {
      EntryAttests(s, l.memory.value.records, input, now, e);
    }
  }

  lemma StepAttests(s: System, l: Log, event: Event, e: Entry)
    requires Sound(s, l) && NoAnchors(l) && Next(s, l, event).Some? && WrittenOrSent(Next(s, l, event).value, e)
    ensures WrittenOrSent(l, e) || BegunAt([event], 0, e)
  {
    match event
    case Commit(txn) => CommitWrites(s, l, txn, e);
    case Begin(input, now) => BeginAttests(s, l, input, now, e);
    case BootCheck(_) => NoHeadNeeded(s, l);
    case _ =>
  }

  lemma {:induction false} RunAttests(s: System, l: Log, events: seq<Event>, e: Entry)
    requires CanSign(s) && Sound(s, l) && NoAnchors(l) && Run(s, l, events).Some? && WrittenOrSent(Run(s, l, events).value, e)
    ensures WrittenOrSent(l, e) || Begun(events, e)
    decreases |events|
  {
    if events != [] {
      var next := Next(s, l, events[0]).value;
      StepSound(s, l, events[0]);
      NeverAnchors(s, l, events[0]);
      RunAttests(s, next, events[1..], e);
      if Begun(events[1..], e) {
        var i :| BegunAt(events[1..], i, e);
        assert BegunAt(events, i + 1, e);
      } else {
        StepAttests(s, l, events[0], e);
        assert BegunAt([events[0]], 0, e) ==> BegunAt(events, 0, e);
      }
    }
  }

  /** From an empty database, along every run: each stored record holds what some append of the run was asked to attest,
      and is stored with the head that was signed for it at that append's time. */
  lemma EveryRowWasAttested(s: System, events: seq<Event>, i: int)
    requires CanSign(s) && Run(s, Start(NO_ROWS), events).Some? && i in Run(s, Start(NO_ROWS), events).value.tables.records
    ensures var t := Run(s, Start(NO_ROWS), events).value.tables;
            i + 1 in t.heads && Begun(events, Entry(t.records[i], t.heads[i + 1]))
  {
    var l := Run(s, Start(NO_ROWS), events).value;
    StartSound(s, NO_ROWS);
    RunSound(s, Start(NO_ROWS), events);
    RowIsWritten(s, l.tables, i);
    RunAttests(s, Start(NO_ROWS), events, Entry(l.tables.records[i], l.tables.heads[i + 1]));
  }

  lemma RowIsWritten(s: System, t: Tables, i: int)
    requires TablesSound(s, t) && Checkpointed(t) && i in t.records
    ensures i + 1 in t.heads && Written(t, Entry(t.records[i], t.heads[i + 1]))
  {
    assert HeadsCover(s, Rows(t), t.heads);
  }

  /** So it is for every company. */
  lemma EveryRowOfEveryCompany(s: System, events: seq<WorldEvent>, c: Company, i: int)
    requires CanSign(s) && RunWorld(s, map[], events).Some?
    requires i in LogOf(RunWorld(s, map[], events).value, c).tables.records
    ensures var t := LogOf(RunWorld(s, map[], events).value, c).tables;
            i + 1 in t.heads && Begun(Seen(events, c), Entry(t.records[i], t.heads[i + 1]))
  {
    CompaniesIndependent(s, map[], events, c);
    EveryRowWasAttested(s, Seen(events, c), i);
  }

  // ---------- No more rows than appends ----------

  function Begins(events: seq<Event>): nat {
    if events == [] then 0 else (if events[0].Begin? then 1 else 0) + Begins(events[1..])
  }

  function Appends(inFlight: set<Txn>): set<Txn> {
    set txn | txn in inFlight && txn.Append?
  }

  /** Records stored and records that can still be. */
  function Weight(l: Log): nat {
    |l.tables.records| + |Appends(l.inFlight)|
  }

  lemma OneMore(inFlight: set<Txn>, txn: Txn)
    ensures |Appends(inFlight + {txn})| <= |Appends(inFlight)| + if txn.Append? then 1 else 0
  {
    assert Appends(inFlight + {txn}) == Appends(inFlight) + if txn.Append? then {txn} else {};
  }

  lemma OneLess(inFlight: set<Txn>, txn: Txn)
    requires txn in inFlight
    ensures |Appends(inFlight - {txn})| == |Appends(inFlight)| - if txn.Append? then 1 else 0
  {
    assert Appends(inFlight - {txn}) == Appends(inFlight) - if txn.Append? then {txn} else {};
  }

  lemma StepWeighs(s: System, l: Log, e: Event)
    requires Sound(s, l) && Next(s, l, e).Some?
    ensures Weight(Next(s, l, e).value) <= Weight(l) + if e.Begin? then 1 else 0
  {
    match e
    case Commit(txn) =>
      CommittedTables(s, l.tables, txn);
      OneLess(l.inFlight, txn);
    case Abort(txn) => OneLess(l.inFlight, txn);
    case Begin(input, now) => OneMore(l.inFlight, Append(NextEntry(s, l.memory.value.records, input, now).value));
    case BootCheck(now) =>
      if l.boot.Some? && BuildHead(s, Hashes(l.boot.value.records), now).Some? {
        OneMore(l.inFlight, Anchor(BuildHead(s, Hashes(l.boot.value.records), now).value));
      }
    case _ =>
  }

  /** No append is stored twice: along every run, records are at most as many as there were at the start and under way,
      and one for each append. */
  lemma {:induction false} NoMoreRowsThanAppends(s: System, l: Log, events: seq<Event>)
    requires CanSign(s) && Sound(s, l) && Run(s, l, events).Some?
    ensures Weight(Run(s, l, events).value) <= Weight(l) + Begins(events)
    decreases |events|
  {
    if events != [] {
      StepWeighs(s, l, events[0]);
      StepSound(s, l, events[0]);
      NoMoreRowsThanAppends(s, Next(s, l, events[0]).value, events[1..]);
    }
  }

  // ---------- What a call returns is its own, and stays stored ----------

  /** Each running call carries the entry of its own input. */
  ghost predicate CallsFaithful(inputs: map<nat, Input>, t: Tenant) {
    forall i :: 0 <= i < |t.calls| ==> t.calls[i].p in inputs && Attests(t.calls[i].entry.record, inputs[t.calls[i].p])
  }

  lemma PartFaithful(s: System, t: Tenant, part: Part, inputs: map<nat, Input>)
    requires CallsFaithful(inputs, t) && Alone(t, part) && Applied(s, t, part).Some?
    requires part.Begins? ==> part.p in inputs && inputs[part.p] == part.input
    ensures CallsFaithful(inputs, Applied(s, t, part).value)
  {
    match part
    case Begins(p, input, now, e) => EntryAttests(s, t.log.memory.value.records, input, now, e);
    case Stores(event) => MarkedFaithful(s, t, event, inputs);
    case Loads(event) => LoadKeepsCalls(s, t, event);
    case Returns(call) => assert Drop(t.calls, call.p) == [];
    case Throws(call) => assert Drop(t.calls, call.p) == [];
    case _ =>
  }

  lemma MarkedFaithful(s: System, t: Tenant, event: Event, inputs: map<nat, Input>)
    requires CallsFaithful(inputs, t) && AfterDatabase(s, t, event).Some?
    ensures CallsFaithful(inputs, AfterDatabase(s, t, event).value)
  {
  }

  lemma SubmitFaithful(s: System, sv: Service, d: Company, input: Input, c: Company)
    requires QueueSide(sv.queue, TenantOf(sv, c), c) && CallsFaithful(sv.inputs, TenantOf(sv, c)) && AfterSubmit(sv, d, input).Some?
    ensures CallsFaithful(AfterSubmit(sv, d, input).value.inputs, TenantOf(AfterSubmit(sv, d, input).value, c))
  {
    var t := TenantOf(sv, c);
    forall i | 0 <= i < |t.calls|
      ensures t.calls[i].p in sv.inputs && t.calls[i].p < |sv.queue.promises|
    {
      assert t.calls[i] == t.calls[0];
    }
  }

  lemma SameInputs(s: System, sv: Service, e: ServiceEvent, c: Company)
    requires NextService(s, sv, e).Some? && !e.PowerLoss? && !e.Submit?
    ensures NextService(s, sv, e).value.inputs == sv.inputs
    ensures var part := PartOf(s, sv, e, c); part.Begins? ==> part.p in sv.inputs && sv.inputs[part.p] == part.input
  {
  }

  lemma StepFaithful(s: System, sv: Service, e: ServiceEvent, c: Company)
    requires Good(s, sv, c) && CallsFaithful(sv.inputs, TenantOf(sv, c)) && NextService(s, sv, e).Some?
    ensures CallsFaithful(NextService(s, sv, e).value.inputs, TenantOf(NextService(s, sv, e).value, c))
  {
    if e.Submit? {
      SubmitFaithful(s, sv, e.company, e.input, c);
    } else if !e.PowerLoss? {
      ServicePart(s, sv, e, c);
      SameInputs(s, sv, e, c);
      PartFaithful(s, TenantOf(sv, c), PartOf(s, sv, e, c), sv.inputs);
    }
  }

  /** The records of finished calls are in the table, at their own index. */
  ghost predicate Durable(finished: seq<Finished>, c: Company, t: Tables) {
    forall i :: 0 <= i < |finished| && finished[i].company == c ==>
                  var e := finished[i].entry;
                  e.head.treeSize - 1 in t.records && t.records[e.head.treeSize - 1] == e.record
  }

  lemma DurableMore(finished: seq<Finished>, c: Company, before: Tables, after: Tables)
    requires Durable(finished, c, before) && Gapless(before) && Gapless(after) && Rows(before) <= Rows(after)
    ensures Durable(finished, c, after)
  {
    forall i | 0 <= i < |finished| && finished[i].company == c
      ensures var k := finished[i].entry.head.treeSize - 1; k in after.records && after.records[k] == finished[i].entry.record
    {
      var k := finished[i].entry.head.treeSize - 1;
      assert Rows(before)[k] == Rows(after)[k];
    }
  }

  lemma PartDurable(s: System, t: Tenant, part: Part, finished: seq<Finished>, c: Company)
    requires LogSide(s, t) && Applied(s, t, part).Some? && Durable(finished, c, t.log.tables)
    ensures Durable(finished, c, Applied(s, t, part).value.log.tables)
  {
    match part
    case Stores(event) => StoreDurable(s, t, event, finished, c);
    case Loads(event) => LoadIsStep(s, t, event);
    case _ =>
  }

  lemma StoreDurable(s: System, t: Tenant, event: Event, finished: seq<Finished>, c: Company)
    requires LogSide(s, t) && AfterDatabase(s, t, event).Some? && Durable(finished, c, t.log.tables)
    ensures Durable(finished, c, AfterDatabase(s, t, event).value.log.tables)
  {
    if event.Commit? {
      CommittedTables(s, t.log.tables, event.txn);
      DurableMore(finished, c, t.log.tables, AfterDatabase(s, t, event).value.log.tables);
    }
  }

  /** What is pushed is in the table. */
  lemma PushedIsStored(s: System, t: Tenant, call: Call)
    requires LogSide(s, t) && t.calls == [call] && call.committed
    ensures var k := call.entry.head.treeSize - 1; k in t.log.tables.records && t.log.tables.records[k] == call.entry.record
  {
    assert WaitingSound(s, Rows(t.log.tables), View(t), View(t).waiting.value);
  }

  lemma DurableOneMore(finished: seq<Finished>, f: Finished, c: Company, t: Tables)
    requires Durable(finished, c, t)
    requires f.company == c ==> f.entry.head.treeSize - 1 in t.records && t.records[f.entry.head.treeSize - 1] == f.entry.record
    ensures Durable(finished + [f], c, t)
  {
  }

  lemma WhatReturned(s: System, sv: Service, p: nat) returns (call: Call)
    requires AfterAnswer(sv, p, true).Some? && AfterAnswer(sv, p, true).value.finished != sv.finished
    ensures var c := sv.queue.promises[p].key;
            && Find(TenantOf(sv, c).calls, p) == Some(call) && call.committed && call.p == p
            && AfterAnswer(sv, p, true).value.finished == sv.finished + [Finished(c, sv.epoch, p, call.entry)]
  {
    FinishedGrows(s, sv, Answer(p, true));
    call := Find(TenantOf(sv, sv.queue.promises[p].key).calls, p).value;
  }

  lemma ReturnDurable(s: System, sv: Service, p: nat, c: Company)
    requires Good(s, sv, c) && AfterAnswer(sv, p, true).Some? && AfterAnswer(sv, p, true).value.finished != sv.finished
    requires Durable(sv.finished, c, TenantOf(sv, c).log.tables)
    ensures Durable(AfterAnswer(sv, p, true).value.finished, c, TenantOf(sv, c).log.tables)
  {
    var call := WhatReturned(s, sv, p);
    if sv.queue.promises[p].key == c {
      ReturnAlone(s, sv, p, c);
      PushedIsStored(s, TenantOf(sv, c), call);
    }
    DurableOneMore(sv.finished, Finished(sv.queue.promises[p].key, sv.epoch, p, call.entry), c, TenantOf(sv, c).log.tables);
  }

  lemma StepDurable(s: System, sv: Service, e: ServiceEvent, c: Company)
    requires Good(s, sv, c) && Durable(sv.finished, c, TenantOf(sv, c).log.tables) && NextService(s, sv, e).Some?
    ensures var after := NextService(s, sv, e).value; Durable(after.finished, c, TenantOf(after, c).log.tables)
  {
    var after := NextService(s, sv, e).value;
    FinishedGrows(s, sv, e);
    if after.finished != sv.finished {
      ReturnDurable(s, sv, e.p, c);
    }
    ServicePart(s, sv, e, c);
    PartDurable(s, TenantOf(sv, c), PartOf(s, sv, e, c), after.finished, c);
  }

  lemma {:induction false} ServeKeeps(s: System, sv: Service, events: seq<ServiceEvent>, c: Company)
    requires CanSign(s) && Good(s, sv, c) && Serve(s, sv, events).Some?
    requires CallsFaithful(sv.inputs, TenantOf(sv, c)) && Durable(sv.finished, c, TenantOf(sv, c).log.tables)
    ensures var end := Serve(s, sv, events).value;
            && Good(s, end, c) && CallsFaithful(end.inputs, TenantOf(end, c))
            && Durable(end.finished, c, TenantOf(end, c).log.tables)
    decreases |events|
  {
    if events != [] {
      StepFaithful(s, sv, events[0], c);
      StepDurable(s, sv, events[0], c);
      ServicePart(s, sv, events[0], c);
      PartRuns(s, TenantOf(sv, c), PartOf(s, sv, events[0], c));
      ServeKeeps(s, NextService(s, sv, events[0]).value, events[1..], c);
    }
  }

  /** Over every schedule: a call that returns, returns a record that holds what it was itself asked to attest, whatever
      else was submitted and however transactions went. */
  lemma ReturnedIsOwn(s: System, events: seq<ServiceEvent>, p: nat)
    requires CanSign(s) && Serve(s, IDLE, events).Some?
    requires var sv := Serve(s, IDLE, events).value;
             AfterAnswer(sv, p, true).Some? && AfterAnswer(sv, p, true).value.finished != sv.finished
    ensures var sv := Serve(s, IDLE, events).value;
            var after, c := AfterAnswer(sv, p, true).value, sv.queue.promises[p].key;
            && p in sv.inputs && |after.finished| == |sv.finished| + 1
            && var f := after.finished[|sv.finished|];
               f.company == c && f.epoch == sv.epoch && f.p == p && Attests(f.entry.record, sv.inputs[p])
  {
    var sv := Serve(s, IDLE, events).value;
    var c := sv.queue.promises[p].key;
    IdleGood(s, c);
    ServeKeeps(s, IDLE, events, c);
    var call := WhatReturned(s, sv, p);
    ReturnAlone(s, sv, p, c);
    assert TenantOf(sv, c).calls[0] == call;
  }

  /** What was returned is stored for good: the record of every call that has ever returned is in the table at its own
      index, after whatever crashes and restarts. */
  lemma ReturnedStaysStored(s: System, events: seq<ServiceEvent>, i: nat)
    requires CanSign(s) && Serve(s, IDLE, events).Some? && i < |Serve(s, IDLE, events).value.finished|
    ensures var sv := Serve(s, IDLE, events).value;
            var f := sv.finished[i];
            var t := TenantOf(sv, f.company).log.tables;
            exists k: nat :: f.entry.record.index == IndexNum(k) && k in t.records && t.records[k] == f.entry.record
  {
    var sv := Serve(s, IDLE, events).value;
    var f := sv.finished[i];
    IdleGood(s, f.company);
    ServeKeeps(s, IDLE, events, f.company);
    FinishedInOrder(s, IDLE, events, f.company);
    var k: nat := f.entry.head.treeSize - 1;
    assert f.entry.record.index == IndexNum(k);
  }
}
