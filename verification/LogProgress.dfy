/** When the store accepts an append, how a log that takes none recovers, and how a restart can lose a race. */
module LogProgress {
  import opened Bytes
  import opened RecordHash
  import opened Rfc6962
  import opened TreeHead
  import opened Chain
  import opened Store
  import opened CheckpointLog
  import opened LogRuns
  import opened LogSafety
  import opened LogWorld

  /** The largest number of records to which the INTEGER columns let one be added. */
  const LAST_SIZE := 0x7fff_ffff

  lemma FullColumns(t: Tables, e: Entry)
    requires Gapless(t) && e.head.treeSize >= 1 && e.record.index == IndexNum(e.head.treeSize - 1)
    requires forall k :: k in t.heads ==> k <= |t.records|
    requires e.head.treeSize <= |t.records| + 1
    ensures Appended(t, e.record, e.head).Some? <==> e.head.treeSize == |t.records| + 1 && |t.records| < LAST_SIZE
  {
    ColumnIndexOf(e.head.treeSize - 1);
  }

  /** The store accepts an append exactly when memory has every stored record and the columns have room. */
  lemma AppendAcceptedExactly(s: System, l: Log, input: Input, now: int, e: Entry)
    requires CanSign(s) && Sound(s, l) && l.memory.Some?
    requires NextEntry(s, l.memory.value.records, input, now) == Some(e)
    ensures Appended(l.tables, e.record, e.head).Some?
       <==> |l.memory.value.records| == |l.tables.records| && |l.tables.records| < LAST_SIZE
  {
    NextEntryFollows(s, Rows(l.tables), l.memory.value.records, input, now);
    HeadsWithinLog(s, l.tables);
    FullColumns(l.tables, e);
  }

  // ---------- Logs that take appends ----------

  /** Memory has every stored record, save one whose commit is still to be answered, and nobody else's append is under
      way. */
  ghost predicate Live(l: Log) {
    && Gapless(l.tables)
    && l.memory.Some? && l.boot.None?
    && (forall txn :: txn in l.inFlight && txn.Append? ==> l.waiting == Some(Waiting(txn, false)))
    && Rows(l.tables) == l.memory.value.records + Unanswered(l)
  }

  function Unanswered(l: Log): seq<Record> {
    match l.waiting
    case Some(Waiting(Append(e), true)) => [e.record]
    case _ => []
  }

  /** No crash, and no failure reported of a transaction that was or can still be committed. */
  predicate RealFailure(l: Log, e: Event) {
    e != Crash && (e == AnswerError && l.waiting.Some? ==> !l.waiting.value.committed && l.waiting.value.txn !in l.inFlight)
  }

  lemma LiveCommit(s: System, l: Log, txn: Txn)
    requires Sound(s, l) && Live(l) && AfterCommit(l, txn).Some?
    ensures Live(AfterCommit(l, txn).value)
  {
    CommittedTables(s, l.tables, txn);
  }

  lemma LiveBegin(s: System, l: Log, input: Input, now: int)
    requires Live(l) && AfterBegin(s, l, input, now).Some?
    ensures Live(AfterBegin(s, l, input, now).value)
  {
  }

  lemma LiveAbort(l: Log, txn: Txn)
    requires Live(l)
    ensures Live(l.(inFlight := l.inFlight - {txn}))
  {
  }

  lemma LiveAnswer(l: Log)
    requires Live(l) && AfterAnswerOk(l).Some?
    ensures Live(AfterAnswerOk(l).value)
  {
  }

  lemma LiveError(l: Log)
    requires Live(l) && l.waiting.Some? && RealFailure(l, AnswerError)
    ensures Live(AfterError(l))
  {
  }

  lemma LiveStep(s: System, l: Log, e: Event)
    requires Sound(s, l) && Live(l) && RealFailure(l, e) && Next(s, l, e).Some?
    ensures Live(Next(s, l, e).value)
  {
    match e
    case Commit(txn) => LiveCommit(s, l, txn);
    case Begin(input, now) => LiveBegin(s, l, input, now);
    case Abort(txn) => LiveAbort(l, txn);
    case AnswerOk => LiveAnswer(l);
    case AnswerError => LiveError(l);
    case BootRead =>
    case BootCheck(_) =>
  }

  predicate RealFailures(s: System, l: Log, events: seq<Event>)
    decreases |events|
  {
    events == [] ||
    (RealFailure(l, events[0]) && Next(s, l, events[0]).Some? && RealFailures(s, Next(s, l, events[0]).value, events[1..]))
  }

  /** A log that takes appends goes on taking them for as long as every failure reported is a real one. */
  lemma {:induction false} LiveRun(s: System, l: Log, events: seq<Event>)
    requires CanSign(s) && Sound(s, l) && Live(l) && RealFailures(s, l, events)
    ensures Run(s, l, events).Some? && Live(Run(s, l, events).value)
    decreases |events|
  {
    if events != [] {
      StepSound(s, l, events[0]);
      LiveStep(s, l, events[0]);
      LiveRun(s, Next(s, l, events[0]).value, events[1..]);
    }
  }

  /** An undisturbed append to it succeeds: store and memory grow by its record. */
  lemma LiveAppends(s: System, l: Log, input: Input, now: int, e: Entry)
    requires CanSign(s) && Sound(s, l) && Live(l) && l.waiting.None? && |l.tables.records| < LAST_SIZE
    requires NextEntry(s, l.memory.value.records, input, now) == Some(e)
    ensures Appended(l.tables, e.record, e.head).Some?
    ensures var outcome := AppendOutcome(Some(e), l.memory.value.records, l.memory.value.latest, l.tables, Fair);
            && outcome.entry == Some(e) && outcome.records == l.memory.value.records + [e.record]
            && Gapless(outcome.rows) && Rows(outcome.rows) == Rows(l.tables) + [e.record]
  {
    AppendAcceptedExactly(s, l, input, now, e);
    NextEntryFollows(s, Rows(l.tables), l.memory.value.records, input, now);
    AcceptedIsAppended(l.tables, l.memory.value, e);
  }

  lemma AcceptedIsAppended(t: Tables, m: Memory, e: Entry)
    requires Gapless(t) && Appended(t, e.record, e.head).Some?
    requires e.head.treeSize == |t.records| + 1 && |m.records| == |t.records| && e.record.index == IndexNum(|t.records|)
    ensures var outcome := AppendOutcome(Some(e), m.records, m.latest, t, Fair);
            && outcome.entry == Some(e) && outcome.records == m.records + [e.record]
            && Gapless(outcome.rows) && Rows(outcome.rows) == Rows(t) + [e.record]
  {
    AppendedAtEnd(t, e);
  }

  // ---------- Recovery ----------

  lemma LoadOutcome(s: System, t: Tables, now: int)
    requires Gapless(t)
    ensures var loaded := InitOutcome(s, t, now);
            && Gapless(loaded.rows) && loaded.rows.records == t.records
            && (loaded.chain.Some? ==> loaded.chain.value.0 == Rows(t))
  {
    AllRecordsOfGapless(t, |t.records|);
    assert AllRecords(t) == Rows(t);
  }

  /** Loading mints a head exactly when the log is not empty and no head of its size is stored; the minted head covers all
      records at the time given, and is stored.  Otherwise the tables stay as they are, and memory gets the head of the
      greatest size. */
  lemma LoadExactly(s: System, t: Tables, now: int)
    requires TablesSound(s, t)
    ensures var loaded, log := InitOutcome(s, t, now), Rows(t);
            var fields := HeadFields(RootHex(s.H, Hashes(log)), |log|, now);
            if log == [] || |log| in t.heads then
              loaded == Loaded(Some((log, if log == [] then None else Some(t.heads[|log|]))), t)
            else if now < 0 || s.scheme.sign(s.caPrivateKey, SigningInput(fields)).None? then
              loaded == Loaded(None, t)
            else
              var head := SignedTreeHead(fields.rootHash, |log|, now, s.scheme.sign(s.caPrivateKey, SigningInput(fields)).value);
              loaded == Loaded(Some((log, Some(head))), Tables(t.records, t.heads[|log| := head]))
  {
    AllRecordsOfGapless(t, |t.records|);
    assert AllRecords(t) == Rows(t);
    LatestCovers(s, t);
    HeadFailsOnlyOnClockOrKey(s, Hashes(Rows(t)), now);
  }

  lemma LatestCovers(s: System, t: Tables)
    requires TablesSound(s, t)
    ensures NeedsHead(Rows(t), LatestHead(t)) <==> |t.records| > 0 && |t.records| !in t.heads
    ensures |t.records| > 0 && |t.records| in t.heads ==> LatestHead(t) == Some(t.heads[|t.records|])
    ensures |t.records| == 0 ==> LatestHead(t) == None
  {
    HeadsWithinLog(s, t);
    if |t.records| == 0 {
      assert forall k :: k !in t.heads;
      assert t.heads == map[];
    } else {
      LatestIsGreatest(t, |t.records|);
      assert HeadsCover(s, Rows(t), t.heads);
    }
  }

  lemma LatestIsGreatest(t: Tables, n: int)
    requires forall k :: k in t.heads ==> k <= n && t.heads[k].treeSize == k
    ensures n in t.heads ==> LatestHead(t) == Some(t.heads[n])
    ensures LatestHead(t).Some? ==> LatestHead(t).value.treeSize in t.heads
  {
    if LatestHead(t).Some? {
      var k :| k in t.heads && LatestHead(t).value == t.heads[k] && forall j :: j in t.heads ==> j <= k;
    }
  }

  /** Loading with no append under way, whatever the log's state before, gives a log that takes appends, unless a head
      that is needed cannot be signed. */
  lemma LoadRevives(s: System, l: Log, now: int)
    requires Sound(s, l) && l.memory.None? && l.boot.None? && l.waiting.None?
    requires forall txn :: txn in l.inFlight ==> !txn.Append?
    ensures var end := Run(s, l, [BootRead] + LoadEvents(s, l.tables, now));
            && end.Some? && end.value.tables.records == l.tables.records
            && (end.value.memory.Some? ==> Live(end.value) && end.value.waiting.None?)
            && (end.value.memory.None? <==> InitOutcome(s, l.tables, now).chain.None?)
  {
    InitIsRun(s, l, now);
    LoadOutcome(s, l.tables, now);
  }

  // ---------- A restart that races with a late commit ----------

  lemma NewestHead(s: System, t: Tables, e: Entry)
    requires TablesSound(s, t) && Follows(s, Rows(t), e) && Appended(t, e.record, e.head).Some?
    ensures LatestHead(Appended(t, e.record, e.head).value) == Some(e.head)
  {
    HeadsWithinLog(s, t);
    AppendedAtEnd(t, e);
    var heads := Appended(t, e.record, e.head).value.heads;
    assert e.head.treeSize in heads;
  }

  /** Memory with the records before an entry, and the head of the entry. */
  function RaceEnd(t: Tables, e: Entry, more: Tables): Log
    requires Gapless(t)
  {
    Log(more, {}, Some(Memory(Rows(t), Some(e.head), false)), None, None)
  }

  /** After a crash that leaves the transaction of an entry behind. */
  function RaceStart(t: Tables, e: Entry): Log {
    Log(t, {Append(e)}, None, None, None)
  }

  /** The restart has read the records. */
  function RaceRead(t: Tables, e: Entry): Log
    requires Gapless(t)
  {
    Log(t, {Append(e)}, None, Some(Boot(Rows(t), true)), None)
  }

  /** The entry is committed. */
  function RaceLate(t: Tables, more: Tables): Log
    requires Gapless(t)
  {
    Log(more, {}, None, Some(Boot(Rows(t), false)), None)
  }

  lemma RaceReads(s: System, t: Tables, e: Entry)
    requires Gapless(t)
    ensures Next(s, RaceStart(t, e), BootRead) == Some(RaceRead(t, e))
  {
    AllRecordsOfGapless(t, |t.records|);
    assert AllRecords(t) == Rows(t);
  }

  lemma RaceCommits(s: System, t: Tables, e: Entry, more: Tables)
    requires Gapless(t) && Appended(t, e.record, e.head) == Some(more)
    ensures Next(s, RaceRead(t, e), Commit(Append(e))) == Some(RaceLate(t, more))
  {
    assert {Append(e)} - {Append(e)} == {};
  }

  lemma RaceLoads(s: System, t: Tables, e: Entry, more: Tables, now: int)
    requires Gapless(t) && LatestHead(more) == Some(e.head) && e.head.treeSize > |Rows(t)|
    ensures Next(s, RaceLate(t, more), BootCheck(now)) == Some(RaceEnd(t, e, more))
  {
    assert !NeedsHead(Rows(t), LatestHead(more));
  }

  lemma RunThree(s: System, l: Log, a: Event, mid: Log, b: Event, late: Log, c: Event)
    requires Next(s, l, a) == Some(mid) && Next(s, mid, b) == Some(late)
    ensures Run(s, l, [a, b, c]) == Next(s, late, c)
  {
    RunFirst(s, l, a, [b, c]);
    RunTwo(s, mid, b, late, c);
    assert [a] + [b, c] == [a, b, c];
  }

  lemma RaceFreezes(t: Tables, e: Entry, more: Tables)
    requires Gapless(t) && Gapless(more) && |more.records| == |t.records| + 1
    ensures Frozen(RaceEnd(t, e, more))
  {
  }

  /** A restart over any sound tables, with the commit of any entry that they accept between its two reads: memory then
      has a head over a record that it does not have, and the log is frozen. */
  lemma RestartRace(s: System, t: Tables, e: Entry, more: Tables, now: int)
    requires TablesSound(s, t) && Follows(s, Rows(t), e) && Appended(t, e.record, e.head) == Some(more)
    ensures Run(s, RaceStart(t, e), [BootRead, Commit(Append(e)), BootCheck(now)]) == Some(RaceEnd(t, e, more))
    ensures e.head.treeSize == |Rows(t)| + 1 && Frozen(RaceEnd(t, e, more))
  {
    AppendedAtEnd(t, e);
    NewestHead(s, t, e);
    RaceReads(s, t, e);
    RaceCommits(s, t, e, more);
    RaceLoads(s, t, e, more, now);
    RunThree(s, RaceStart(t, e), BootRead, RaceRead(t, e), Commit(Append(e)), RaceLate(t, more), BootCheck(now));
    RaceFreezes(t, e, more);
  }

  lemma SentThenCrash(s: System, l: Log, e: Entry)
    requires l.inFlight == {} && l.boot.None?
    ensures Run(s, Send(l, Append(e)), [Crash]) == Some(RaceStart(l.tables, e))
  {
    assert {} + {Append(e)} == {Append(e)};
    RunOne(s, Send(l, Append(e)), Crash);
  }

  /** Any log that takes appends can get there by a crash: the whole race is a run. */
  lemma RaceIsReachable(s: System, l: Log, input: Input, now: int, e: Entry)
    requires CanSign(s) && Sound(s, l) && Live(l) && l.waiting.None? && l.inFlight == {} && |l.tables.records| < LAST_SIZE
    requires NextEntry(s, l.memory.value.records, input, now) == Some(e)
    ensures Appended(l.tables, e.record, e.head).Some? && Follows(s, Rows(l.tables), e)
    ensures Run(s, l, [Begin(input, now)] + ([Crash] + [BootRead, Commit(Append(e)), BootCheck(now)]))
         == Some(RaceEnd(l.tables, e, Appended(l.tables, e.record, e.head).value))
  {
    var restart := [BootRead, Commit(Append(e)), BootCheck(now)];
    LiveAppends(s, l, input, now, e);
    NextEntryFollows(s, Rows(l.tables), l.memory.value.records, input, now);
    RestartRace(s, l.tables, e, Appended(l.tables, e.record, e.head).value, now);
    BeginAlone(s, l, input, now, e);
    SentThenCrash(s, l, e);
    Composes(s, l, [Begin(input, now)], Send(l, Append(e)), [Crash] + restart);
    Composes(s, Send(l, Append(e)), [Crash], RaceStart(l.tables, e), restart);
  }
}
