/** What holds over every run of the log. */
module LogSafety {
  import opened Bytes
  import opened JsText
  import opened RecordHash
  import opened TreeHead
  import opened Chain
  import opened Store
  import opened CheckpointLog
  import opened LogRuns

  // ---------- Records are honest ----------

  ghost predicate Sealed(H: Hash, e: Entry) {
    e.head.treeSize >= 1 && e.record.index == IndexNum(e.head.treeSize - 1) && ComputeRecordHash(H, e.record) == Ok(e.record.hash)
  }

  ghost predicate FlightSealed(H: Hash, inFlight: set<Txn>) {
    forall txn :: txn in inFlight && txn.Append? ==> Sealed(H, txn.entry)
  }

  ghost predicate Honest(s: System, l: Log) {
    && Gapless(l.tables)
    && HonestLog(s.H, Rows(l.tables))
    && FlightSealed(s.H, l.inFlight)
  }

  // ---------- One step ----------

  /** Rows are added, never changed or removed. */
  ghost predicate Grows(before: Tables, after: Tables) {
    && Gapless(before) && Gapless(after)
    && Rows(before) <= Rows(after)
    && forall k :: k in before.heads ==> k in after.heads && after.heads[k] == before.heads[k]
  }

  /** Every record came with the head that covers it. */
  ghost predicate Checkpointed(t: Tables) {
    forall i :: i in t.records ==> i + 1 in t.heads
  }

  ghost predicate CanSign(s: System) {
    KeyPair(s.scheme, s.caPrivateKey, s.caPublicKey)
  }

  lemma StepSound(s: System, l: Log, e: Event)
    requires CanSign(s) && Sound(s, l) && Next(s, l, e).Some?
    ensures Sound(s, Next(s, l, e).value)
  {
    match e
    case BootRead => BootReadSound(s, l);
    case BootCheck(now) => BootCheckSound(s, l, now);
    case Begin(input, now) => BeginSound(s, l, input, now);
    case Commit(txn) => CommitSound(s, l, txn);
    case Abort(_) =>
    case AnswerOk => AnswerOkSound(s, l);
    case AnswerError =>
    case Crash =>
  }

  lemma StepGrows(s: System, l: Log, e: Event)
    requires Sound(s, l) && Next(s, l, e).Some?
    ensures Grows(l.tables, Next(s, l, e).value.tables)
    ensures Checkpointed(l.tables) ==> Checkpointed(Next(s, l, e).value.tables)
    ensures Next(s, l, e).value.tables == l.tables || e.Commit?
  {
    if e.Commit? {
      CommitGrows(s, l, e.txn);
    } else {
      OnlyCommitsWrite(s, l, e);
    }
  }

  lemma OnlyCommitsWrite(s: System, l: Log, e: Event)
    requires Next(s, l, e).Some? && !e.Commit?
    ensures Next(s, l, e).value.tables == l.tables
  {
  }

  lemma CommitGrows(s: System, l: Log, txn: Txn)
    requires Sound(s, l) && AfterCommit(l, txn).Some?
    ensures Grows(l.tables, AfterCommit(l, txn).value.tables)
    ensures Checkpointed(l.tables) ==> Checkpointed(AfterCommit(l, txn).value.tables)
  {
    CommittedTables(s, l.tables, txn);
    if Checkpointed(l.tables) {
      CommitCheckpoints(s, l, txn);
    }
  }

  lemma CommitCheckpoints(s: System, l: Log, txn: Txn)
    requires Sound(s, l) && Checkpointed(l.tables) && AfterCommit(l, txn).Some?
    ensures Checkpointed(AfterCommit(l, txn).value.tables)
  {
    if txn.Append? {
      assert TxnSound(s, Rows(l.tables), txn);
      AppendCheckpoints(l.tables, txn.entry);
    }
  }

  lemma AppendCheckpoints(t: Tables, e: Entry)
    requires Gapless(t) && Checkpointed(t) && Appended(t, e.record, e.head).Some?
    requires 1 <= e.head.treeSize <= |t.records| + 1 && e.record.index == IndexNum(e.head.treeSize - 1)
    ensures Checkpointed(Appended(t, e.record, e.head).value)
  {
    ColumnIndexOf(e.head.treeSize - 1);
  }

  lemma CommitHonest(s: System, l: Log, txn: Txn)
    requires Sound(s, l) && Honest(s, l) && AfterCommit(l, txn).Some?
    ensures Honest(s, AfterCommit(l, txn).value)
  {
    CommittedTables(s, l.tables, txn);
    if txn.Append? {
      HonestNext(s.H, Rows(l.tables), txn.entry);
    }
  }

  lemma HonestNext(H: Hash, log: seq<Record>, e: Entry)
    requires HonestLog(H, log) && Sealed(H, e) && e.head.treeSize == |log| + 1
    ensures HonestLog(H, log + [e.record])
  {
  }

  lemma BeginHonest(s: System, l: Log, input: Input, now: int)
    requires Honest(s, l) && AfterBegin(s, l, input, now).Some?
    ensures Honest(s, AfterBegin(s, l, input, now).value)
  {
    var records := l.memory.value.records;
    var e := NextEntry(s, records, input, now).value;
    NextRecordSealed(s.H, s.scheme, |records|, input);
    assert e.head.treeSize == |records| + 1;
  }

  lemma StepHonest(s: System, l: Log, e: Event)
    requires Sound(s, l) && Honest(s, l) && Next(s, l, e).Some?
    ensures Honest(s, Next(s, l, e).value)
  {
    match e
    case Commit(txn) => CommitHonest(s, l, txn);
    case Begin(input, now) => BeginHonest(s, l, input, now);
    case _ =>
  }

  // ---------- Every run ----------

  /** A process that has not started, over tables left by earlier ones; records may lack heads. */
  function Start(t: Tables): Log {
    Log(t, {}, None, None, None)
  }

  lemma StartSound(s: System, t: Tables)
    requires TablesSound(s, t)
    ensures Sound(s, Start(t))
    ensures HonestLog(s.H, Rows(t)) ==> Honest(s, Start(t))
  {
  }

  /** Along every run: each stored head of size k covers exactly the first k records, memory is a prefix of the stored
      log with a head that covers it, the log only grows, and no record is ever stored without its head. */
  lemma {:induction false} RunSound(s: System, l: Log, events: seq<Event>)
    requires CanSign(s) && Sound(s, l) && Honest(s, l) && Run(s, l, events).Some?
    ensures Sound(s, Run(s, l, events).value) && Honest(s, Run(s, l, events).value)
    ensures Grows(l.tables, Run(s, l, events).value.tables)
    ensures Checkpointed(l.tables) ==> Checkpointed(Run(s, l, events).value.tables)
    decreases |events|
  {
    if events != [] {
      StepSound(s, l, events[0]);
      StepHonest(s, l, events[0]);
      StepGrows(s, l, events[0]);
      RunSound(s, Next(s, l, events[0]).value, events[1..]);
    }
  }

  // ---------- Records verify ----------

  ghost predicate AllVerify(s: System, publicKey: JsString, log: seq<Record>) {
    forall i :: 0 <= i < |log| ==> RecordVerifies(s.H, s.scheme, log[i], publicKey)
  }

  ghost predicate FlightVerifies(s: System, publicKey: JsString, inFlight: set<Txn>) {
    forall txn :: txn in inFlight && txn.Append? ==> RecordVerifies(s.H, s.scheme, txn.entry.record, publicKey)
  }

  ghost predicate Verifiable(s: System, publicKey: JsString, l: Log) {
    Gapless(l.tables) && AllVerify(s, publicKey, Rows(l.tables)) && FlightVerifies(s, publicKey, l.inFlight)
  }

  /** Every append is signed with the same company key. */
  predicate SignedWith(events: seq<Event>, privateKey: JsString) {
    forall i :: 0 <= i < |events| && events[i].Begin? ==> events[i].input.privateKey == privateKey
  }

  lemma CommitVerifies(s: System, publicKey: JsString, l: Log, txn: Txn)
    requires Sound(s, l) && Verifiable(s, publicKey, l) && AfterCommit(l, txn).Some?
    ensures Verifiable(s, publicKey, AfterCommit(l, txn).value)
  {
    CommittedTables(s, l.tables, txn);
    if txn.Append? {
      VerifyNext(s, publicKey, Rows(l.tables), txn.entry.record);
    }
  }

  lemma VerifyNext(s: System, publicKey: JsString, log: seq<Record>, record: Record)
    requires AllVerify(s, publicKey, log) && RecordVerifies(s.H, s.scheme, record, publicKey)
    ensures AllVerify(s, publicKey, log + [record])
  {
  }

  lemma BeginVerifies(s: System, publicKey: JsString, l: Log, input: Input, now: int)
    requires KeyPair(s.scheme, input.privateKey, publicKey)
    requires Verifiable(s, publicKey, l) && AfterBegin(s, l, input, now).Some?
    ensures Verifiable(s, publicKey, AfterBegin(s, l, input, now).value)
  {
    NextRecordIsHonest(s.H, s.scheme, l.memory.value.records, input, publicKey);
  }

  lemma StepVerifies(s: System, publicKey: JsString, l: Log, e: Event)
    requires Sound(s, l) && Verifiable(s, publicKey, l) && Next(s, l, e).Some?
    requires e.Begin? ==> KeyPair(s.scheme, e.input.privateKey, publicKey)
    ensures Verifiable(s, publicKey, Next(s, l, e).value)
  {
    match e
    case Commit(txn) => CommitVerifies(s, publicKey, l, txn);
    case Begin(input, now) => BeginVerifies(s, publicKey, l, input, now);
    case _ =>
  }

  /** While the company key stays the same, every record that is stored or in memory verifies under it, so that
      AttestationChain.Verify never reports a failure. */
  lemma {:induction false} MemoryVerifies(s: System, privateKey: JsString, publicKey: JsString, l: Log, events: seq<Event>)
    requires CanSign(s) && KeyPair(s.scheme, privateKey, publicKey) && SignedWith(events, privateKey)
    requires Sound(s, l) && Verifiable(s, publicKey, l) && Run(s, l, events).Some?
    ensures var after := Run(s, l, events).value;
            && Verifiable(s, publicKey, after)
            && (after.memory.Some? ==> AllVerify(s, publicKey, after.memory.value.records))
    decreases |events|
  {
    if events != [] {
      StepSound(s, l, events[0]);
      StepVerifies(s, publicKey, l, events[0]);
      MemoryVerifies(s, privateKey, publicKey, Next(s, l, events[0]).value, events[1..]);
    }
  }

  lemma HeadsWithinLog(s: System, t: Tables)
    requires TablesSound(s, t)
    ensures forall k :: k in t.heads ==> 1 <= k <= |t.records|
  {
    forall k | k in t.heads
      ensures 1 <= k <= |t.records|
    {
      assert Covers(s, Rows(t), t.heads[k]);
    }
  }

  // ---------- What the queue is for ----------

  /** Two appends computed from the same memory, as would happen without the queue, ask for the same index and the same
      tree size: the store takes at most one of them. */
  lemma UnqueuedAppendsCollide(s: System, t: Tables, log: seq<Record>, input: Input, now: int, input': Input, now': int)
    requires NextEntry(s, log, input, now).Some? && NextEntry(s, log, input', now').Some?
    ensures var e, f := NextEntry(s, log, input, now).value, NextEntry(s, log, input', now').value;
            && e.record.index == f.record.index && e.head.treeSize == f.head.treeSize
            && (Appended(t, e.record, e.head).Some? ==> Appended(Appended(t, e.record, e.head).value, f.record, f.head).None?)
  {
    NextRecordSealed(s.H, s.scheme, |log|, input);
    NextRecordSealed(s.H, s.scheme, |log|, input');
  }

  // ---------- A commit whose answer is lost ----------

  /** Memory is behind the stored log, and so is every transaction under way. */
  ghost predicate Frozen(l: Log) {
    && Gapless(l.tables)
    && l.memory.Some? && |l.memory.value.records| < |l.tables.records|
    && (l.waiting.Some? ==> !l.waiting.value.committed)
    && forall txn :: txn in l.inFlight && txn.Append? ==> txn.entry.head.treeSize <= |l.tables.records|
  }

  /** An append that was committed but reported as failed freezes the log. */
  lemma LostCommitFreezes(s: System, l: Log, e: Entry)
    requires Sound(s, l) && l.waiting == Some(Waiting(Append(e), false)) && AfterCommit(l, Append(e)).Some?
    ensures Frozen(AfterError(AfterCommit(l, Append(e)).value))
  {
    CommittedTables(s, l.tables, Append(e));
    FlightAtMost(s, Rows(l.tables), l.inFlight);
  }

  lemma FlightAtMost(s: System, log: seq<Record>, inFlight: set<Txn>)
    requires FlightSound(s, log, inFlight)
    ensures forall txn :: txn in inFlight && txn.Append? ==> txn.entry.head.treeSize <= |log| + 1
  {
    forall txn | txn in inFlight && txn.Append?
      ensures txn.entry.head.treeSize <= |log| + 1
    {
      assert TxnSound(s, log, txn);
    }
  }

  lemma FrozenCommit(s: System, l: Log, txn: Txn)
    requires Sound(s, l) && Frozen(l) && AfterCommit(l, txn).Some?
    ensures txn.Anchor? && Frozen(AfterCommit(l, txn).value)
    ensures AfterCommit(l, txn).value.tables.records == l.tables.records
  {
    CommittedTables(s, l.tables, txn);
  }

  lemma FrozenBegin(s: System, l: Log, input: Input, now: int)
    requires CanSign(s) && Sound(s, l) && Frozen(l) && AfterBegin(s, l, input, now).Some?
    ensures Frozen(AfterBegin(s, l, input, now).value)
  {
    NextEntryFollows(s, Rows(l.tables), l.memory.value.records, input, now);
  }

  lemma FrozenStep(s: System, l: Log, e: Event)
    requires CanSign(s) && Sound(s, l) && Frozen(l) && e != Crash && Next(s, l, e).Some?
    ensures Frozen(Next(s, l, e).value)
    ensures Next(s, l, e).value.tables.records == l.tables.records
    ensures e != AnswerOk
  {
    match e
    case Commit(txn) => FrozenCommit(s, l, txn);
    case Begin(input, now) => FrozenBegin(s, l, input, now);
    case _ =>
  }

  /** A frozen log stays as it is while the process lives: the primary key refuses every later append. */
  lemma {:induction false} FrozenWhileAlive(s: System, l: Log, events: seq<Event>)
    requires CanSign(s) && Sound(s, l) && Frozen(l) && Run(s, l, events).Some? && Crash !in events
    ensures Frozen(Run(s, l, events).value)
    ensures Run(s, l, events).value.tables.records == l.tables.records
    ensures AnswerOk !in events
    decreases |events|
  {
    if events != [] {
      StepSound(s, l, events[0]);
      FrozenStep(s, l, events[0]);
      FrozenWhileAlive(s, Next(s, l, events[0]).value, events[1..]);
    }
  }
}
