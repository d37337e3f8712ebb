/** The log as a state machine: appends of many companies interleaved, transactions that fail, commit late or commit
    without an answer, crashes at any point, and restarts that load the log again.

    The steps over-approximate the service: a transaction sent to the database may be committed at any later time, even
    after its sender has seen an error or has crashed.
 */
module LogRuns {
  import opened Bytes
  import opened RecordHash
  import opened Rfc6962
  import opened TreeHead
  import opened Chain
  import opened Store
  import opened CheckpointLog

  // ---------- State ----------

  /** A transaction: a record with its head, or a head alone (minted while loading). */
  datatype Txn = Append(entry: Entry) | Anchor(head: SignedTreeHead)

  /** The chain in memory.  Quiet: no record was committed between the two reads that loaded it. */
  datatype Memory = Memory(records: seq<Record>, latest: Option<SignedTreeHead>, quiet: bool)

  /** Loading, with the records already read. */
  datatype Boot = Boot(records: seq<Record>, quiet: bool)

  /** The transaction whose answer the process awaits, and whether it has been committed. */
  datatype Waiting = Waiting(txn: Txn, committed: bool)

  datatype Log = Log(tables: Tables, inFlight: set<Txn>, memory: Option<Memory>, boot: Option<Boot>, waiting: Option<Waiting>)

  datatype Event =
    | BootRead
    | BootCheck(now: int)
    | Begin(input: Input, now: int)
    | Commit(txn: Txn)
    | Abort(txn: Txn)
    | AnswerOk
    | AnswerError
    | Crash

  // ---------- Steps ----------

  /** What the database makes of a transaction; None when a primary key refuses it. */
  function Committed(t: Tables, txn: Txn): Option<Tables> {
    match txn
    case Append(e) => Appended(t, e.record, e.head)
    case Anchor(head) => Some(WithHead(t, head))
  }

  function Send(l: Log, txn: Txn): Log {
    l.(inFlight := l.inFlight + {txn}, waiting := Some(Waiting(txn, false)))
  }

  function AfterBootRead(l: Log): Option<Log> {
    if l.memory.Some? || l.boot.Some? then None else Some(l.(boot := Some(Boot(AllRecords(l.tables), true))))
  }

  /** Reads the latest head, and sends a new one when the records are not covered. */
  function AfterBootCheck(s: System, l: Log, now: int): Option<Log> {
    if l.boot.None? || l.waiting.Some? then None
    else
      var boot, latest := l.boot.value, LatestHead(l.tables);
      if !NeedsHead(boot.records, latest) then
        Some(l.(memory := Some(Memory(boot.records, latest, boot.quiet)), boot := None))
      else
        match BuildHead(s, Hashes(boot.records), now)
        case None => None
        case Some(head) => Some(Send(l, Anchor(head)))
  }

  /** One append of a company at a time: QueuedAppends derives this from the queue. */
  function AfterBegin(s: System, l: Log, input: Input, now: int): Option<Log> {
    if l.memory.None? || l.waiting.Some? then None
    else
      match NextEntry(s, l.memory.value.records, input, now)
      case None => None
      case Some(entry) => Some(Send(l, Append(entry)))
  }

  function Disturbed(l: Log, txn: Txn): Option<Boot> {
    if l.boot.Some? && l.waiting.None? && txn.Append? then Some(l.boot.value.(quiet := false)) else l.boot
  }

  /** A load is disturbed by the commit of a record between its two reads, and by nothing else. */
  lemma DisturbedExactly(l: Log, txn: Txn)
    ensures Disturbed(l, txn).Some? <==> l.boot.Some?
    ensures l.boot.Some? ==>
              && Disturbed(l, txn).value.records == l.boot.value.records
              && (Disturbed(l, txn).value.quiet <==> l.boot.value.quiet && (txn.Anchor? || l.waiting.Some?))
  {
  }

  function AfterCommit(l: Log, txn: Txn): Option<Log> {
    if txn !in l.inFlight then None
    else
      match Committed(l.tables, txn)
      case None => None
      case Some(t) =>
        Some(Log(t, l.inFlight - {txn}, l.memory, Disturbed(l, txn),
                 if l.waiting.Some? && l.waiting.value.txn == txn then Some(Waiting(txn, true)) else l.waiting))
  }

  /** The process learns that its transaction was committed. */
  function AfterAnswerOk(l: Log): Option<Log> {
    match l.waiting
    case Some(Waiting(Append(e), true)) =>
      if l.memory.None? then None
      else
        var m := l.memory.value;
        Some(l.(memory := Some(m.(records := m.records + [e.record], latest := Some(e.head))), waiting := None))
    case Some(Waiting(Anchor(head), true)) =>
      if l.boot.None? then None
      else Some(l.(memory := Some(Memory(l.boot.value.records, Some(head), l.boot.value.quiet)), boot := None, waiting := None))
    case _ => None
  }

  /** The process learns of a failure, which need not be one: an append is given up, and so is a load. */
  function AfterError(l: Log): Log {
    l.(boot := None, waiting := None)
  }

  /** One step; None when it is not possible. */
  function Next(s: System, l: Log, e: Event): Option<Log> {
    match e
    case BootRead => AfterBootRead(l)
    case BootCheck(now) => AfterBootCheck(s, l, now)
    case Begin(input, now) => AfterBegin(s, l, input, now)
    case Commit(txn) => AfterCommit(l, txn)
    case Abort(txn) => if txn !in l.inFlight then None else Some(l.(inFlight := l.inFlight - {txn}))
    case AnswerOk => AfterAnswerOk(l)
    case AnswerError => if l.waiting.None? then None else Some(AfterError(l))
    case Crash => Some(l.(memory := None, boot := None, waiting := None))
  }

  function Run(s: System, l: Log, events: seq<Event>): Option<Log>
    decreases |events|
  {
    if events == [] then Some(l)
    else
      match Next(s, l, events[0])
      case None => None
      case Some(next) => Run(s, next, events[1..])
  }

  // ---------- The invariant ----------

  /** The indices are 0, 1, ..., n - 1. */
  ghost predicate Gapless(t: Tables) {
    forall i :: i in t.records <==> 0 <= i < |t.records|
  }

  function Rows(t: Tables): (log: seq<Record>)
    requires Gapless(t)
    ensures |log| == |t.records| && forall i :: 0 <= i < |log| ==> log[i] == t.records[i]
  {
    seq(|t.records|, i requires 0 <= i < |t.records| => t.records[i])
  }

  /** A head over the first records of a log, signed by the CA. */
  ghost predicate Covers(s: System, log: seq<Record>, head: SignedTreeHead) {
    && 1 <= head.treeSize <= |log|
    && head.rootHash == RootHex(s.H, Hashes(log[..head.treeSize]))
    && VerifyHead(s.scheme, head, s.caPublicKey)
  }

  ghost predicate HeadsCover(s: System, log: seq<Record>, heads: map<int, SignedTreeHead>) {
    forall k :: k in heads ==> heads[k].treeSize == k && Covers(s, log, heads[k])
  }

  ghost predicate TablesSound(s: System, t: Tables) {
    Gapless(t) && HeadsCover(s, Rows(t), t.heads)
  }

  /** The entry that follows a prefix of the log. */
  ghost predicate Follows(s: System, log: seq<Record>, e: Entry) {
    && 1 <= e.head.treeSize <= |log| + 1
    && e.record.index == IndexNum(e.head.treeSize - 1)
    && Covers(s, log[..e.head.treeSize - 1] + [e.record], e.head)
  }

  ghost predicate TxnSound(s: System, log: seq<Record>, txn: Txn) {
    match txn
    case Append(e) => Follows(s, log, e)
    case Anchor(head) => Covers(s, log, head)
  }

  ghost predicate FlightSound(s: System, log: seq<Record>, inFlight: set<Txn>) {
    forall txn :: txn in inFlight ==> TxnSound(s, log, txn)
  }

  /** The latest head in memory covers the records in memory, and after a quiet load nothing else. */
  ghost predicate MemorySound(s: System, log: seq<Record>, m: Memory) {
    && m.records <= log
    && (m.latest.Some? ==> Covers(s, log, m.latest.value))
    && (m.records != [] ==> m.latest.Some? && |m.records| <= m.latest.value.treeSize)
    && (m.quiet && m.latest.Some? ==> |m.records| == m.latest.value.treeSize)
  }

  ghost predicate BootSound(log: seq<Record>, b: Boot, waiting: bool) {
    b.records <= log && (b.quiet && !waiting ==> b.records == log)
  }

  /** An append awaits its answer on behalf of memory, an anchor on behalf of a load. */
  ghost predicate WaitingSound(s: System, log: seq<Record>, l: Log, w: Waiting) {
    && TxnSound(s, log, w.txn)
    && match w.txn
       case Append(e) =>
         && l.memory.Some? && e.head.treeSize == |l.memory.value.records| + 1
         && (w.committed ==> e.head.treeSize <= |log| && log[e.head.treeSize - 1] == e.record)
       case Anchor(head) => l.boot.Some? && head.treeSize == |l.boot.value.records|
  }

  ghost predicate Sound(s: System, l: Log) {
    && TablesSound(s, l.tables)
    && var log := Rows(l.tables);
       && FlightSound(s, log, l.inFlight)
       && (l.memory.Some? ==> MemorySound(s, log, l.memory.value) && l.boot.None?)
       && (l.boot.Some? ==> BootSound(log, l.boot.value, l.waiting.Some?))
       && (l.waiting.Some? ==> WaitingSound(s, log, l, l.waiting.value))
  }

  // ---------- Every step keeps it ----------

  lemma CoversMore(s: System, log: seq<Record>, more: seq<Record>, head: SignedTreeHead)
    requires log <= more && Covers(s, log, head)
    ensures Covers(s, more, head)
  {
    assert more[..head.treeSize] == log[..head.treeSize];
  }

  lemma TxnSoundMore(s: System, log: seq<Record>, more: seq<Record>, txn: Txn)
    requires log <= more && TxnSound(s, log, txn)
    ensures TxnSound(s, more, txn)
  {
    match txn
    case Append(e) => assert more[..e.head.treeSize - 1] == log[..e.head.treeSize - 1];
    case Anchor(head) => CoversMore(s, log, more, head);
  }

  lemma InsertedAtEnd(t: Tables, record: Record, heads: map<int, SignedTreeHead>)
    requires Gapless(t)
    ensures var after := Tables(t.records[|t.records| := record], heads);
            Gapless(after) && Rows(after) == Rows(t) + [record]
  {
  }

  /** The primary key lets an entry in only at the end of the log. */
  lemma AppendedAtEnd(t: Tables, e: Entry)
    requires Gapless(t) && Appended(t, e.record, e.head).Some?
    requires 1 <= e.head.treeSize <= |t.records| + 1 && e.record.index == IndexNum(e.head.treeSize - 1)
    ensures var after := Appended(t, e.record, e.head).value;
            && e.head.treeSize == |t.records| + 1
            && Gapless(after) && Rows(after) == Rows(t) + [e.record]
            && after.heads == t.heads[e.head.treeSize := e.head]
  {
    ColumnIndexOf(e.head.treeSize - 1);
    assert e.head.treeSize - 1 == |t.records|;
    InsertedAtEnd(t, e.record, t.heads[e.head.treeSize := e.head]);
  }

  lemma AppendedTablesSound(s: System, t: Tables, e: Entry)
    requires TablesSound(s, t) && Follows(s, Rows(t), e) && Appended(t, e.record, e.head).Some?
    ensures TablesSound(s, Appended(t, e.record, e.head).value)
  {
    AppendedAtEnd(t, e);
    var log, after := Rows(t), Appended(t, e.record, e.head).value;
    assert log[..|log|] == log;
    forall k | k in after.heads
      ensures after.heads[k].treeSize == k && Covers(s, Rows(after), after.heads[k])
    {
      if k != e.head.treeSize {
        CoversMore(s, log, Rows(after), t.heads[k]);
      }
    }
  }

  lemma CommittedTables(s: System, t: Tables, txn: Txn)
    requires TablesSound(s, t) && TxnSound(s, Rows(t), txn) && Committed(t, txn).Some?
    ensures var after := Committed(t, txn).value;
            && TablesSound(s, after)
            && Rows(after) == (if txn.Append? then Rows(t) + [txn.entry.record] else Rows(t))
            && (txn.Append? ==> txn.entry.head.treeSize == |Rows(t)| + 1)
            && forall k :: k in t.heads ==> k in after.heads && after.heads[k] == t.heads[k]
  {
    match txn
    case Append(e) =>
      AppendedAtEnd(t, e);
      AppendedTablesSound(s, t, e);
    case Anchor(head) =>
  }

  lemma MemorySoundMore(s: System, log: seq<Record>, more: seq<Record>, m: Memory)
    requires log <= more && MemorySound(s, log, m)
    ensures MemorySound(s, more, m)
  {
    if m.latest.Some? {
      CoversMore(s, log, more, m.latest.value);
    }
  }

  lemma FlightSoundMore(s: System, log: seq<Record>, more: seq<Record>, inFlight: set<Txn>, fewer: set<Txn>)
    requires log <= more && FlightSound(s, log, inFlight) && fewer <= inFlight
    ensures FlightSound(s, more, fewer)
  {
    forall txn | txn in fewer
      ensures TxnSound(s, more, txn)
    {
      TxnSoundMore(s, log, more, txn);
    }
  }

  /** A commit marks the awaited transaction, and only that one. */
  lemma WaitingSoundCommit(s: System, l: Log, after: Log, txn: Txn)
    requires Sound(s, l) && AfterCommit(l, txn) == Some(after) && l.waiting.Some?
    requires TablesSound(s, after.tables) && Rows(l.tables) <= Rows(after.tables)
    requires txn.Append? ==> txn.entry.head.treeSize == |Rows(l.tables)| + 1
                             && Rows(after.tables) == Rows(l.tables) + [txn.entry.record]
    ensures WaitingSound(s, Rows(after.tables), after, after.waiting.value)
  {
    TxnSoundMore(s, Rows(l.tables), Rows(after.tables), l.waiting.value.txn);
  }

  lemma CommitSound(s: System, l: Log, txn: Txn)
    requires Sound(s, l) && AfterCommit(l, txn).Some?
    ensures Sound(s, AfterCommit(l, txn).value)
  {
    CommittedTables(s, l.tables, txn);
    var after := AfterCommit(l, txn).value;
    FlightSoundMore(s, Rows(l.tables), Rows(after.tables), l.inFlight, after.inFlight);
    if l.memory.Some? {
      MemorySoundMore(s, Rows(l.tables), Rows(after.tables), l.memory.value);
    }
    if l.waiting.Some? {
      WaitingSoundCommit(s, l, after, txn);
    }
  }

  lemma BuiltHeadCovers(s: System, log: seq<Record>, records: seq<Record>, now: int)
    requires KeyPair(s.scheme, s.caPrivateKey, s.caPublicKey)
    requires records != [] && records <= log && BuildHead(s, Hashes(records), now).Some?
    ensures BuildHead(s, Hashes(records), now).value.treeSize == |records|
    ensures Covers(s, log, BuildHead(s, Hashes(records), now).value)
  {
    SignedHeadVerifies(s.scheme, HeadFields(RootHex(s.H, Hashes(records)), |records|, now), s.caPrivateKey, s.caPublicKey);
    assert log[..|records|] == records;
  }

  lemma NextEntryFollows(s: System, log: seq<Record>, records: seq<Record>, input: Input, now: int)
    requires KeyPair(s.scheme, s.caPrivateKey, s.caPublicKey)
    requires records <= log && NextEntry(s, records, input, now).Some?
    ensures Follows(s, log, NextEntry(s, records, input, now).value)
    ensures NextEntry(s, records, input, now).value.head.treeSize == |records| + 1
  {
    var e := NextEntry(s, records, input, now).value;
    NextRecordSealed(s.H, s.scheme, |records|, input);
    BuiltHeadCovers(s, records + [e.record], records + [e.record], now);
    assert log[..|records|] == records;
  }

  lemma BootReadSound(s: System, l: Log)
    requires Sound(s, l) && AfterBootRead(l).Some?
    ensures Sound(s, AfterBootRead(l).value)
  {
    AllRecordsOfGapless(l.tables, |l.tables.records|);
    assert AllRecords(l.tables) == Rows(l.tables);
  }

  lemma BootCheckSound(s: System, l: Log, now: int)
    requires KeyPair(s.scheme, s.caPrivateKey, s.caPublicKey)
    requires Sound(s, l) && AfterBootCheck(s, l, now).Some?
    ensures Sound(s, AfterBootCheck(s, l, now).value)
  {
    var records, log := l.boot.value.records, Rows(l.tables);
    if NeedsHead(records, LatestHead(l.tables)) {
      BuiltHeadCovers(s, log, records, now);
    }
  }

  lemma BeginSound(s: System, l: Log, input: Input, now: int)
    requires KeyPair(s.scheme, s.caPrivateKey, s.caPublicKey)
    requires Sound(s, l) && AfterBegin(s, l, input, now).Some?
    ensures Sound(s, AfterBegin(s, l, input, now).value)
  {
    NextEntryFollows(s, Rows(l.tables), l.memory.value.records, input, now);
  }

  lemma CommittedEntryCovers(s: System, log: seq<Record>, e: Entry)
    requires Follows(s, log, e) && e.head.treeSize <= |log| && log[e.head.treeSize - 1] == e.record
    ensures Covers(s, log, e.head)
  {
    assert log[..e.head.treeSize - 1] + [e.record] == log[..e.head.treeSize];
    CoversMore(s, log[..e.head.treeSize], log, e.head);
  }

  lemma AnswerOkSound(s: System, l: Log)
    requires Sound(s, l) && AfterAnswerOk(l).Some?
    ensures Sound(s, AfterAnswerOk(l).value)
  {
    if l.waiting.value.txn.Append? {
      CommittedEntryCovers(s, Rows(l.tables), l.waiting.value.txn.entry);
    }
  }
}
