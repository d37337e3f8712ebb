/** What an accepted proof shows when all that is known of its head is that the CA signed it: heads are signed inside
    transactions that may fail, and for every company with the same key.
 */
module IssuedHeads {
  import opened Bytes
  import opened RecordHash
  import opened PreimageTwins
  import opened Rfc6962
  import opened TreeHead
  import opened Inclusion
  import opened Store
  import opened CheckpointLog
  import opened LogRuns
  import opened LogSafety
  import opened LogWorld

  function HeadOf(txn: Txn): SignedTreeHead {
    match txn
    case Append(e) => e.head
    case Anchor(head) => head
  }

  /** A transaction that is under way at some point of a run. */
  ghost predicate EverUnderWay(s: System, l: Log, events: seq<Event>, txn: Txn)
    decreases |events|
  {
    || txn in l.inFlight
    || (events != [] && Next(s, l, events[0]).Some? && EverUnderWay(s, Next(s, l, events[0]).value, events[1..], txn))
  }

  /** What a step signs a head for, and sends: an entry that begins, or a head that a load needs. */
  function SignedBy(s: System, l: Log, e: Event): Option<Txn> {
    match e
    case Begin(input, now) =>
      if l.memory.None? || l.waiting.Some? || NextEntry(s, l.memory.value.records, input, now).None? then None
      else Some(Append(NextEntry(s, l.memory.value.records, input, now).value))
    case BootCheck(now) =>
      if l.boot.None? || l.waiting.Some? || !NeedsHead(l.boot.value.records, LatestHead(l.tables))
         || BuildHead(s, Hashes(l.boot.value.records), now).None? then None
      else Some(Anchor(BuildHead(s, Hashes(l.boot.value.records), now).value))
    case _ => None
  }

  /** Some step of the run signs the head of the transaction. */
  ghost predicate EverSigned(s: System, l: Log, events: seq<Event>, txn: Txn)
    decreases |events|
  {
    && events != []
    && (|| SignedBy(s, l, events[0]) == Some(txn)
        || (Next(s, l, events[0]).Some? && EverSigned(s, Next(s, l, events[0]).value, events[1..], txn)))
  }

  lemma SignedIsSent(s: System, l: Log, e: Event)
    requires SignedBy(s, l, e).Some?
    ensures Next(s, l, e).Some? && SignedBy(s, l, e).value in Next(s, l, e).value.inFlight
  {
  }

  lemma NothingElseIsSent(s: System, l: Log, e: Event, txn: Txn)
    requires Next(s, l, e).Some? && txn in Next(s, l, e).value.inFlight
    ensures txn in l.inFlight || SignedBy(s, l, e) == Some(txn)
  {
  }

  /** Over every run, what is ever under way is what was so at the start and what its steps sign. */
  lemma {:induction false} UnderWayIffSigned(s: System, l: Log, events: seq<Event>, txn: Txn)
    ensures EverUnderWay(s, l, events, txn) <==> txn in l.inFlight || EverSigned(s, l, events, txn)
    decreases |events|
  {
    if events != [] {
      if SignedBy(s, l, events[0]) == Some(txn) {
        SignedIsSent(s, l, events[0]);
      }
      if Next(s, l, events[0]).Some? {
        var next := Next(s, l, events[0]).value;
        UnderWayIffSigned(s, next, events[1..], txn);
        if txn in next.inFlight {
          NothingElseIsSent(s, l, events[0], txn);
        }
      }
    }
  }

  /** The log that the head of a transaction covers: all of it stored, but perhaps for the transaction's own record. */
  function SignedLog(rows: seq<Record>, txn: Txn): seq<Record>
    requires 1 <= HeadOf(txn).treeSize <= |rows| + 1 && (txn.Anchor? ==> HeadOf(txn).treeSize <= |rows|)
  {
    match txn
    case Append(e) => rows[..e.head.treeSize - 1] + [e.record]
    case Anchor(head) => rows[..head.treeSize]
  }

  ghost predicate TxnHonest(H: Hash, txn: Txn) {
    txn.Append? ==> Sealed(H, txn.entry)
  }

  lemma {:induction false} UnderWayIsSound(s: System, l: Log, events: seq<Event>, txn: Txn)
    requires CanSign(s) && Sound(s, l) && Honest(s, l) && Run(s, l, events).Some? && EverUnderWay(s, l, events, txn)
    ensures Gapless(Run(s, l, events).value.tables)
    ensures TxnSound(s, Rows(Run(s, l, events).value.tables), txn) && TxnHonest(s.H, txn)
    decreases |events|
  {
    RunSound(s, l, events);
    if txn in l.inFlight {
      TxnSoundMore(s, Rows(l.tables), Rows(Run(s, l, events).value.tables), txn);
    } else {
      StepSound(s, l, events[0]);
      StepHonest(s, l, events[0]);
      UnderWayIsSound(s, Next(s, l, events[0]).value, events[1..], txn);
    }
  }

  lemma SignedLogCovered(s: System, rows: seq<Record>, txn: Txn)
    requires HonestLog(s.H, rows) && TxnSound(s, rows, txn) && TxnHonest(s.H, txn)
    ensures var log := SignedLog(rows, txn);
            && |log| == HeadOf(txn).treeSize && HonestLog(s.H, log)
            && HeadOf(txn).rootHash == RootHex(s.H, Hashes(log)) && RootHexText(HeadOf(txn).rootHash)
  {
    var log := SignedLog(rows, txn);
    assert log[..|log|] == log;
    match txn
    case Append(e) =>
      HonestPrefix(s.H, rows, e.head.treeSize - 1);
      HonestNext(s.H, rows[..e.head.treeSize - 1], e);
    case Anchor(head) =>
      HonestPrefix(s.H, rows, head.treeSize);
  }

  /** A head was signed for some company at some point of a run of the whole service. */
  ghost predicate Issued(s: System, events: seq<WorldEvent>, f: HeadFields) {
    exists c, txn :: EverSigned(s, Start(NO_ROWS), Seen(events, c), txn) && f == Fields(HeadOf(txn))
  }

  lemma IssuedIsSound(s: System, events: seq<WorldEvent>, c: Company, txn: Txn)
    requires CanSign(s) && RunWorld(s, map[], events).Some? && EverSigned(s, Start(NO_ROWS), Seen(events, c), txn)
    ensures var l := LogOf(RunWorld(s, map[], events).value, c);
            && Gapless(l.tables) && HonestLog(s.H, Rows(l.tables))
            && TxnSound(s, Rows(l.tables), txn) && TxnHonest(s.H, txn)
  {
    StartSound(s, NO_ROWS);
    CompaniesIndependent(s, map[], events, c);
    UnderWayIffSigned(s, Start(NO_ROWS), Seen(events, c), txn);
    UnderWayIsSound(s, Start(NO_ROWS), Seen(events, c), txn);
    EveryReachableLogIsSound(s, events, c);
  }

  /** What the CA key has signed is the signing input of a head issued in the run, or foreign. */
  ghost predicate SignedInRun(s: System, events: seq<WorldEvent>, signed: set<ByteSeq>) {
    forall m :: m in signed ==> ForeignMessage(m) || exists f :: Issued(s, events, f) && m == SigningInput(f)
  }

  lemma SignedHeadWasIssuedInRun(s: System, events: seq<WorldEvent>, head: SignedTreeHead, signed: set<ByteSeq>)
    returns (c: Company, txn: Txn)
    requires CanSign(s) && RunWorld(s, map[], events).Some? && SignedInRun(s, events, signed)
    requires VerifyHead(s.scheme, head, s.caPublicKey) && SigningInput(Fields(head)) in signed
    ensures EverSigned(s, Start(NO_ROWS), Seen(events, c), txn) && Fields(head) == Fields(HeadOf(txn))
  {
    SigningInputIsNotForeign(Fields(head));
    var f :| Issued(s, events, f) && SigningInput(Fields(head)) == SigningInput(f);
    c, txn :| EverSigned(s, Start(NO_ROWS), Seen(events, c), txn) && f == Fields(HeadOf(txn));
    IssuedIsSound(s, events, c, txn);
    SignedLogCovered(s, Rows(LogOf(RunWorld(s, map[], events).value, c).tables), txn);
    SigningInputInjective(Fields(head), f);
  }

  /** One of the records under the head, at its true index; only the last can be missing from the store. */
  ghost predicate Shows(s: System, p: InclusionProof, rows: seq<Record>, txn: Txn)
    requires 1 <= HeadOf(txn).treeSize <= |rows| + 1 && (txn.Anchor? ==> HeadOf(txn).treeSize <= |rows|)
  {
    var log := SignedLog(rows, txn);
    var i := ProvenIndex(p, log);
    && VerifyInclusionProof(s.H, s.scheme, p, s.caPublicKey) == Valid(p.record.index, |log|, p.root)
    && log[i].index == IndexNum(i)
    && CarriesHash(s.H, p, log[i]) && AgreesAsFarAs(p.record, log[i])
    && ((i < |rows| && rows[i] == log[i]) || (txn == Append(Entry(log[i], HeadOf(txn))) && i == |log| - 1))
  }

  lemma AlmostAllStored(rows: seq<Record>, txn: Txn, i: int)
    requires 1 <= HeadOf(txn).treeSize <= |rows| + 1 && (txn.Anchor? ==> HeadOf(txn).treeSize <= |rows|)
    requires 0 <= i < |SignedLog(rows, txn)|
    ensures var log := SignedLog(rows, txn);
            (i < |rows| && rows[i] == log[i]) || (txn == Append(Entry(log[i], HeadOf(txn))) && i == |log| - 1)
  {
  }

  lemma ProofUnderTxn(s: System, p: InclusionProof, rows: seq<Record>, txn: Txn)
    requires HonestLog(s.H, rows) && TxnSound(s, rows, txn) && TxnHonest(s.H, txn)
    requires VerifyInclusionProof(s.H, s.scheme, p, s.caPublicKey).Valid? && Fields(p.sth) == Fields(HeadOf(txn))
    ensures Collides(s.H, ProofEvidence(s.H, p, SignedLog(rows, txn))) || Shows(s, p, rows, txn)
  {
    SignedLogCovered(s, rows, txn);
    var log := SignedLog(rows, txn);
    ProofOverLog(s, p, log);
    AlmostAllStored(rows, txn, ProvenIndex(p, log));
  }

  lemma ProofOverLog(s: System, p: InclusionProof, log: seq<Record>)
    requires log != [] && HonestLog(s.H, log) && p.sth.rootHash == RootHex(s.H, Hashes(log)) && p.sth.treeSize == |log|
    requires VerifyInclusionProof(s.H, s.scheme, p, s.caPublicKey).Valid?
    ensures Collides(s.H, ProofEvidence(s.H, p, log))
         || (&& VerifyInclusionProof(s.H, s.scheme, p, s.caPublicKey) == Valid(p.record.index, |log|, p.root)
             && log[ProvenIndex(p, log)].index == IndexNum(ProvenIndex(p, log))
             && CarriesHash(s.H, p, log[ProvenIndex(p, log)]) && AgreesAsFarAs(p.record, log[ProvenIndex(p, log)]))
  {
    AcceptedProofPinsRecord(s.H, s.scheme, p, s.caPublicKey, log);
    VerdictEchoes(s.H, s.scheme, p, s.caPublicKey);
  }

  /** If the head of an accepted proof was signed at all, then for some company it was signed over stored records, and
      perhaps one more whose transaction failed; the proof shows one of these, or a collision is at hand. */
  lemma AcceptedProofIsLogged(s: System, events: seq<WorldEvent>, p: InclusionProof, signed: set<ByteSeq>)
    returns (c: Company, txn: Txn)
    requires CanSign(s) && RunWorld(s, map[], events).Some? && SignedInRun(s, events, signed)
    requires VerifyInclusionProof(s.H, s.scheme, p, s.caPublicKey).Valid? && SigningInput(Fields(p.sth)) in signed
    ensures EverSigned(s, Start(NO_ROWS), Seen(events, c), txn) && Fields(p.sth) == Fields(HeadOf(txn))
    ensures var l := LogOf(RunWorld(s, map[], events).value, c);
            && Gapless(l.tables) && TxnSound(s, Rows(l.tables), txn)
            && (Collides(s.H, ProofEvidence(s.H, p, SignedLog(Rows(l.tables), txn))) || Shows(s, p, Rows(l.tables), txn))
  {
    c, txn := SignedHeadWasIssuedInRun(s, events, p.sth, signed);
    IssuedIsSound(s, events, c, txn);
    ProofUnderTxn(s, p, Rows(LogOf(RunWorld(s, map[], events).value, c).tables), txn);
  }
}
