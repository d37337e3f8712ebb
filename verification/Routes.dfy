/** The public proofs: what the HTTP handlers answer from a log that keeps growing while they read it. */
module Routes {
  import opened Bytes
  import opened JsText
  import opened Checks
  import opened Signer
  import opened RecordHash
  import opened PreimageTwins
  import opened Rfc6962
  import opened Rfc6962Proofs
  import opened TreeHead
  import opened Inclusion
  import opened Store
  import opened CheckpointLog
  import opened LogRuns
  import opened LogSafety
  import opened LogProgress
  import opened LogWorld

  datatype Status = BadRequest | NotFound | Conflict

  // ---------- Consistency ----------

  datatype Consistency = Consistency(firstRoot: JsString, secondRoot: JsString, proof: seq<JsString>,
                                     sthFrom: Option<SignedTreeHead>, sthTo: Option<SignedTreeHead>)

  /** GET /v1/checkpoint/consistency.  A size is None when the query is no integer; leaves are those in memory, and
      heads are read from the store afterwards. */
  function ConsistencyRoute(H: Hash, from: Option<int>, to: Option<int>, leaves: Option<seq<JsString>>, stored: Tables)
    : Result<Consistency, Status>
  {
    if from.None? || from.value < 0 then Err(BadRequest)
    else if to.None? || to.value < 0 then Err(BadRequest)
    else if from.value > to.value then Err(BadRequest)
    else if leaves.None? then Err(NotFound)
    else if to.value > |leaves.value| then Err(BadRequest)
    else
      match ConsistencyProofHex(H, from.value, leaves.value[..to.value])
      case Err(_) => Err(BadRequest)
      case Ok(proof) =>
        Ok(Consistency(RootHex(H, leaves.value[..from.value]), RootHex(H, leaves.value[..to.value]), proof,
                       HeadAt(stored, from.value), HeadAt(stored, to.value)))
  }

  ghost function ConsistencyChecks(from: Option<int>, to: Option<int>, leaves: Option<seq<JsString>>): seq<Check<Status>> {
    [Check(from.Some? && from.value >= 0, BadRequest),
     Check(to.Some? && to.value >= 0, BadRequest),
     Check(from.Some? && to.Some? && from.value <= to.value, BadRequest),
     Check(leaves.Some?, NotFound),
     Check(to.Some? && leaves.Some? && to.value <= |leaves.value|, BadRequest)]
  }

  /** The status is that of the first check that fails, and else the answer has the two roots, the proof, and whichever
      of the two heads are stored. */
  lemma ConsistencyRouteExactly(H: Hash, from: Option<int>, to: Option<int>, leaves: Option<seq<JsString>>, stored: Tables)
    ensures var r := ConsistencyRoute(H, from, to, leaves, stored);
            && FirstFailure(ConsistencyChecks(from, to, leaves), if r.Err? then Some(r.error) else None)
            && (r.Ok? ==> && r.value.firstRoot == RootHex(H, leaves.value[..from.value])
                          && r.value.secondRoot == RootHex(H, leaves.value[..to.value])
                          && Ok(r.value.proof) == ConsistencyProofHex(H, from.value, leaves.value[..to.value])
                          && r.value.sthFrom == (if from.value in stored.heads then Some(stored.heads[from.value]) else None)
                          && r.value.sthTo == (if to.value in stored.heads then Some(stored.heads[to.value]) else None))
  {
    var checks, r := ConsistencyChecks(from, to, leaves), ConsistencyRoute(H, from, to, leaves, stored);
    if r.Err? {
      assert FailsFirst(checks, if !checks[0].passes then 0 else if !checks[1].passes then 1 else if !checks[2].passes then 2
                                else if !checks[3].passes then 3 else 4);
    }
  }

  /** A head over stored records commits to the leaves that memory has at its size. */
  lemma HeadRootIsMemoryRoot(s: System, log: seq<Record>, records: seq<Record>, head: SignedTreeHead)
    requires Covers(s, log, head) && records <= log && head.treeSize <= |records|
    ensures head.rootHash == RootHex(s.H, Hashes(records)[..head.treeSize])
  {
    assert log[..head.treeSize] == records[..head.treeSize];
    assert Hashes(records)[..head.treeSize] == Hashes(records[..head.treeSize]);
  }

  /** A stored head, if there is one, is authentic and has the given root. */
  ghost predicate Authentic(s: System, head: Option<SignedTreeHead>, size: int, root: JsString) {
    head.Some? ==> head.value.treeSize == size && head.value.rootHash == root && VerifyHead(s.scheme, head.value, s.caPublicKey)
  }

  lemma HeadReadLater(s: System, l: Log, records: seq<Record>, size: int)
    requires Sound(s, l) && records <= Rows(l.tables) && 0 <= size <= |records|
    ensures Authentic(s, HeadAt(l.tables, size), size, RootHex(s.H, Hashes(records)[..size]))
  {
    if size in l.tables.heads {
      assert Covers(s, Rows(l.tables), l.tables.heads[size]);
      HeadRootIsMemoryRoot(s, Rows(l.tables), records, l.tables.heads[size]);
    }
  }

  lemma ConsistencyAnswer(H: Hash, from: int, to: int, leaves: seq<JsString>, stored: Tables)
    requires 0 <= from <= to <= |leaves|
    ensures var r := ConsistencyRoute(H, Some(from), Some(to), Some(leaves), stored);
            && r.Ok? && r.value.sthFrom == HeadAt(stored, from) && r.value.sthTo == HeadAt(stored, to)
            && r.value.firstRoot == RootHex(H, leaves[..from]) && r.value.secondRoot == RootHex(H, leaves[..to])
            && ConsistencyAccepts(H, from, to, r.value.firstRoot, r.value.secondRoot, Texts(r.value.proof))
  {
    ConsistencyComplete(H, from, leaves[..to]);
    assert leaves[..to][..from] == leaves[..from];
  }

  /** Whatever happens between the reading of the leaves and the reading of the heads, the answer is a proof that the
      consistency verifier accepts, and the heads it carries are authentic and commit to its two roots. */
  lemma ConsistencyRouteHolds(s: System, l: Log, events: seq<Event>, from: int, to: int)
    requires CanSign(s) && Sound(s, l) && Honest(s, l) && l.memory.Some? && Run(s, l, events).Some?
    requires 0 <= from <= to <= |l.memory.value.records|
    ensures var r := ConsistencyRoute(s.H, Some(from), Some(to), Some(Hashes(l.memory.value.records)), Run(s, l, events).value.tables);
            && r.Ok?
            && ConsistencyAccepts(s.H, from, to, r.value.firstRoot, r.value.secondRoot, Texts(r.value.proof))
            && Authentic(s, r.value.sthFrom, from, r.value.firstRoot)
            && Authentic(s, r.value.sthTo, to, r.value.secondRoot)
  {
    var records, later := l.memory.value.records, Run(s, l, events).value;
    RunSound(s, l, events);
    HeadReadLater(s, later, records, from);
    HeadReadLater(s, later, records, to);
    ConsistencyAnswer(s.H, from, to, Hashes(records), later.tables);
  }

  /** The heads that the service hands out: those in the table, and the one in memory, which is what the route of the
      latest checkpoint publishes and need not be the stored one. */
  ghost predicate HandedOut(l: Log, head: SignedTreeHead) {
    HeadAt(l.tables, head.treeSize) == Some(head) || (l.memory.Some? && l.memory.value.latest == Some(head))
  }

  lemma HandedOutCovers(s: System, l: Log, head: SignedTreeHead)
    requires Sound(s, l) && HandedOut(l, head)
    ensures Covers(s, Rows(l.tables), head)
  {
    if head.treeSize in l.tables.heads {
      assert Covers(s, Rows(l.tables), l.tables.heads[head.treeSize]);
    }
  }

  /** The proof between two heads that is made from the leaves in memory is accepted against the two signed roots. */
  ghost predicate Provable(H: Hash, a: SignedTreeHead, b: SignedTreeHead, records: seq<Record>)
    requires 0 <= a.treeSize <= b.treeSize <= |records|
  {
    var proof := ConsistencyProofHex(H, a.treeSize, Hashes(records)[..b.treeSize]);
    proof.Ok? && ConsistencyAccepts(H, a.treeSize, b.treeSize, a.rootHash, b.rootHash, Texts(proof.value))
  }

  /** So it is for any two heads over stored records that memory covers. */
  lemma CoveredHeadsProvable(s: System, log: seq<Record>, records: seq<Record>, a: SignedTreeHead, b: SignedTreeHead)
    requires Covers(s, log, a) && Covers(s, log, b) && records <= log && a.treeSize <= b.treeSize <= |records|
    ensures Provable(s.H, a, b, records)
  {
    HeadRootIsMemoryRoot(s, log, records, a);
    HeadRootIsMemoryRoot(s, log, records, b);
    ConsistencyComplete(s.H, a.treeSize, Hashes(records)[..b.treeSize]);
    assert Hashes(records)[..b.treeSize][..a.treeSize] == Hashes(records)[..a.treeSize];
  }

  /** A head handed out in any state stays provable: after any further steps, crashes among them, it is proved consistent
      with every head handed out then that memory covers. */
  lemma SavedHeadStaysProvable(s: System, l: Log, events: seq<Event>, later: Log, a: SignedTreeHead, b: SignedTreeHead)
    requires CanSign(s) && Sound(s, l) && Honest(s, l) && Run(s, l, events) == Some(later)
    requires HandedOut(l, a) && HandedOut(later, b)
    requires later.memory.Some? && a.treeSize <= b.treeSize <= |later.memory.value.records|
    ensures a.treeSize >= 1 && Provable(s.H, a, b, later.memory.value.records)
  {
    RunSound(s, l, events);
    HandedOutCovers(s, l, a);
    HandedOutCovers(s, later, b);
    CoversMore(s, Rows(l.tables), Rows(later.tables), a);
    CoveredHeadsProvable(s, Rows(later.tables), later.memory.value.records, a, b);
  }

  /** So it is for every company, from an empty database, between any two moments of a run. */
  lemma EveryConsistencyProofIsAccepted(s: System, events: seq<WorldEvent>, more: seq<WorldEvent>, c: Company, a: SignedTreeHead,
                                        b: SignedTreeHead)
    requires CanSign(s) && RunWorld(s, map[], events).Some? && RunWorld(s, RunWorld(s, map[], events).value, more).Some?
    requires var early := RunWorld(s, map[], events).value;
             var l := LogOf(RunWorld(s, early, more).value, c);
             && HandedOut(LogOf(early, c), a) && HandedOut(l, b)
             && l.memory.Some? && a.treeSize <= b.treeSize <= |l.memory.value.records|
    ensures var l := LogOf(RunWorld(s, RunWorld(s, map[], events).value, more).value, c);
            a.treeSize >= 1 && Provable(s.H, a, b, l.memory.value.records)
  {
    var early := RunWorld(s, map[], events).value;
    EveryReachableLogIsSound(s, events, c);
    CompaniesIndependent(s, early, more, c);
    SavedHeadStaysProvable(s, LogOf(early, c), Seen(more, c), LogOf(RunWorld(s, early, more).value, c), a, b);
  }

  // ---------- Inclusion ----------

  /** GET /v1/agents/:agentId/attestations/:index/proof.  Record, head and leaves are read from memory one after the
      other; agentKnown and owned are the two checks on the agent. */
  function InclusionRoute(H: Hash, index: Option<int>, agentKnown: bool, record: Option<Record>, owned: bool,
                          head: Option<SignedTreeHead>, leaves: Option<seq<JsString>>): Result<InclusionProof, Status>
  {
    if index.None? || index.value < 0 then Err(BadRequest)
    else if !agentKnown || record.None? || !owned then Err(NotFound)
    else if head.None? || index.value >= head.value.treeSize then Err(Conflict)
    else if leaves.None? then Err(NotFound)
    else
      match BuildInclusionProof(H, index.value, record.value, leaves.value, head.value)
      case Err(_) => Err(BadRequest)
      case Ok(proof) => Ok(proof)
  }

  ghost function InclusionRouteChecks(index: Option<int>, agentKnown: bool, record: Option<Record>, owned: bool,
                                      head: Option<SignedTreeHead>, leaves: Option<seq<JsString>>): seq<Check<Status>>
  {
    [Check(index.Some? && index.value >= 0, BadRequest),
     Check(agentKnown, NotFound),
     Check(record.Some?, NotFound),
     Check(owned, NotFound),
     Check(index.Some? && head.Some? && index.value < head.value.treeSize, Conflict),
     Check(leaves.Some?, NotFound),
     Check(head.Some? && leaves.Some? && head.value.treeSize <= |leaves.value|, BadRequest)]
  }

  /** The status is that of the first check that fails, and else the proof is the one built from what was read. */
  lemma InclusionRouteExactly(H: Hash, index: Option<int>, agentKnown: bool, record: Option<Record>, owned: bool,
                              head: Option<SignedTreeHead>, leaves: Option<seq<JsString>>)
    ensures var r := InclusionRoute(H, index, agentKnown, record, owned, head, leaves);
            && FirstFailure(InclusionRouteChecks(index, agentKnown, record, owned, head, leaves), if r.Err? then Some(r.error) else None)
            && (r.Ok? ==> Ok(r.value) == BuildInclusionProof(H, index.value, record.value, leaves.value, head.value))
  {
    var checks := InclusionRouteChecks(index, agentKnown, record, owned, head, leaves);
    if InclusionRoute(H, index, agentKnown, record, owned, head, leaves).Err? {
      assert FailsFirst(checks, if !checks[0].passes then 0 else if !checks[1].passes then 1 else if !checks[2].passes then 2
                                else if !checks[3].passes then 3 else if !checks[4].passes then 4
                                else if !checks[5].passes then 5 else 6);
    }
  }

  lemma MemoryGrowsStep(s: System, l: Log, e: Event)
    requires l.memory.Some? && e != Crash && Sound(s, l) && Next(s, l, e).Some?
    ensures var m, after := l.memory.value, Next(s, l, e).value;
            after.memory.Some? && m.records <= after.memory.value.records && (m.quiet ==> after.memory.value.quiet)
  {
  }

  /** While a process lives, its memory only grows. */
  lemma {:induction false} MemoryGrows(s: System, l: Log, events: seq<Event>)
    requires CanSign(s) && Sound(s, l) && l.memory.Some? && Crash !in events && Run(s, l, events).Some?
    ensures var m, after := l.memory.value, Run(s, l, events).value;
            after.memory.Some? && m.records <= after.memory.value.records && (m.quiet ==> after.memory.value.quiet)
    decreases |events|
  {
    if events != [] {
      StepSound(s, l, events[0]);
      MemoryGrowsStep(s, l, events[0]);
      MemoryGrows(s, Next(s, l, events[0]).value, events[1..]);
    }
  }

  /** What the route answers from what it read. */
  ghost predicate ProvenExactly(s: System, index: nat, record: Record, head: SignedTreeHead, leaves: seq<Record>) {
    var r := InclusionRoute(s.H, Some(index), true, Some(record), true, Some(head), Some(Hashes(leaves)));
    && (r.Ok? <==> head.treeSize <= |leaves|)
    && (r.Ok? ==> && r.value.root == head.rootHash
                  && VerifyInclusionProof(s.H, s.scheme, r.value, s.caPublicKey)
                     == Valid(Number(IndexNum(index)), head.treeSize, head.rootHash))
  }

  lemma UncoveredLeaves(s: System, index: nat, record: Record, head: SignedTreeHead, leaves: seq<Record>)
    requires index < |leaves| < head.treeSize
    ensures ProvenExactly(s, index, record, head, leaves)
  {
  }

  lemma RouteBuilds(H: Hash, index: nat, record: Record, head: SignedTreeHead, leaves: seq<JsString>)
    requires index < head.treeSize && BuildInclusionProof(H, index, record, leaves, head).Ok?
    ensures InclusionRoute(H, Some(index), true, Some(record), true, Some(head), Some(leaves))
         == Ok(BuildInclusionProof(H, index, record, leaves, head).value)
  {
  }

  lemma CoveredLeaves(s: System, index: nat, head: SignedTreeHead, leaves: seq<Record>)
    requires s.caPublicKey != [] && Covers(s, leaves, head) && HonestLog(s.H, leaves) && index < head.treeSize
    ensures ProvenExactly(s, index, leaves[index], head, leaves)
  {
    BuiltProofIsAccepted(s.H, s.scheme, index, leaves, head, s.caPublicKey);
    RouteBuilds(s.H, index, leaves[index], head, Hashes(leaves));
  }

  lemma InclusionAnswer(s: System, log: seq<Record>, more: seq<Record>, index: int, head: SignedTreeHead, leaves: seq<Record>)
    requires s.caPublicKey != [] && Covers(s, log, head) && log <= more && leaves <= more && HonestLog(s.H, more)
    requires 0 <= index < |leaves| && index < head.treeSize
    ensures ProvenExactly(s, index, leaves[index], head, leaves)
  {
    if head.treeSize <= |leaves| {
      HeadCoversLeaves(s, log, more, head, leaves);
      CoveredLeaves(s, index, head, leaves);
    } else {
      UncoveredLeaves(s, index, leaves[index], head, leaves);
    }
  }

  /** The record is read in one state, the head after some steps, the leaves after some more.  The answer is a proof
      exactly when memory by then has the leaves that the head covers, which after a quiet load it always does; and
      that proof is accepted and names the true index. */
  lemma InclusionRouteHolds(s: System, l: Log, first: seq<Event>, atHead: Log, second: seq<Event>, atLeaves: Log, index: int)
    requires CanSign(s) && s.caPublicKey != [] && Sound(s, l) && Honest(s, l)
    requires l.memory.Some? && 0 <= index < |l.memory.value.records|
    requires Crash !in first && Run(s, l, first) == Some(atHead)
    requires Crash !in second && Run(s, atHead, second) == Some(atLeaves)
    ensures atHead.memory.Some? && atLeaves.memory.Some? && atHead.memory.value.latest.Some?
    ensures var head, leaves := atHead.memory.value.latest.value, atLeaves.memory.value.records;
            && ProvenExactly(s, index, l.memory.value.records[index], head, leaves)
            && (l.memory.value.quiet ==> head.treeSize <= |leaves|)
  {
    RunSound(s, l, first);
    MemoryGrows(s, l, first);
    RunSound(s, atHead, second);
    MemoryGrows(s, atHead, second);
    InclusionAnswer(s, Rows(atHead.tables), Rows(atLeaves.tables), index, atHead.memory.value.latest.value,
                    atLeaves.memory.value.records);
  }

  /** After a restart that lost the race with a commit, every request for a proof of a record in memory is refused. */
  lemma RaceRefusesEveryProof(s: System, t: Tables, e: Entry, more: Tables, index: int)
    requires TablesSound(s, t) && Follows(s, Rows(t), e) && Appended(t, e.record, e.head) == Some(more)
    requires 0 <= index < |Rows(t)|
    ensures var m := RaceEnd(t, e, more).memory.value;
            InclusionRoute(s.H, Some(index), true, Some(m.records[index]), true, m.latest, Some(Hashes(m.records))) == Err(BadRequest)
  {
    AppendedAtEnd(t, e);
  }

  lemma HeadCoversLeaves(s: System, log: seq<Record>, more: seq<Record>, head: SignedTreeHead, leaves: seq<Record>)
    requires Covers(s, log, head) && log <= more && leaves <= more && head.treeSize <= |leaves| && HonestLog(s.H, more)
    ensures HonestLog(s.H, leaves) && Covers(s, leaves, head)
  {
    assert leaves[..head.treeSize] == log[..head.treeSize];
    assert leaves == more[..|leaves|];
  }

  /** An accepted inclusion proof that carries the fields of a head handed out shows a stored record: where it stands in
      the log is the index of the logged record, whatever else the proof claims. */
  lemma HandedOutHeadShowsRecord(s: System, l: Log, p: InclusionProof, head: SignedTreeHead)
    requires Sound(s, l) && Honest(s, l) && HandedOut(l, head) && Fields(p.sth) == Fields(head)
    requires VerifyInclusionProof(s.H, s.scheme, p, s.caPublicKey).Valid?
    ensures 1 <= head.treeSize <= |Rows(l.tables)|
    ensures var log := Rows(l.tables)[..head.treeSize];
            var i := ProvenIndex(p, log);
            || Collides(s.H, ProofEvidence(s.H, p, log))
            || (&& VerifyInclusionProof(s.H, s.scheme, p, s.caPublicKey) == Valid(p.record.index, head.treeSize, p.root)
                && log[i].index == IndexNum(i)
                && CarriesHash(s.H, p, log[i]) && AgreesAsFarAs(p.record, log[i]))
  {
    HandedOutCovers(s, l, head);
    HonestPrefix(s.H, Rows(l.tables), head.treeSize);
    AcceptedProofPinsRecord(s.H, s.scheme, p, s.caPublicKey, Rows(l.tables)[..head.treeSize]);
  }
}
