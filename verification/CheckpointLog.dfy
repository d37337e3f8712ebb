/** Appending a record together with a signed tree head, and loading a company's log at start-up. */
module CheckpointLog {
  import opened Bytes
  import opened JsText
  import opened SplitPoint
  import opened RecordHash
  import opened Rfc6962
  import opened TreeHead
  import opened Chain
  import opened Store

  /** What is fixed for the whole service: the hash function, the signature scheme and the CA key. */
  datatype System = System(H: Hash, scheme: Scheme, caPrivateKey: JsString, caPublicKey: JsString)

  function BuildHead(s: System, leaves: seq<JsString>, now: int): Option<SignedTreeHead> {
    match SignHead(s.scheme, HeadFields(RootHex(s.H, leaves), |leaves|, now), s.caPrivateKey)
    case Ok(head) => Some(head)
    case Err(_) => None
  }

  /** The root of a tree is always a valid head field: only the clock or the key can keep a head from being signed. */
  lemma HeadFailsOnlyOnClockOrKey(s: System, leaves: seq<JsString>, now: int)
    ensures var f := HeadFields(RootHex(s.H, leaves), |leaves|, now);
            BuildHead(s, leaves, now).None? <==> now < 0 || s.scheme.sign(s.caPrivateKey, SigningInput(f)).None?
  {
    RootHexIsRootHexText(Mth(s.H, DecodeAll(leaves)));
  }

  /** A record and the head over all leaves up to and including it. */
  datatype Entry = Entry(record: Record, head: SignedTreeHead)

  /** What one append asks the store to commit; None when the record or the head cannot be made. */
  function NextEntry(s: System, log: seq<Record>, input: Input, now: int): Option<Entry> {
    match NextRecord(s.H, s.scheme, |log|, input)
    case Err(_) => None
    case Ok(record) =>
      match BuildHead(s, Hashes(log + [record]), now)
      case None => None
      case Some(head) => Some(Entry(record, head))
  }

  /** The record holds what was attested, and the head, signed by the CA at the time given, has the root over all earlier
      leaves and its own; none is made exactly when the record cannot be, the clock is negative, or the CA key fails. */
  lemma NextEntryExactly(s: System, log: seq<Record>, input: Input, now: int)
    ensures var made, entry := NextRecord(s.H, s.scheme, |log|, input), NextEntry(s, log, input, now);
            && (made.Err? ==> entry.None?)
            && (made.Ok? ==>
                  var fields := HeadFields(RootHex(s.H, Hashes(log) + [made.value.hash]), |log| + 1, now);
                  var signature := s.scheme.sign(s.caPrivateKey, SigningInput(fields));
                  && (entry.None? <==> now < 0 || signature.None?)
                  && (entry.Some? ==> && entry.value.record == made.value && Attests(entry.value.record, input)
                                      && Fields(entry.value.head) == fields && Some(entry.value.head.signature) == signature))
  {
    NextRecordExactly(s.H, s.scheme, |log|, input);
    if NextRecord(s.H, s.scheme, |log|, input).Ok? {
      var record := NextRecord(s.H, s.scheme, |log|, input).value;
      HashesAppend(log, record);
      HeadFailsOnlyOnClockOrKey(s, Hashes(log + [record]), now);
    }
  }

  lemma EntryAttests(s: System, log: seq<Record>, input: Input, now: int, e: Entry)
    requires NextEntry(s, log, input, now) == Some(e)
    ensures Attests(e.record, input) && e.record.index == IndexNum(|log|)
    ensures e.head.treeSize == |log| + 1 && e.head.timestamp == now
  {
    NextEntryExactly(s, log, input, now);
    NextRecordAttests(s.H, s.scheme, |log|, input);
  }

  datatype AppendError = NoRecord(error: RecordError) | NotPersisted

  /** The entry returned, and the chain and rows left behind. */
  datatype Outcome = Outcome(entry: Option<Entry>, records: seq<Record>, latest: Option<SignedTreeHead>, rows: Tables)

  /** Memory advances only after the store has committed both rows.  An error leaves memory as it was, and the store
      too, unless the answer to a commit was lost. */
  function AppendOutcome(entry: Option<Entry>, records: seq<Record>, latest: Option<SignedTreeHead>, rows: Tables, weather: Weather)
    : Outcome
  {
    var same := Outcome(None, records, latest, rows);
    match entry
    case None => same
    case Some(e) =>
      match Appended(rows, e.record, e.head)
      case None => same
      case Some(more) =>
        match weather
        case Fair => Outcome(entry, records + [e.record], Some(e.head), more)
        case FailsBeforeCommit => same
        case AnswerLost => same.(rows := more)
  }

  method AppendWithCheckpoint(s: System, chain: AttestationChain, db: Database, company: Company, input: Input, now: int,
                              weather: Weather)
    returns (r: Result<Entry, AppendError>)
    requires |chain.records| < MAX_LEAVES
    modifies chain, db
    ensures AppendOutcome(NextEntry(s, old(chain.records), input, now), old(chain.records), old(chain.latestSth),
                          old(db.Rows(company)), weather)
         == Outcome(if r.Ok? then Some(r.value) else None, chain.records, chain.latestSth, db.Rows(company))
    ensures forall other :: other != company ==> db.Rows(other) == old(db.Rows(other))
    ensures r.Ok? ==> && Attests(r.value.record, input) && r.value.record.index == IndexNum(|old(chain.records)|)
                      && r.value.head.treeSize == |old(chain.records)| + 1 && r.value.head.timestamp == now
  {
    ghost var log := chain.records;
    var computed := chain.ComputeNextRecord(s.H, s.scheme, input);
    if computed.Err? {
      return Err(NoRecord(computed.error));
    }
    var record := computed.value;
    var leaves := chain.CurrentLeafHashes();
    leaves := leaves + [record.hash];
    HashesAppend(log, record);
    var built := BuildHead(s, leaves, now);
    assert NextEntry(s, log, input, now) == if built.None? then None else Some(Entry(record, built.value));
    if built.Some? {
      EntryAttests(s, log, input, now, Entry(record, built.value));
    }
    var committed := db.AppendRecordWithSTH(company, record, built, weather);
    if committed.None? {
      return Err(NotPersisted);
    }
    var pushed := chain.Push(record);
    chain.SetLatestSth(committed.value);
    return Ok(Entry(record, committed.value));
  }

  /** Whether the records read are not yet covered by the latest head. */
  predicate NeedsHead(records: seq<Record>, latest: Option<SignedTreeHead>) {
    records != [] && (latest.None? || latest.value.treeSize < |records|)
  }

  /** The chain loaded from the rows, and the rows left behind; no chain when a needed head cannot be signed. */
  datatype Loaded = Loaded(chain: Option<(seq<Record>, Option<SignedTreeHead>)>, rows: Tables)

  /** Loads the records, and mints a head for records that none covers. */
  function InitOutcome(s: System, rows: Tables, now: int): Loaded {
    var records, latest := AllRecords(rows), LatestHead(rows);
    if !NeedsHead(records, latest) then Loaded(Some((records, latest)), rows)
    else
      match BuildHead(s, Hashes(records), now)
      case None => Loaded(None, rows)
      case Some(head) => Loaded(Some((records, Some(head))), WithHead(rows, head))
  }

  method InitTenant(s: System, db: Database, company: Company, now: int) returns (tenant: AttestationChain?)
    requires |AllRecords(db.Rows(company))| <= MAX_LEAVES
    modifies db
    ensures tenant != null ==> fresh(tenant)
    ensures InitOutcome(s, old(db.Rows(company)), now)
         == Loaded(if tenant == null then None else Some((tenant.records, tenant.latestSth)), db.Rows(company))
    ensures forall other :: other != company ==> db.Rows(other) == old(db.Rows(other))
  {
    var chain := new AttestationChain();
    var rows := db.GetAllRecords(company);
    var hydrated := chain.Hydrate(rows);
    var sth := db.GetLatestSTH(company);
    if |chain.records| > 0 && (sth.None? || sth.value.treeSize < |chain.records|) {
      var leaves := chain.CurrentLeafHashes();
      sth := BuildHead(s, leaves, now);
      if sth.None? {
        return null;
      }
      db.InsertSTH(company, sth.value);
    }
    if sth.Some? {
      chain.SetLatestSth(sth.value);
    }
    return chain;
  }
}
