/** The log of every company, and the methods of the service as runs. */
module LogWorld {
  import opened Bytes
  import opened RecordHash
  import opened TreeHead
  import opened Chain
  import opened Store
  import opened CheckpointLog
  import opened LogRuns
  import opened LogSafety

  // ---------- Many companies ----------

  /** A step of one company's log, or the crash of the process that serves them all. */
  datatype WorldEvent = Of(company: Company, event: Event) | PowerLoss

  type World = map<Company, Log>

  function LogOf(w: World, c: Company): Log {
    if c in w then w[c] else Start(NO_ROWS)
  }

  function Crashed(l: Log): Log {
    l.(memory := None, boot := None, waiting := None)
  }

  function NextWorld(s: System, w: World, e: WorldEvent): Option<World> {
    match e
    case Of(c, event) =>
      (match Next(s, LogOf(w, c), event)
       case None => None
       case Some(l) => Some(w[c := l]))
    case PowerLoss => Some(map c | c in w :: Crashed(w[c]))
  }

  function RunWorld(s: System, w: World, events: seq<WorldEvent>): Option<World>
    decreases |events|
  {
    if events == [] then Some(w)
    else
      match NextWorld(s, w, events[0])
      case None => None
      case Some(next) => RunWorld(s, next, events[1..])
  }

  /** What one company sees of a run. */
  function Seen(events: seq<WorldEvent>, c: Company): seq<Event> {
    if events == [] then []
    else
      (match events[0]
       case Of(d, event) => if c == d then [event] else []
       case PowerLoss => [Crash])
      + Seen(events[1..], c)
  }

  lemma RunFirst(s: System, l: Log, e: Event, events: seq<Event>)
    ensures Run(s, l, [e] + events)
         == match Next(s, l, e) { case None => None case Some(next) => Run(s, next, events) }
  {
    assert ([e] + events)[1..] == events;
  }

  /** Companies are independent: each one's log is exactly what its own events make it. */
  lemma {:induction false} CompaniesIndependent(s: System, w: World, events: seq<WorldEvent>, c: Company)
    requires RunWorld(s, w, events).Some?
    ensures Run(s, LogOf(w, c), Seen(events, c)) == Some(LogOf(RunWorld(s, w, events).value, c))
    decreases |events|
  {
    if events != [] {
      var next, rest := NextWorld(s, w, events[0]).value, Seen(events[1..], c);
      CompaniesIndependent(s, next, events[1..], c);
      match events[0]
      case Of(d, event) =>
        if c == d {
          RunFirst(s, LogOf(w, c), event, rest);
        } else {
          assert [] + rest == rest;
        }
      case PowerLoss =>
        RunFirst(s, LogOf(w, c), Crash, rest);
    }
  }

  /** From an empty database, along every interleaving: every company's log meets the invariants of its own runs, and
      each of its records is stored with its head. */
  lemma EveryReachableLogIsSound(s: System, events: seq<WorldEvent>, c: Company)
    requires CanSign(s) && RunWorld(s, map[], events).Some?
    ensures var l := LogOf(RunWorld(s, map[], events).value, c);
            Sound(s, l) && Honest(s, l) && Checkpointed(l.tables)
  {
    CompaniesIndependent(s, map[], events, c);
    StartSound(s, NO_ROWS);
    RunSound(s, Start(NO_ROWS), Seen(events, c));
  }

  // ---------- The methods are runs ----------

  lemma RunOne(s: System, l: Log, a: Event)
    ensures Run(s, l, [a]) == Next(s, l, a)
  {
    RunFirst(s, l, a, []);
    assert [a] + [] == [a];
  }

  lemma RunTwo(s: System, l: Log, a: Event, mid: Log, b: Event)
    requires Next(s, l, a) == Some(mid)
    ensures Run(s, l, [a, b]) == Next(s, mid, b)
  {
    RunFirst(s, l, a, [b]);
    RunOne(s, mid, b);
    assert [a] + [b] == [a, b];
  }

  lemma {:induction false} Composes(s: System, l: Log, first: seq<Event>, mid: Log, second: seq<Event>)
    requires Run(s, l, first) == Some(mid)
    ensures Run(s, l, first + second) == Run(s, mid, second)
    decreases |first|
  {
    if first == [] {
      assert first + second == second;
    } else {
      Composes(s, Next(s, l, first[0]).value, first[1..], mid, second);
      assert (first + second)[1..] == first[1..] + second;
    }
  }

  /** The steps that follow the sending of an entry. */
  function AnswerEvents(rows: Tables, e: Entry, weather: Weather): seq<Event> {
    if Appended(rows, e.record, e.head).None? || weather.FailsBeforeCommit? then [Abort(Append(e)), AnswerError]
    else [Commit(Append(e)), if weather.Fair? then AnswerOk else AnswerError]
  }

  lemma AppendFails(s: System, l: Log, e: Entry)
    requires l.boot.None? && l.waiting.None?
    ensures Run(s, Send(l, Append(e)), [Abort(Append(e)), AnswerError]) == Some(l.(inFlight := l.inFlight - {Append(e)}))
  {
    var sent := Send(l, Append(e));
    assert sent.inFlight - {Append(e)} == l.inFlight - {Append(e)};
    RunTwo(s, sent, Abort(Append(e)), sent.(inFlight := sent.inFlight - {Append(e)}), AnswerError);
  }

  lemma AppendCommits(s: System, l: Log, e: Entry, rows: Tables, answer: Event)
    requires l.boot.None? && l.waiting.None? && Appended(l.tables, e.record, e.head) == Some(rows)
    ensures Run(s, Send(l, Append(e)), [Commit(Append(e)), answer])
         == Next(s, Log(rows, l.inFlight - {Append(e)}, l.memory, None, Some(Waiting(Append(e), true))), answer)
  {
    var sent := Send(l, Append(e));
    assert sent.inFlight - {Append(e)} == l.inFlight - {Append(e)};
    RunTwo(s, sent, Commit(Append(e)), AfterCommit(sent, Append(e)).value, answer);
  }

  lemma AppendAnswered(s: System, l: Log, e: Entry, weather: Weather)
    requires l.memory.Some? && l.boot.None? && l.waiting.None?
    ensures var m := l.memory.value;
            var outcome := AppendOutcome(Some(e), m.records, m.latest, l.tables, weather);
            Run(s, Send(l, Append(e)), AnswerEvents(l.tables, e, weather))
            == Some(Log(outcome.rows, l.inFlight - {Append(e)}, Some(Memory(outcome.records, outcome.latest, m.quiet)), None, None))
  {
    var rows := Appended(l.tables, e.record, e.head);
    if rows.None? || weather.FailsBeforeCommit? {
      AppendFails(s, l, e);
    } else {
      AppendCommits(s, l, e, rows.value, if weather.Fair? then AnswerOk else AnswerError);
    }
  }

  lemma BeginSends(s: System, l: Log, input: Input, now: int, e: Entry)
    requires l.memory.Some? && l.waiting.None? && NextEntry(s, l.memory.value.records, input, now) == Some(e)
    ensures Next(s, l, Begin(input, now)) == Some(Send(l, Append(e)))
  {
    assert AfterBegin(s, l, input, now) == Some(Send(l, Append(e)));
  }

  lemma BeginAlone(s: System, l: Log, input: Input, now: int, e: Entry)
    requires l.memory.Some? && l.waiting.None? && NextEntry(s, l.memory.value.records, input, now) == Some(e)
    ensures Run(s, l, [Begin(input, now)]) == Some(Send(l, Append(e)))
  {
    BeginSends(s, l, input, now, e);
    RunOne(s, l, Begin(input, now));
  }

  /** Every outcome of the method AppendWithCheckpoint is the end of a run, so whatever runs keep, the method keeps. */
  lemma AppendIsRun(s: System, l: Log, input: Input, now: int, e: Entry, weather: Weather)
    requires l.memory.Some? && l.boot.None? && l.waiting.None?
    requires NextEntry(s, l.memory.value.records, input, now) == Some(e)
    ensures var m := l.memory.value;
            var outcome := AppendOutcome(Some(e), m.records, m.latest, l.tables, weather);
            Run(s, l, [Begin(input, now)] + AnswerEvents(l.tables, e, weather))
            == Some(Log(outcome.rows, l.inFlight - {Append(e)}, Some(Memory(outcome.records, outcome.latest, m.quiet)), None, None))
  {
    BeginSends(s, l, input, now, e);
    RunFirst(s, l, Begin(input, now), AnswerEvents(l.tables, e, weather));
    AppendAnswered(s, l, e, weather);
  }

  /** The steps that follow the reading of the records. */
  function LoadEvents(s: System, rows: Tables, now: int): seq<Event> {
    if !NeedsHead(AllRecords(rows), LatestHead(rows)) then [BootCheck(now)]
    else
      match BuildHead(s, Hashes(AllRecords(rows)), now)
      case None => [Crash]
      case Some(head) => [BootCheck(now)] + [Commit(Anchor(head)), AnswerOk]
  }

  lemma AnchorCommits(s: System, l: Log, boot: Boot, head: SignedTreeHead)
    requires l.memory.None? && l.boot == Some(boot) && l.waiting.None?
    ensures Run(s, Send(l, Anchor(head)), [Commit(Anchor(head)), AnswerOk])
         == Some(Log(WithHead(l.tables, head), l.inFlight - {Anchor(head)}, Some(Memory(boot.records, Some(head), boot.quiet)), None, None))
  {
    var sent := Send(l, Anchor(head));
    assert sent.inFlight - {Anchor(head)} == l.inFlight - {Anchor(head)};
    RunTwo(s, sent, Commit(Anchor(head)), AfterCommit(sent, Anchor(head)).value, AnswerOk);
  }

  /** So is every outcome of InitTenant. */
  lemma InitIsRun(s: System, l: Log, now: int)
    requires l.memory.None? && l.boot.None? && l.waiting.None?
    ensures var loaded := InitOutcome(s, l.tables, now);
            var end := Run(s, l, [BootRead] + LoadEvents(s, l.tables, now));
            && end.Some? && end.value.tables == loaded.rows && end.value.boot.None? && end.value.waiting.None?
            && end.value.inFlight <= l.inFlight
            && end.value.memory == (if loaded.chain.None? then None
                                    else Some(Memory(loaded.chain.value.0, loaded.chain.value.1, true)))
  {
    var records := AllRecords(l.tables);
    var boot := Boot(records, true);
    var loading := l.(boot := Some(boot));
    RunFirst(s, l, BootRead, LoadEvents(s, l.tables, now));
    RunOne(s, loading, BootCheck(now));
    RunOne(s, loading, Crash);
    if NeedsHead(records, LatestHead(l.tables)) && BuildHead(s, Hashes(records), now).Some? {
      var head := BuildHead(s, Hashes(records), now).value;
      RunFirst(s, loading, BootCheck(now), [Commit(Anchor(head)), AnswerOk]);
      AnchorCommits(s, loading, boot, head);
    }
  }
}
