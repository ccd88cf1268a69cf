/**
  The application log registry (orchestrator/src/podman/log_registry.rs): one
  task multiplexing many applications' log streams, each with its own buffer.
 */
module AppLogRegistry {
  import opened Options
  import opened Shipping

  datatype StreamKind = Stdout | Stderr

  datatype Level = Info | Error

  /** What is pushed; `source` is the name the application was registered under. */
  datatype LogItem = LogItem(level: Level, message: string, source: Option<string>)

  function StreamToLevel(kind: StreamKind): Level {
    match kind
    case Stdout => Info
    case Stderr => Error
  }

  /** A log line, or nothing for a stream error. `stream` identifies the stream that yields it. */
  datatype Chunk = Chunk(stream: nat, line: Option<(StreamKind, string)>)

  /** Push outcomes are per application, so the order a map is walked in does not matter. */
  datatype Event =
    | Add(id: int, name: string, stream: nat)
    | Remove(id: int, pushed: bool)
    | Next(id: int, chunk: Chunk, pushed: bool)
    | Ended(id: int, stream: nat)
    | Tick(outcome: int -> bool)
    | Shutdown(outcome: int -> bool)

  /** `ledgers[id]` is what the push endpoint of application `id` and the drops made of its entries. */
  datatype Registry = Registry(
    streams: map<int, nat>,
    names: map<int, string>,
    buffers: map<int, seq<LogItem>>,
    ledgers: map<int, seq<Segment<LogItem>>>,
    stopped: bool)

  function Initial(): Registry {
    Registry(map[], map[], map[], map[], false)
  }

  /** The application's buffer and ledger, empty if it has none. */
  function BufferOf(r: Registry, id: int): Buffer<LogItem> {
    Buffer(if id in r.buffers then r.buffers[id] else [], if id in r.ledgers then r.ledgers[id] else [])
  }

  function Store(r: Registry, id: int, b: Buffer<LogItem>): Registry {
    r.(buffers := r.buffers[id := b.pending], ledgers := r.ledgers[id := b.ledger])
  }

  /** The entry a chunk becomes if it is yielded now; nothing if its stream is not registered. */
  function Captured(r: Registry, id: int, c: Chunk): Option<LogItem> {
    if !r.stopped && Find(r.streams, id) == Some(c.stream) && c.line.Some? then
      Some(LogItem(StreamToLevel(c.line.value.0), c.line.value.1, Find(r.names, id)))
    else None
  }

  function Step(r: Registry, e: Event, limits: Limits): Registry {
    if r.stopped then r else
    match e
    case Add(id, name, stream) =>
      r.(streams := r.streams[id := stream], names := r.names[id := name])
    case Remove(id, pushed) =>
      var b := Abandon(BufferOf(r, id), pushed, limits.maxBuffer);
      r.(streams := r.streams - {id}, names := r.names - {id}, buffers := r.buffers - {id},
         ledgers := if id in r.buffers then r.ledgers[id := b.ledger] else r.ledgers)
    case Next(id, chunk, pushed) =>
      var item := Captured(r, id, chunk);
      if item.None? then r else Store(r, id, Append(BufferOf(r, id), item.value, pushed, limits))
    case Ended(id, stream) =>
      if Find(r.streams, id) == Some(stream) then r.(streams := r.streams - {id}) else r
    case Tick(outcome) =>
      r.(buffers := map id | id in r.buffers :: Flush(BufferOf(r, id), outcome(id), limits.maxBuffer).pending,
         ledgers := r.ledgers
           + map id | id in r.buffers :: Flush(BufferOf(r, id), outcome(id), limits.maxBuffer).ledger)
    case Shutdown(outcome) =>
      r.(buffers := map[],
         ledgers := r.ledgers
           + map id | id in r.buffers :: Abandon(BufferOf(r, id), outcome(id), limits.maxBuffer).ledger,
         stopped := true)
  }

  function Run(events: seq<Event>, limits: Limits): Registry {
    if events == [] then Initial()
    else Step(Run(events[..|events| - 1], limits), events[|events| - 1], limits)
  }

  // ------------------------------------- what the event history says about one id

  predicate Over(events: seq<Event>) {
    exists i :: 0 <= i < |events| && events[i].Shutdown?
  }

  /** The name under which `id` was last added, if it was not removed since. */
  function NameAt(events: seq<Event>, id: int): Option<string> {
    if events == [] then None
    else
      var before, e := events[..|events| - 1], events[|events| - 1];
      if Over(before) then NameAt(before, id)
      else if e.Add? && e.id == id then Some(e.name)
      else if e.Remove? && e.id == id then None
      else NameAt(before, id)
  }

  /** The stream last added for `id`, if it was neither removed nor has ended since. */
  function StreamAt(events: seq<Event>, id: int): Option<nat> {
    if events == [] then None
    else
      var before, e := events[..|events| - 1], events[|events| - 1];
      var s := StreamAt(before, id);
      if Over(before) then s
      else if e.Add? && e.id == id then Some(e.stream)
      else if e.Remove? && e.id == id then None
      else if e.Ended? && e.id == id && s == Some(e.stream) then None
      else s
  }

  /** Every entry the history captures for `id`: the lines of its current stream, under its name at that time. */
  function History(events: seq<Event>, id: int): seq<LogItem> {
    if events == [] then []
    else
      var before, e := events[..|events| - 1], events[|events| - 1];
      History(before, id) +
      (if !Over(before) && e.Next? && e.id == id && e.chunk.line.Some?
          && StreamAt(before, id) == Some(e.chunk.stream) then
         [LogItem(if e.chunk.line.value.0 == Stdout then Info else Error, e.chunk.line.value.1, NameAt(before, id))]
       else [])
  }

  // -------------------------------------------------------------------- isolation

  /** The registry agrees with the history about application `id`. */
  ghost predicate Faithful(events: seq<Event>, r: Registry, id: int, limits: Limits) {
    && Find(r.streams, id) == StreamAt(events, id)
    && Find(r.names, id) == NameAt(events, id)
    && Conserves(History(events, id), BufferOf(r, id))
    && |BufferOf(r, id).pending| <= Bound(limits)
  }

  /** Streams and buffers exist only under registered names. */
  ghost predicate Named(r: Registry) {
    r.streams.Keys <= r.names.Keys && r.buffers.Keys <= r.names.Keys
  }

  lemma OverSnoc(before: seq<Event>, e: Event)
    ensures Over(before + [e]) <==> Over(before) || e.Shutdown?
  {
    var events := before + [e];
    assert events[|before|] == e;
    if Over(before) {
      var i :| 0 <= i < |before| && before[i].Shutdown?;
      assert events[i].Shutdown?;
    }
  }

  lemma BufferAfter(r: Registry, e: Event, limits: Limits, id: int)
    requires !(e.Next? && e.id == id && Captured(r, id, e.chunk).Some?)
    ensures var b, b' := BufferOf(r, id), BufferOf(Step(r, e, limits), id);
      || b' == b
      || (exists pushed :: b' == Flush(b, pushed, limits.maxBuffer))
      || (exists pushed :: b' == Abandon(b, pushed, limits.maxBuffer))
  {
  }

  lemma StepConserves(received: seq<LogItem>, r: Registry, e: Event, limits: Limits, id: int)
    requires Conserves(received, BufferOf(r, id)) && |BufferOf(r, id).pending| <= Bound(limits)
    ensures var item := if e.Next? && e.id == id then Captured(r, id, e.chunk) else None;
      Conserves(if item.Some? then received + [item.value] else received, BufferOf(Step(r, e, limits), id))
    ensures |BufferOf(Step(r, e, limits), id).pending| <= Bound(limits)
  {
    var b, b' := BufferOf(r, id), BufferOf(Step(r, e, limits), id);
    if e.Next? && e.id == id && Captured(r, id, e.chunk).Some? {
      var item := Captured(r, id, e.chunk).value;
      AppendConserves(received, b, item, e.pushed, limits);
      StaysBounded(b, item, e.pushed, limits);
    } else if !r.stopped {
      BufferAfter(r, e, limits, id);
      if exists pushed :: b' == Flush(b, pushed, limits.maxBuffer) {
        var pushed :| b' == Flush(b, pushed, limits.maxBuffer);
        FlushConserves(received, b, pushed, limits.maxBuffer);
      } else if exists pushed :: b' == Abandon(b, pushed, limits.maxBuffer) {
        var pushed :| b' == Abandon(b, pushed, limits.maxBuffer);
        AbandonConserves(received, b, pushed, limits.maxBuffer);
      }
    }
  }

  lemma Snoc(before: seq<Event>, e: Event, id: int)
    ensures NameAt(before + [e], id) ==
      if Over(before) then NameAt(before, id)
      else if e.Add? && e.id == id then Some(e.name)
      else if e.Remove? && e.id == id then None
      else NameAt(before, id)
    ensures StreamAt(before + [e], id) ==
      if Over(before) then StreamAt(before, id)
      else if e.Add? && e.id == id then Some(e.stream)
      else if e.Remove? && e.id == id then None
      else if e.Ended? && e.id == id && StreamAt(before, id) == Some(e.stream) then None
      else StreamAt(before, id)
  {
  }

  lemma HistorySnoc(before: seq<Event>, e: Event, r: Registry, id: int)
    requires Find(r.streams, id) == StreamAt(before, id) && Find(r.names, id) == NameAt(before, id)
    requires r.stopped <==> Over(before)
    ensures var item := if e.Next? && e.id == id then Captured(r, id, e.chunk) else None;
      History(before + [e], id) == if item.Some? then History(before, id) + [item.value] else History(before, id)
  {
  }

  lemma StepFinds(r: Registry, e: Event, limits: Limits, id: int)
    requires !r.stopped
    ensures Find(Step(r, e, limits).names, id) ==
      if e.Add? && e.id == id then Some(e.name) else if e.Remove? && e.id == id then None else Find(r.names, id)
    ensures Find(Step(r, e, limits).streams, id) ==
      if e.Add? && e.id == id then Some(e.stream)
      else if e.Remove? && e.id == id then None
      else if e.Ended? && e.id == id && Find(r.streams, id) == Some(e.stream) then None
      else Find(r.streams, id)
  {
  }

  /**
    Per-application isolation over every interleaving: for each application, the
    registry's stream and name are those its own events set up; what its stream
    yielded is exactly what its own endpoint and drops account for followed by
    what is buffered; and its buffer is bounded. No other application's events
    enter into any of it.
   */
  lemma {:induction false} Isolation(events: seq<Event>, limits: Limits, id: int)
    ensures Faithful(events, Run(events, limits), id, limits)
    ensures Run(events, limits).stopped <==> Over(events)
    decreases |events|
  {
    if events != [] {
      var before, e := events[..|events| - 1], events[|events| - 1];
      Isolation(before, limits, id);
      assert events == before + [e];
      StepIsFaithful(before, e, Run(before, limits), id, limits);
    }
  }

  lemma StepIsFaithful(before: seq<Event>, e: Event, r: Registry, id: int, limits: Limits)
    requires Faithful(before, r, id, limits) && (r.stopped <==> Over(before))
    ensures Faithful(before + [e], Step(r, e, limits), id, limits)
    ensures Step(r, e, limits).stopped <==> Over(before + [e])
  {
    OverSnoc(before, e);
    StepConserves(History(before, id), r, e, limits, id);
    HistorySnoc(before, e, r, id);
    Snoc(before, e, id);
    if !r.stopped {
      StepFinds(r, e, limits, id);
    }
  }

  /** In every reachable state streams and buffers belong to registered names. */
  lemma {:induction false} AlwaysNamed(events: seq<Event>, limits: Limits)
    ensures Named(Run(events, limits))
    decreases |events|
  {
    if events != [] {
      AlwaysNamed(events[..|events| - 1], limits);
    }
  }

  /** Every captured entry carries a name. */
  lemma {:induction false} AlwaysAttributed(events: seq<Event>, limits: Limits, id: int)
    ensures forall item | item in History(events, id) :: item.source.Some?
    decreases |events|
  {
    if events != [] {
      var before := events[..|events| - 1];
      AlwaysAttributed(before, limits, id);
      AlwaysNamed(before, limits);
      Isolation(before, limits, id);
    }
  }

  /** What reaches an application's endpoint is what its own stream yielded, in order, none twice. */
  lemma DeliveredInOrder(events: seq<Event>, limits: Limits, id: int)
    ensures Subsequence(Arrived(BufferOf(Run(events, limits), id).ledger), History(events, id))
  {
    Isolation(events, limits, id);
    ArrivesInOrder(History(events, id), BufferOf(Run(events, limits), id));
  }

  // ---------------------------------------------------------- what each event does

  /** A captured entry is only buffered if it does not fill its application's batch, and pushes the batch if it does. */
  lemma EntryPushesBatch(r: Registry, e: Event, limits: Limits)
    requires !r.stopped && e.Next? && Captured(r, e.id, e.chunk).Some?
    ensures var b, b' := BufferOf(r, e.id), BufferOf(Step(r, e, limits), e.id);
      var all := b.pending + [Captured(r, e.id, e.chunk).value];
      if |all| < limits.maxBatch then b' == Buffer(all, b.ledger)
      else Pushed(b, all, e.pushed, b', limits.maxBuffer)
  {
    BatchIsPushed(BufferOf(r, e.id), Captured(r, e.id, e.chunk).value, e.pushed, limits);
  }

  /** A tick pushes every application's buffer. */
  lemma TickPushes(r: Registry, e: Event, limits: Limits, id: int)
    requires !r.stopped && e.Tick?
    ensures var b, b' := BufferOf(r, id), BufferOf(Step(r, e, limits), id);
      Pushed(b, b.pending, e.outcome(id), b', limits.maxBuffer)
  {
  }

  /** A removal and the shutdown push what is buffered once; nothing stays, and nothing arrives otherwise. */
  lemma EndPushes(r: Registry, e: Event, limits: Limits, id: int)
    requires !r.stopped && Ends(e, id)
    ensures var b, b' := BufferOf(r, id), BufferOf(Step(r, e, limits), id);
      && b'.pending == []
      && Arrived(b'.ledger) == Arrived(b.ledger) + (if PushOf(e, id) == Some(true) then b.pending else [])
  {
    AbandonPushes(BufferOf(r, id), PushOf(e, id) == Some(true), limits.maxBuffer);
  }

  /** Nothing else touches `id`'s buffer, and only the shutdown stops the task. */
  lemma OthersKeepBuffer(r: Registry, e: Event, limits: Limits, id: int)
    requires !r.stopped
    ensures !e.Tick? && !Ends(e, id) && !(e.Next? && e.id == id && Captured(r, id, e.chunk).Some?) ==>
      BufferOf(Step(r, e, limits), id) == BufferOf(r, id)
    ensures Step(r, e, limits).stopped <==> e.Shutdown?
  {
  }

  lemma NothingAfterShutdown(r: Registry, e: Event, limits: Limits)
    requires r.stopped
    ensures Step(r, e, limits) == r
  {
  }

  // ---------------------------------------------------------- what a push settled

  /** Whether the push that `e` makes for `id`, if it makes one, succeeds. */
  function PushOf(e: Event, id: int): Option<bool> {
    match e
    case Remove(i, pushed) => if i == id then Some(pushed) else None
    case Next(i, _, pushed) => if i == id then Some(pushed) else None
    case Tick(outcome) => Some(outcome(id))
    case Shutdown(outcome) => Some(outcome(id))
    case _ => None
  }

  predicate Ends(e: Event, id: int) {
    (e.Remove? && e.id == id) || e.Shutdown?
  }

  /**
    What an event may add to `id`'s ledger: entries delivered by its successful
    push; or, its push having failed, entries dropped down to the cap, or entries
    lost where the application is removed or the task shuts down.
   */
  ghost predicate Explains(e: Event, id: int, segment: Segment<LogItem>, left: seq<LogItem>, limits: Limits) {
    match segment.fate
    case Delivered => PushOf(e, id) == Some(true) && left == []
    case Dropped => PushOf(e, id) == Some(false) && (Ends(e, id) || |left| == limits.maxBuffer)
    case Lost => PushOf(e, id) == Some(false) && Ends(e, id) && |segment.entries| <= limits.maxBuffer && left == []
  }

  /** All that `e` adds to `id`'s ledger is explained. */
  ghost predicate Adds(e: Event, id: int, b: Buffer<LogItem>, b': Buffer<LogItem>, limits: Limits) {
    && b.ledger <= b'.ledger
    && forall k | |b.ledger| <= k < |b'.ledger| :: Explains(e, id, b'.ledger[k], b'.pending, limits)
  }

  lemma FlushAdds(e: Event, id: int, b: Buffer<LogItem>, pushed: bool, limits: Limits)
    requires PushOf(e, id) == Some(pushed)
    ensures Adds(e, id, b, Flush(b, pushed, limits.maxBuffer), limits)
  {
  }

  lemma AppendAdds(e: Event, id: int, b: Buffer<LogItem>, item: LogItem, pushed: bool, limits: Limits)
    requires PushOf(e, id) == Some(pushed)
    ensures Adds(e, id, b, Append(b, item, pushed, limits), limits)
  {
    FlushAdds(e, id, b.(pending := b.pending + [item]), pushed, limits);
  }

  lemma AbandonAdds(e: Event, id: int, b: Buffer<LogItem>, pushed: bool, limits: Limits)
    requires PushOf(e, id) == Some(pushed) && Ends(e, id)
    ensures Adds(e, id, b, Abandon(b, pushed, limits.maxBuffer), limits)
  {
  }

  lemma StepAdds(r: Registry, e: Event, limits: Limits, id: int)
    ensures Adds(e, id, BufferOf(r, id), BufferOf(Step(r, e, limits), id), limits)
  {
    var b := BufferOf(r, id);
    match e
    case Remove(_, pushed) =>
      if e.id == id { AbandonAdds(e, id, b, pushed, limits); }
    case Next(_, chunk, pushed) =>
      if e.id == id && Captured(r, id, chunk).Some? {
        AppendAdds(e, id, b, Captured(r, id, chunk).value, pushed, limits);
      }
    case Tick(outcome) => FlushAdds(e, id, b, outcome(id), limits);
    case Shutdown(outcome) => AbandonAdds(e, id, b, outcome(id), limits);
    case _ =>
  }

  function LedgerAfter(events: seq<Event>, n: nat, limits: Limits, id: int): seq<Segment<LogItem>>
    requires n <= |events|
  {
    BufferOf(Run(events[..n], limits), id).ledger
  }

  /** Event `n` put segment `k` into `id`'s ledger, and it explains it. */
  ghost predicate SettledAt(events: seq<Event>, limits: Limits, id: int, k: nat, n: nat)
    requires n < |events|
  {
    var ledger := LedgerAfter(events, n + 1, limits, id);
    && LedgerAfter(events, n, limits, id) <= ledger && |LedgerAfter(events, n, limits, id)| <= k < |ledger|
    && Explains(events[n], id, ledger[k], BufferOf(Run(events[..n + 1], limits), id).pending, limits)
  }

  lemma EventAdds(events: seq<Event>, limits: Limits, id: int, n: nat)
    requires n < |events|
    ensures Adds(events[n], id, BufferOf(Run(events[..n], limits), id),
                 BufferOf(Run(events[..n + 1], limits), id), limits)
  {
    assert events[..n + 1][..n] == events[..n];
    StepAdds(Run(events[..n], limits), events[n], limits, id);
  }

  /**
    At every point of every run, each segment of an application's ledger goes
    back to one event: entries are delivered only by a successful push for that application
    and dropped or lost only by a failed one; and they are lost only where the
    application is removed or the task shuts down.
   */
  lemma {:induction false} EverySegmentHasItsEvent(events: seq<Event>, limits: Limits, id: int, m: nat, k: nat)
    requires m <= |events| && k < |LedgerAfter(events, m, limits, id)|
    ensures exists n :: (0 <= n < m && SettledAt(events, limits, id, k, n)
      && LedgerAfter(events, n + 1, limits, id) <= LedgerAfter(events, m, limits, id))
    decreases m
  {
    if m > 0 {
      EventAdds(events, limits, id, m - 1);
      if k < |LedgerAfter(events, m - 1, limits, id)| {
        EverySegmentHasItsEvent(events, limits, id, m - 1, k);
      } else {
        assert SettledAt(events, limits, id, k, m - 1);
      }
    }
  }

  // --------------------------------------------------------------------- the task

  class Task {
    const limits: Limits
    var streams: map<int, nat>
    var names: map<int, string>
    var buffers: map<int, seq<LogItem>>
    var stopped: bool
    ghost var ledgers: map<int, seq<Segment<LogItem>>>

    ghost function State(): Registry
      reads this
    {
      Registry(streams, names, buffers, ledgers, stopped)
    }

    constructor (limits: Limits)
      ensures this.limits == limits && State() == Initial()
    {
      this.limits := limits;
      streams, names, buffers, stopped, ledgers := map[], map[], map[], false, map[];
    }

    method Serve(events: seq<Event>)
      requires State() == Initial()
      modifies this
      ensures State() == Run(events, limits)
    {
      var n := 0;
      while n < |events|
        invariant n <= |events| && State() == Run(events[..n], limits)
      {
        assert events[..n + 1][..n] == events[..n];
        Handle(events[n]);
        n := n + 1;
      }
      assert events[..n] == events;
    }

    method Handle(e: Event)
      modifies this
      ensures State() == Step(old(State()), e, limits)
    {
      if stopped {
        return;
      }
      match e
      case Add(id, name, stream) =>
        streams, names := streams[id := stream], names[id := name];
      case Remove(id, pushed) =>
        streams, names := streams - {id}, names - {id};
        if id in buffers {
          AbandonOne(id, pushed);
        } else {
          assert buffers - {id} == buffers;
        }
      case Next(id, chunk, pushed) =>
        if id in streams && streams[id] == chunk.stream && chunk.line.Some? {
          Push(id, LogItem(StreamToLevel(chunk.line.value.0), chunk.line.value.1, Find(names, id)), pushed);
        }
      case Ended(id, stream) =>
        if id in streams && streams[id] == stream {
          streams := streams - {id};
        }
      case Tick(outcome) =>
        FlushAll(outcome);
      case Shutdown(outcome) =>
        AbandonAll(outcome);
        stopped := true;
    }

    /** A chunk's entry goes into its buffer; a full one is taken out, flushed and put back. */
    method Push(id: int, item: LogItem, pushed: bool)
      modifies this`buffers, this`ledgers
      ensures State() == Store(old(State()), id, Append(BufferOf(old(State()), id), item, pushed, limits))
    {
      ghost var b := BufferOf(State(), id);
      var buffer := (if id in buffers then buffers[id] else []) + [item];
      buffers := buffers[id := buffer];
      ghost var full := buffers;
      if |buffer| >= limits.maxBatch {
        var toFlush := TakeBuffer(id);
        toFlush := FlushApplicationLogs(toFlush, id, pushed);
        buffers := buffers[id := toFlush];
        Overwrite(full, id, [], toFlush);
        Overwrite(old(buffers), id, buffer, toFlush);
      } else {
        ledgers := ledgers[id := b.ledger];
      }
    }

    /** `mem::take`: the buffer is handed out and an empty one left in its place. */
    method TakeBuffer(id: int) returns (buffer: seq<LogItem>)
      requires id in buffers
      modifies this`buffers
      ensures buffer == old(buffers)[id] && buffers == old(buffers)[id := []]
    {
      buffer := buffers[id];
      buffers := buffers[id := []];
    }

    /** Flushes one application's buffer; what remains is handed back. */
    method FlushApplicationLogs(buffer: seq<LogItem>, id: int, pushed: bool) returns (rest: seq<LogItem>)
      modifies this`ledgers
      ensures var b := Flush(Buffer(buffer, BufferOf(old(State()), id).ledger), pushed, limits.maxBuffer);
        && rest == b.pending
        && ledgers == old(ledgers)[id := b.ledger]
    {
      if id !in ledgers {
        ledgers := ledgers[id := []];
      }
      rest := buffer;
      if buffer == [] {
        return;
      }
      if pushed {
        ledgers := ledgers[id := ledgers[id] + [Segment(Delivered, buffer)]];
        rest := [];
      } else if |buffer| > limits.maxBuffer {
        var dropCount := |buffer| - limits.maxBuffer;
        ledgers := ledgers[id := ledgers[id] + [Segment(Dropped, buffer[..dropCount])]];
        rest := buffer[dropCount..];
      }
    }

    /** A removed buffer is dropped with whatever its last flush left in it. */
    ghost method Forget(rest: seq<LogItem>, id: int)
      requires id in ledgers
      modifies this`ledgers
      ensures ledgers == old(ledgers)[
        id := if rest == [] then old(ledgers)[id] else old(ledgers)[id] + [Segment(Lost, rest)]]
    {
      if rest != [] {
        ledgers := ledgers[id := ledgers[id] + [Segment(Lost, rest)]];
      }
    }

    method FlushOne(id: int, pushed: bool)
      requires id in buffers
      modifies this`buffers, this`ledgers
      ensures State() == Store(old(State()), id, Flush(BufferOf(old(State()), id), pushed, limits.maxBuffer))
    {
      var rest := FlushApplicationLogs(buffers[id], id, pushed);
      buffers := buffers[id := rest];
    }

    method AbandonOne(id: int, pushed: bool)
      requires id in buffers
      modifies this`buffers, this`ledgers
      ensures State() == Discard(old(State()), id, Abandon(BufferOf(old(State()), id), pushed, limits.maxBuffer))
    {
      var buffer := buffers[id];
      buffers := buffers - {id};
      buffer := FlushApplicationLogs(buffer, id, pushed);
      Forget(buffer, id);
    }

    /** The interval tick, in whatever order the map is walked. */
    method FlushAll(outcome: int -> bool)
      requires !stopped
      modifies this`buffers, this`ledgers
      ensures State() == Step(old(State()), Tick(outcome), limits)
    {
      var todo := buffers.Keys;
      ghost var was := State();
      while todo != {}
        invariant Ticking(was, State(), todo, outcome, limits)
        decreases todo
      {
        var id := AnyOf(todo);
        TickingStep(was, State(), todo, id, outcome, limits);
        FlushOne(id, outcome(id));
        todo := todo - {id};
      }
      TickDone(was, State(), outcome, limits);
    }

    /** The last flush when every handle is gone. */
    method AbandonAll(outcome: int -> bool)
      requires !stopped
      modifies this`buffers, this`ledgers
      ensures State().(stopped := true) == Step(old(State()), Shutdown(outcome), limits)
    {
      var todo := buffers.Keys;
      ghost var was := State();
      while todo != {}
        invariant Closing(was, State(), todo, outcome, limits)
        decreases todo
      {
        var id := AnyOf(todo);
        ClosingStep(was, State(), todo, id, outcome, limits);
        AbandonOne(id, outcome(id));
        todo := todo - {id};
      }
      ShutdownDone(was, State(), outcome, limits);
    }
  }

  /** `now` is `was` with every buffer outside `todo` flushed. */
  ghost predicate Ticking(was: Registry, now: Registry, todo: set<int>, outcome: int -> bool, limits: Limits) {
    && now.streams == was.streams && now.names == was.names && now.stopped == was.stopped
    && todo <= now.buffers.Keys == was.buffers.Keys
    && now.ledgers.Keys == was.ledgers.Keys + (was.buffers.Keys - todo)
    && (forall id | id in todo :: now.buffers[id] == was.buffers[id])
    && (forall id | id in todo || id !in was.buffers :: Find(now.ledgers, id) == Find(was.ledgers, id))
    && (forall id | id in was.buffers && id !in todo ::
      FlushedTo(was, id, outcome(id), now.buffers[id], now.ledgers, limits))
  }

  lemma TickingStep(was: Registry, now: Registry, todo: set<int>, id: int, outcome: int -> bool, limits: Limits)
    requires id in todo && Ticking(was, now, todo, outcome, limits)
    ensures Ticking(
      was, Store(now, id, Flush(BufferOf(now, id), outcome(id), limits.maxBuffer)), todo - {id}, outcome, limits)
  {
  }

  /** Taking application `id`'s buffer out for good, with what became of it. */
  ghost function Discard(r: Registry, id: int, b: Buffer<LogItem>): Registry {
    r.(buffers := r.buffers - {id}, ledgers := r.ledgers[id := b.ledger])
  }

  /** `now` is `was` with every buffer outside `todo` given up. */
  ghost predicate Closing(was: Registry, now: Registry, todo: set<int>, outcome: int -> bool, limits: Limits) {
    && now.streams == was.streams && now.names == was.names && now.stopped == was.stopped
    && todo == now.buffers.Keys <= was.buffers.Keys
    && now.ledgers.Keys == was.ledgers.Keys + (was.buffers.Keys - todo)
    && (forall id | id in todo :: now.buffers[id] == was.buffers[id])
    && (forall id | id in todo || id !in was.buffers :: Find(now.ledgers, id) == Find(was.ledgers, id))
    && (forall id | id in was.buffers && id !in todo ::
      Find(now.ledgers, id) == Some(Abandon(BufferOf(was, id), outcome(id), limits.maxBuffer).ledger))
  }

  lemma ClosingStep(was: Registry, now: Registry, todo: set<int>, id: int, outcome: int -> bool, limits: Limits)
    requires id in todo && Closing(was, now, todo, outcome, limits)
    ensures Closing(
      was, Discard(now, id, Abandon(BufferOf(now, id), outcome(id), limits.maxBuffer)), todo - {id}, outcome, limits)
  {
  }

  lemma Overwrite<K, V>(m: map<K, V>, k: K, v: V, w: V)
    ensures m[k := v][k := w] == m[k := w]
  {
  }

  /** Application `id`'s buffer and ledger are what flushing its old ones leaves. */
  ghost predicate FlushedTo(was: Registry, id: int, pushed: bool, pending: seq<LogItem>,
                          ledgers: map<int, seq<Segment<LogItem>>>, limits: Limits) {
    var b := Flush(BufferOf(was, id), pushed, limits.maxBuffer);
    pending == b.pending && Find(ledgers, id) == Some(b.ledger)
  }

  lemma TickDone(was: Registry, now: Registry, outcome: int -> bool, limits: Limits)
    requires !was.stopped && now.streams == was.streams && now.names == was.names && !now.stopped
    requires now.buffers.Keys == was.buffers.Keys && now.ledgers.Keys == was.ledgers.Keys + was.buffers.Keys
    requires forall id | id !in was.buffers :: Find(now.ledgers, id) == Find(was.ledgers, id)
    requires forall id | id in was.buffers :: FlushedTo(was, id, outcome(id), now.buffers[id], now.ledgers, limits)
    ensures now == Step(was, Tick(outcome), limits)
  {
    TickLedgers(was, now, outcome, limits);
    forall id | id in now.buffers
      ensures now.buffers[id] == Flush(BufferOf(was, id), outcome(id), limits.maxBuffer).pending
    {
      assert FlushedTo(was, id, outcome(id), now.buffers[id], now.ledgers, limits);
    }
  }

  lemma TickLedgers(was: Registry, now: Registry, outcome: int -> bool, limits: Limits)
    requires now.buffers.Keys == was.buffers.Keys && now.ledgers.Keys == was.ledgers.Keys + was.buffers.Keys
    requires forall id | id !in was.buffers :: Find(now.ledgers, id) == Find(was.ledgers, id)
    requires forall id | id in was.buffers :: FlushedTo(was, id, outcome(id), now.buffers[id], now.ledgers, limits)
    ensures now.ledgers ==
      was.ledgers + map id | id in was.buffers :: Flush(BufferOf(was, id), outcome(id), limits.maxBuffer).ledger
  {
    forall id | id in was.buffers
      ensures Find(now.ledgers, id) == Some(Flush(BufferOf(was, id), outcome(id), limits.maxBuffer).ledger)
    {
      assert FlushedTo(was, id, outcome(id), now.buffers[id], now.ledgers, limits);
    }
    MergedLedgers(was.ledgers, now.ledgers,
                  map id | id in was.buffers :: Flush(BufferOf(was, id), outcome(id), limits.maxBuffer).ledger);
  }

  lemma MergedLedgers<V>(was: map<int, V>, now: map<int, V>, updates: map<int, V>)
    requires now.Keys == was.Keys + updates.Keys
    requires forall id | id !in updates :: Find(now, id) == Find(was, id)
    requires forall id | id in updates :: Find(now, id) == Some(updates[id])
    ensures now == was + updates
  {
    forall id | id in now
      ensures now[id] == (was + updates)[id]
    {
      assert if id in updates then Find(now, id) == Some(updates[id]) else Find(now, id) == Find(was, id);
    }
  }

  lemma ShutdownDone(was: Registry, now: Registry, outcome: int -> bool, limits: Limits)
    requires !was.stopped && now.streams == was.streams && now.names == was.names
    requires now.buffers.Keys == {} && now.ledgers.Keys == was.ledgers.Keys + was.buffers.Keys
    requires forall id | id !in was.buffers :: Find(now.ledgers, id) == Find(was.ledgers, id)
    requires forall id | id in was.buffers ::
      Find(now.ledgers, id) == Some(Abandon(BufferOf(was, id), outcome(id), limits.maxBuffer).ledger)
    ensures now.(stopped := true) == Step(was, Shutdown(outcome), limits)
  {
    assert now.buffers == map[];
    MergedLedgers(was.ledgers, now.ledgers,
                  map id | id in was.buffers :: Abandon(BufferOf(was, id), outcome(id), limits.maxBuffer).ledger);
  }
}
