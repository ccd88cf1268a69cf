/**
  The device log shipper (orchestrator/src/logging.rs): captured entries and
  flush requests share one FIFO channel; a loop batches, pushes, acknowledges.
 */
module DeviceLog {
  import opened Shipping

  /** A captured entry, or a request to flush whatever is buffered when it is taken. */
  datatype Message<T> = Entry(item: T) | FlushRequest

  /** An acknowledged flush request: its place in the channel and whether its push left nothing behind. */
  datatype Ack = Ack(position: nat, emptied: bool)

  /**
    `sent` is everything ever put into the channel, of which the loop has taken
    the first `taken`.
   */
  datatype Shipper<T> = Shipper(
    sent: seq<Message<T>>, taken: nat, sendersDropped: bool, buffer: Buffer<T>, acks: seq<Ack>, stopped: bool)

  /** `pushed` says whether the push, if this event makes one, succeeds. */
  datatype Event<T> =
    | Send(message: Message<T>)
    | DropSenders
    | Receive(pushed: bool)
    | Tick(pushed: bool)

  function Initial<T>(): Shipper<T> {
    Shipper([], 0, false, Buffer([], []), [], false)
  }

  /** One event; one that cannot happen in this state changes nothing. */
  function Step<T>(s: Shipper<T>, e: Event<T>, limits: Limits): Shipper<T>
    requires s.taken <= |s.sent|
  {
    match e
    case Send(m) => if s.sendersDropped then s else s.(sent := s.sent + [m])
    case DropSenders => s.(sendersDropped := true)
    case Receive(pushed) =>
      if s.stopped then s
      else if s.taken < |s.sent| then Take(s, pushed, limits)
      else if s.sendersDropped then s.(buffer := Flush(s.buffer, pushed, limits.maxBuffer), stopped := true)
      else s
    case Tick(pushed) =>
      if s.stopped then s else s.(buffer := Flush(s.buffer, pushed, limits.maxBuffer))
  }

  function Take<T>(s: Shipper<T>, pushed: bool, limits: Limits): Shipper<T>
    requires s.taken < |s.sent|
  {
    match s.sent[s.taken]
    case Entry(item) => s.(taken := s.taken + 1, buffer := Append(s.buffer, item, pushed, limits))
    case FlushRequest =>
      var b := Flush(s.buffer, pushed, limits.maxBuffer);
      s.(taken := s.taken + 1, buffer := b, acks := s.acks + [Ack(s.taken, b.pending == [])])
  }

  function Run<T>(s: Shipper<T>, events: seq<Event<T>>, limits: Limits): (r: Shipper<T>)
    requires s.taken <= |s.sent|
    ensures r.taken <= |r.sent|
    decreases |events|
  {
    if events == [] then s else Run(Step(s, events[0], limits), events[1..], limits)
  }

  /** The entries among some messages, in order. */
  function Items<T>(messages: seq<Message<T>>): seq<T> {
    if messages == [] then []
    else
      var last := messages[|messages| - 1];
      Items(messages[..|messages| - 1]) + (if last.Entry? then [last.item] else [])
  }

  /**
    What every reachable state satisfies: received entries are conserved; the
    buffer is within its bound; and for every acknowledged flush that left
    nothing behind, all that was sent ahead of it has been settled.
   */
  ghost predicate Invariant<T>(s: Shipper<T>, limits: Limits) {
    && s.taken <= |s.sent|
    && Conserves(Items(s.sent[..s.taken]), s.buffer)
    && |s.buffer.pending| <= Bound(limits)
    && (forall a | a in s.acks :: AckSound(s, a))
  }

  ghost predicate AckSound<T>(s: Shipper<T>, a: Ack) {
    && a.position < s.taken <= |s.sent|
    && s.sent[a.position].FlushRequest?
    && (a.emptied ==> Items(s.sent[..a.position]) <= Settled(s.buffer.ledger))
  }

  lemma ItemsSnoc<T>(messages: seq<Message<T>>, n: nat)
    requires n < |messages|
    ensures Items(messages[..n + 1]) ==
      Items(messages[..n]) + (if messages[n].Entry? then [messages[n].item] else [])
  {
    assert messages[..n + 1][..n] == messages[..n];
  }

  lemma AcksSurvive<T>(s: Shipper<T>, s': Shipper<T>)
    requires s.taken <= |s.sent| && s.sent <= s'.sent && s.taken <= s'.taken <= |s'.sent|
    requires Settled(s.buffer.ledger) <= Settled(s'.buffer.ledger)
    requires forall a | a in s.acks :: AckSound(s, a)
    ensures forall a | a in s.acks :: AckSound(s', a)
  {
    forall a | a in s.acks
      ensures AckSound(s', a)
    {
      assert AckSound(s, a);
      assert s'.sent[..a.position] == s.sent[..a.position];
    }
  }

  lemma TakeKeepsInvariant<T>(s: Shipper<T>, pushed: bool, limits: Limits)
    requires Invariant(s, limits) && s.taken < |s.sent|
    ensures Invariant(Take(s, pushed, limits), limits)
  {
    var s' := Take(s, pushed, limits);
    var received := Items(s.sent[..s.taken]);
    ItemsSnoc(s.sent, s.taken);
    if s.sent[s.taken].Entry? {
      var item := s.sent[s.taken].item;
      AppendConserves(received, s.buffer, item, pushed, limits);
      StaysBounded(s.buffer, item, pushed, limits);
      AcksSurvive(s, s');
    } else {
      FlushConserves(received, s.buffer, pushed, limits.maxBuffer);
      AcksSurvive(s, s');
      assert AckSound(s', Ack(s.taken, s'.buffer.pending == []));
    }
  }

  lemma FlushKeepsInvariant<T>(s: Shipper<T>, pushed: bool, limits: Limits)
    requires Invariant(s, limits)
    ensures Invariant(s.(buffer := Flush(s.buffer, pushed, limits.maxBuffer)), limits)
  {
    FlushConserves(Items(s.sent[..s.taken]), s.buffer, pushed, limits.maxBuffer);
    AcksSurvive(s, s.(buffer := Flush(s.buffer, pushed, limits.maxBuffer)));
  }

  lemma StepKeepsInvariant<T>(s: Shipper<T>, e: Event<T>, limits: Limits)
    requires Invariant(s, limits)
    ensures Invariant(Step(s, e, limits), limits)
  {
    match e
    case Send(m) =>
      if !s.sendersDropped {
        assert (s.sent + [m])[..s.taken] == s.sent[..s.taken];
        AcksSurvive(s, Step(s, e, limits));
      }
    case DropSenders =>
      AcksSurvive(s, Step(s, e, limits));
    case Receive(pushed) =>
      if !s.stopped && s.taken < |s.sent| {
        TakeKeepsInvariant(s, pushed, limits);
      } else if !s.stopped && s.sendersDropped {
        FlushKeepsInvariant(s, pushed, limits);
        AcksSurvive(s.(buffer := Flush(s.buffer, pushed, limits.maxBuffer)), Step(s, e, limits));
      }
    case Tick(pushed) =>
      if !s.stopped {
        FlushKeepsInvariant(s, pushed, limits);
      }
  }

  lemma {:induction false} RunKeepsInvariant<T>(s: Shipper<T>, events: seq<Event<T>>, limits: Limits)
    requires Invariant(s, limits)
    ensures Invariant(Run(s, events, limits), limits)
    decreases |events|
  {
    if events != [] {
      StepKeepsInvariant(s, events[0], limits);
      RunKeepsInvariant(Step(s, events[0], limits), events[1..], limits);
    }
  }

  /**
    Conservation and order over every run: what the loop has taken is what left
    the buffer followed by what is in it, the buffer is bounded, and the entries
    that reached the API are in the order they were sent, none twice.
   */
  lemma LogsConserved<T>(events: seq<Event<T>>, limits: Limits)
    ensures var s := Run(Initial<T>(), events, limits);
      && Items(s.sent[..s.taken]) == Settled(s.buffer.ledger) + s.buffer.pending
      && |s.buffer.pending| <= Bound(limits)
      && Subsequence(Arrived(s.buffer.ledger), Items(s.sent[..s.taken]))
  {
    RunKeepsInvariant(Initial<T>(), events, limits);
    var s := Run(Initial<T>(), events, limits);
    ArrivesInOrder(Items(s.sent[..s.taken]), s.buffer);
  }

  /** Over every run, a flush acknowledged with an empty buffer has settled everything sent before it. */
  lemma AcknowledgedFlushSettles<T>(events: seq<Event<T>>, limits: Limits, a: Ack)
    requires a in Run(Initial<T>(), events, limits).acks && a.emptied
    ensures var s := Run(Initial<T>(), events, limits);
      a.position < |s.sent| && Items(s.sent[..a.position]) <= Settled(s.buffer.ledger)
  {
    RunKeepsInvariant(Initial<T>(), events, limits);
    assert AckSound(Run(Initial<T>(), events, limits), a);
  }

  /**
    The acknowledgement itself does not say so: a request is acknowledged even
    if its push fails, and it left nothing behind exactly when there was nothing
    to push, the push succeeded, or a failed push keeps nothing at all.
   */
  lemma AcknowledgementIsUnconditional<T>(s: Shipper<T>, pushed: bool, limits: Limits)
    requires s.taken < |s.sent| && s.sent[s.taken].FlushRequest? && !s.stopped
    ensures var s' := Step(s, Receive(pushed), limits);
      s'.acks == s.acks + [Ack(s.taken, s.buffer.pending == [] || pushed || limits.maxBuffer == 0)]
  {
  }

  // ---------------------------------------------------------- what each event does

  /**
    Every receive takes the next message. An entry that does not fill the batch is
    only buffered; one that fills it, and a flush request, push what is buffered:
    if the push succeeds nothing is left, and if not, no more than the cap.
   */
  lemma MessagesPush<T>(s: Shipper<T>, pushed: bool, limits: Limits)
    requires s.taken < |s.sent| && !s.stopped
    ensures var s' := Step(s, Receive(pushed), limits);
      && s' == s.(taken := s.taken + 1, buffer := s'.buffer, acks := s'.acks)
      && match s.sent[s.taken]
         case Entry(item) =>
           var all := s.buffer.pending + [item];
           && s'.acks == s.acks
           && if |all| < limits.maxBatch then s'.buffer == Buffer(all, s.buffer.ledger)
              else Pushed(s.buffer, all, pushed, s'.buffer, limits.maxBuffer)
         case FlushRequest => Pushed(s.buffer, s.buffer.pending, pushed, s'.buffer, limits.maxBuffer)
  {
    if s.sent[s.taken].Entry? {
      BatchIsPushed(s.buffer, s.sent[s.taken].item, pushed, limits);
    } else {
      FlushPushes(s.buffer, pushed, limits.maxBuffer);
    }
  }

  /** A tick pushes what is buffered, and so does the end of the channel, which alone stops the loop. */
  lemma TicksPush<T>(s: Shipper<T>, e: Event<T>, limits: Limits)
    requires s.taken <= |s.sent| && !s.stopped && (e.Tick? || (e.Receive? && s.taken == |s.sent|))
    ensures var s' := Step(s, e, limits);
      if e.Receive? && !s.sendersDropped then s' == s
      else
        && s' == s.(buffer := s'.buffer, stopped := e.Receive?)
        && Pushed(s.buffer, s.buffer.pending, e.pushed, s'.buffer, limits.maxBuffer)
  {
    FlushPushes(s.buffer, e.pushed, limits.maxBuffer);
  }

  /** Sends fill the channel until the senders are gone; a stopped loop does nothing more. */
  lemma OtherEvents<T>(s: Shipper<T>, e: Event<T>, limits: Limits)
    requires s.taken <= |s.sent|
    ensures var s' := Step(s, e, limits);
      && (e.Send? ==> s' == if s.sendersDropped then s else s.(sent := s.sent + [e.message]))
      && (e.DropSenders? ==> s' == s.(sendersDropped := true))
      && (s.stopped && (e.Receive? || e.Tick?) ==> s' == s)
  {
  }

  // ---------------------------------------------------------- what a push settled

  predicate Pushes<T>(e: Event<T>) {
    (e.Receive? || e.Tick?) && e.pushed
  }

  /** Event `n` put segment `k` into the ledger: delivered all that was buffered, or dropped it down to the cap. */
  ghost predicate SettledAt<T>(events: seq<Event<T>>, limits: Limits, k: nat, n: nat)
    requires n < |events|
  {
    var before, after := Run(Initial<T>(), events[..n], limits), Run(Initial<T>(), events[..n + 1], limits);
    var ledger := Run(Initial<T>(), events, limits).buffer.ledger;
    && k < |ledger| && before.buffer.ledger == ledger[..k] && after.buffer.ledger == ledger[..k + 1]
    && (events[n].Receive? || events[n].Tick?)
    && ledger[k].fate == (if Pushes(events[n]) then Delivered else Dropped)
    && |after.buffer.pending| == (if Pushes(events[n]) then 0 else limits.maxBuffer)
  }

  lemma StepSettles<T>(s: Shipper<T>, e: Event<T>, limits: Limits)
    requires s.taken <= |s.sent|
    ensures Settles(s.buffer, Pushes(e), limits.maxBuffer, Step(s, e, limits).buffer)
    ensures e.Send? || e.DropSenders? ==> Step(s, e, limits).buffer == s.buffer
  {
    if e.Receive? && s.taken < |s.sent| && s.sent[s.taken].Entry? {
      FlushSettles(s.buffer, Pushes(e), limits, s.sent[s.taken].item);
    }
  }

  lemma RunLast<T>(events: seq<Event<T>>, limits: Limits, n: nat)
    requires n < |events|
    ensures Run(Initial<T>(), events[..n + 1], limits) ==
      Step(Run(Initial<T>(), events[..n], limits), events[n], limits)
  {
    assert events[..n + 1] == events[..n] + [events[n]];
    RunAppend(Initial<T>(), events[..n], [events[n]], limits);
    var s := Run(Initial<T>(), events[..n], limits);
    assert [events[n]][1..] == [];
    assert Run(s, [events[n]], limits) == Run(Step(s, events[n], limits), [], limits);
  }

  /**
    Over every run, each segment of the ledger goes back to one event: entries
    are dropped only by a failed push of more than the cap, which leaves exactly
    the cap, and delivered only by a successful push, which leaves nothing.
   */
  lemma {:induction false} EverySegmentHasItsPush<T>(events: seq<Event<T>>, limits: Limits, k: nat)
    requires k < |Run(Initial<T>(), events, limits).buffer.ledger|
    ensures exists n :: 0 <= n < |events| && SettledAt(events, limits, k, n)
    decreases |events|
  {
    assert events != [];
    var m := |events| - 1;
    var before := Run(Initial<T>(), events[..m], limits);
    RunLast(events, limits, m);
    assert events[..m + 1] == events;
    StepSettles(before, events[m], limits);
    if k < |before.buffer.ledger| {
      EverySegmentHasItsPush(events[..m], limits, k);
      var n :| 0 <= n < m && SettledAt(events[..m], limits, k, n);
      assert events[..m][..n] == events[..n] && events[..m][..n + 1] == events[..n + 1];
      assert SettledAt(events, limits, k, n);
    } else {
      assert SettledAt(events, limits, k, m);
    }
  }

  // ------------------------------------------------------------ the bound is met

  /** `n` entries sent and taken while every push fails. */
  function Outage<T>(n: nat, e: T): seq<Event<T>> {
    if n == 0 then [] else Outage(n - 1, e) + [Send(Entry(e)), Receive(false)]
  }

  lemma {:induction false} RunAppend<T>(s: Shipper<T>, a: seq<Event<T>>, b: seq<Event<T>>, limits: Limits)
    requires s.taken <= |s.sent|
    ensures Run(s, a + b, limits) == Run(Run(s, a, limits), b, limits)
    decreases |a|
  {
    if a == [] {
      assert a + b == b;
    } else {
      assert (a + b)[1..] == a[1..] + b;
      RunAppend(Step(s, a[0], limits), a[1..], b, limits);
    }
  }

  lemma {:induction false} OutageFills<T>(n: nat, e: T, limits: Limits)
    requires n <= Bound(limits)
    ensures var s := Run(Initial<T>(), Outage(n, e), limits);
      && |s.buffer.pending| == n && s.taken == |s.sent| && !s.stopped && !s.sendersDropped
  {
    if n > 0 {
      OutageFills(n - 1, e, limits);
      var last := [Send(Entry(e)), Receive(false)];
      RunAppend(Initial<T>(), Outage(n - 1, e), last, limits);
      var s := Run(Initial<T>(), Outage(n - 1, e), limits);
      var s1 := Step(s, last[0], limits);
      assert last[1..] == [last[1]] && [last[1]][1..] == [];
      assert Run(s, last, limits) == Run(s1, [last[1]], limits) == Step(s1, last[1], limits);
    }
  }

  /** The bound is exact: for all limits some run fills the buffer to it. */
  lemma BoundIsReached<T>(e: T, limits: Limits)
    ensures exists events: seq<Event<T>> :: |Run(Initial<T>(), events, limits).buffer.pending| == Bound(limits)
  {
    OutageFills(Bound(limits), e, limits);
  }

  // ------------------------------------------------------------------- the loop

  class OrchestratorLogger<T> {
    const limits: Limits
    var channel: seq<Message<T>>  // sent and not yet taken
    var sendersDropped: bool
    var buffer: seq<T>
    var stopped: bool
    ghost var history: Shipper<T>

    ghost predicate Valid()
      reads this
    {
      && history.taken <= |history.sent|
      && channel == history.sent[history.taken..]
      && sendersDropped == history.sendersDropped
      && buffer == history.buffer.pending
      && stopped == history.stopped
    }

    constructor (limits: Limits)
      ensures Valid() && this.limits == limits && history == Initial<T>()
    {
      this.limits := limits;
      channel, sendersDropped, buffer, stopped := [], false, [], false;
      history := Initial<T>();
    }

    /** Serves any finite interleaving of sends, receives, ticks and the shutdown. */
    method Serve(events: seq<Event<T>>)
      requires Valid()
      modifies this
      ensures Valid() && history == Run(old(history), events, limits)
    {
      var n := 0;
      assert events[0..] == events;
      while n < |events|
        invariant n <= |events| && Valid()
        invariant Run(history, events[n..], limits) == Run(old(history), events, limits)
      {
        assert events[n..][0] == events[n] && events[n..][1..] == events[n + 1..];
        Handle(events[n]);
        n := n + 1;
      }
    }

    method Handle(event: Event<T>)
      requires Valid()
      modifies this
      ensures Valid() && history == Step(old(history), event, limits)
    {
      match event
      case Send(m) =>
        if !sendersDropped {
          channel := channel + [m];
          history := history.(sent := history.sent + [m]);
        }
      case DropSenders =>
        sendersDropped := true;
        history := history.(sendersDropped := true);
      case Receive(pushed) =>
        if !stopped {
          if channel != [] {
            HandleMessage(pushed);
          } else if sendersDropped {
            FlushBuffer(pushed);
            stopped := true;
            history := history.(stopped := true);
          }
        }
      case Tick(pushed) =>
        if !stopped && buffer != [] {
          FlushBuffer(pushed);
        }
    }

    method HandleMessage(pushed: bool)
      requires Valid() && channel != []
      modifies this
      ensures Valid() && history == Take(old(history), pushed, limits)
    {
      var message := channel[0];
      ghost var position := history.taken;
      channel := channel[1..];
      history := history.(taken := history.taken + 1);
      match message
      case Entry(item) =>
        buffer := buffer + [item];
        history := history.(buffer := history.buffer.(pending := buffer));
        if |buffer| >= limits.maxBatch {
          FlushBuffer(pushed);
        }
      case FlushRequest =>
        FlushBuffer(pushed);
        history := history.(acks := history.acks + [Ack(position, buffer == [])]);
    }

    method FlushBuffer(pushed: bool)
      requires Valid()
      modifies this
      ensures Valid()
      ensures history == old(history).(buffer := Flush(old(history).buffer, pushed, limits.maxBuffer))
    {
      if buffer == [] {
        return;
      }
      if pushed {
        history := history.(buffer := Buffer([], history.buffer.ledger + [Segment(Delivered, buffer)]));
        buffer := [];
      } else if |buffer| > limits.maxBuffer {
        var dropCount := |buffer| - limits.maxBuffer;
        history := history.(
          buffer := Buffer(buffer[dropCount..], history.buffer.ledger + [Segment(Dropped, buffer[..dropCount])]));
        buffer := buffer[dropCount..];
      }
    }
  }
}
