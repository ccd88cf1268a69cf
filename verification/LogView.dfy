/**
  The log viewer's state machine (log-tui/src/app.rs): filters, reconnects, an
  epoch that keeps messages of torn-down streams out, and a bounded list of logs.
 */
module LogView {
  import opened Numbers
  import opened Options

  datatype Level = Trace | Debug | Info | Warn | Error | Fatal

  /** The filters a subscription is opened with. */
  datatype Query = Query(device: Option<int>, level: Option<Level>)

  datatype Stream = Stream(query: Query, epoch: nat)

  datatype Conn = Reconnecting | Live | Failed(reason: string)

  datatype Kind<E> = Connected | Log(entry: E) | Disconnected(reason: string) | ParseWarn(reason: string)

  datatype Key =
    | Quit
    | SetLevel(level: Option<Level>)
    | Clear
    | ScrollUp
    | ScrollDown
    | SelectNext
    | SelectPrev
    | SelectAll
    | OtherKey

  /** `Drawn` is the renderer setting the pane height and clamping the offset to the rows there are. */
  datatype Input<E> = Message(epoch: nat, kind: Kind<E>) | Press(key: Key) | Drawn(viewport: usize, rows: usize)

  datatype View<E> = View(
    devices: seq<int>, maxLogs: nat,
    selected: nat, minLevel: Option<Level>,
    logs: seq<E>, scroll: usize, viewport: usize,
    conn: Conn, lastWarn: Option<string>, shouldQuit: bool,
    epoch: nat, stream: Option<Stream>)

  /** 0 is "all devices". */
  function SelectedDevice<E>(v: View<E>): Option<int> {
    if v.selected == 0 || v.selected > |v.devices| then None else Some(v.devices[v.selected - 1])
  }

  function CurrentQuery<E>(v: View<E>): Query {
    Query(SelectedDevice(v), v.minLevel)
  }

  function Reconnect<E>(v: View<E>): View<E> {
    v.(epoch := v.epoch + 1, conn := Reconnecting, scroll := 0,
       stream := Some(Stream(CurrentQuery(v), v.epoch + 1)))
  }

  /** The last `n` elements. */
  function Newest<E>(s: seq<E>, n: nat): seq<E> {
    if |s| <= n then s else s[|s| - n..]
  }

  /**
    `+= 1` on a `usize`, which would wrap around in a release build and panic in
    a debug build; `EntryKeepsScrolledUp` rules both out.
   */
  function Advance(n: usize): usize {
    if n == USIZE_MAX then 0 else n + 1
  }

  function PushLog<E>(v: View<E>, e: E): View<E> {
    v.(logs := Newest(v.logs + [e], v.maxLogs), scroll := if v.scroll > 0 then Advance(v.scroll) else 0)
  }

  function ScrollStep<E>(v: View<E>): usize {
    if v.viewport / 2 < 1 then 1 else v.viewport / 2
  }

  function OnMessage<E>(v: View<E>, epoch: nat, kind: Kind<E>): View<E> {
    if epoch != v.epoch then v
    else
      match kind
      case Connected => v.(conn := Live)
      case Log(e) => PushLog(v.(conn := Live), e)
      case Disconnected(reason) => v.(conn := Failed(reason))
      case ParseWarn(reason) => v.(lastWarn := Some(reason))
  }

  function OnKey<E>(v: View<E>, key: Key): View<E> {
    match key
    case Quit => v.(shouldQuit := true)
    case SetLevel(level) => if v.minLevel != level then Reconnect(v.(minLevel := level)) else v
    case Clear => v.(logs := [], scroll := 0)
    case ScrollUp => v.(scroll := if v.scroll + ScrollStep(v) > USIZE_MAX then USIZE_MAX else v.scroll + ScrollStep(v))
    case ScrollDown => v.(scroll := if v.scroll < ScrollStep(v) then 0 else v.scroll - ScrollStep(v))
    case SelectNext => if v.selected < |v.devices| then Reconnect(v.(selected := v.selected + 1)) else v
    case SelectPrev => if v.selected > 0 then Reconnect(v.(selected := v.selected - 1)) else v
    case SelectAll => if v.selected != 0 then Reconnect(v.(selected := 0)) else v
    case OtherKey => v
  }

  function Step<E>(v: View<E>, i: Input<E>): View<E> {
    match i
    case Message(epoch, kind) => OnMessage(v, epoch, kind)
    case Press(key) => OnKey(v, key)
    case Drawn(viewport, rows) => v.(viewport := viewport, scroll := Min(v.scroll, SaturatingSub(rows, viewport)))
  }

  /** The viewer once the device list is fetched and the first stream is open. */
  function Opened<E>(devices: seq<int>, selected: nat, minLevel: Option<Level>, maxLogs: nat): View<E> {
    Reconnect(View(devices, if maxLogs < 1 then 1 else maxLogs, selected, minLevel, [], 0, 0,
                   Reconnecting, None, false, 0, None))
  }

  function Run<E>(start: View<E>, inputs: seq<Input<E>>): View<E> {
    if inputs == [] then start else Step(Run(start, inputs[..|inputs| - 1]), inputs[|inputs| - 1])
  }

  // ------------------------------------------------------------------ over runs

  /** The log messages of the stream that was current when they came, since the logs were last cleared. */
  function AcceptedSinceClear<E>(start: View<E>, inputs: seq<Input<E>>): seq<E> {
    if inputs == [] then []
    else
      var before, i := inputs[..|inputs| - 1], inputs[|inputs| - 1];
      var accepted := AcceptedSinceClear(start, before);
      if i == Press(Clear) then []
      else if i.Message? && i.kind.Log? && i.epoch == Run(start, before).epoch then accepted + [i.kind.entry]
      else accepted
  }

  lemma NewestAppend<E>(s: seq<E>, e: E, n: nat)
    requires n >= 1
    ensures Newest(Newest(s, n) + [e], n) == Newest(s + [e], n)
  {
  }

  ghost predicate Sound<E>(start: View<E>, inputs: seq<Input<E>>, v: View<E>) {
    && v.devices == start.devices && v.maxLogs == start.maxLogs
    && InStep(v)
    && start.epoch <= v.epoch
    && v.logs == Newest(AcceptedSinceClear(start, inputs), v.maxLogs)
  }

  /** The open stream is the one for the filters on screen and the current epoch. */
  ghost predicate InStep<E>(v: View<E>) {
    v.selected <= |v.devices| && v.stream == Some(Stream(CurrentQuery(v), v.epoch))
  }

  lemma StepStaysInStep<E>(v: View<E>, i: Input<E>)
    requires InStep(v)
    ensures var v' := Step(v, i);
      && InStep(v') && v'.devices == v.devices && v'.maxLogs == v.maxLogs && v.epoch <= v'.epoch
      && v'.logs == (if i == Press(Clear) then []
                     else if i.Message? && i.kind.Log? && i.epoch == v.epoch then
                       Newest(v.logs + [i.kind.entry], v.maxLogs)
                     else v.logs)
  {
  }

  /**
    Over every run of messages, keys and redraws: the open stream is always the
    one for the filters on screen and the current epoch, the selection stays in
    the device list, and the logs are the last `maxLogs` entries accepted since
    the last clear.
   */
  lemma {:induction false} ViewIsSound<E>(
    devices: seq<int>, selected: nat, minLevel: Option<Level>, maxLogs: nat, inputs: seq<Input<E>>)
    requires selected <= |devices|
    ensures var start := Opened<E>(devices, selected, minLevel, maxLogs);
      Sound(start, inputs, Run(start, inputs))
    decreases |inputs|
  {
    if inputs != [] {
      var start := Opened<E>(devices, selected, minLevel, maxLogs);
      var before := inputs[..|inputs| - 1];
      var i := inputs[|inputs| - 1];
      ViewIsSound(devices, selected, minLevel, maxLogs, before);
      StepStaysInStep(Run(start, before), i);
      if i.Message? && i.kind.Log? {
        NewestAppend(AcceptedSinceClear(start, before), i.kind.entry, start.maxLogs);
      }
    }
  }

  // ------------------------------------------------------------- keys and messages

  /** What the open stream asks for is what the keys have chosen; a stream is replaced only when that changes. */
  lemma KeysChoose<E>(v: View<E>, key: Key)
    requires InStep(v)
    ensures var was, now := v.stream.value.query, OnKey(v, key).stream.value.query;
      && (key.SetLevel? ==> now == was.(level := key.level))
      && (key == SelectAll ==> now == was.(device := None))
      && (key == SelectNext && v.selected < |v.devices| ==> now == was.(device := Some(v.devices[v.selected])))
      && (key == SelectNext && v.selected == |v.devices| ==> now == was)
      && (key == SelectPrev && v.selected > 1 ==> now == was.(device := Some(v.devices[v.selected - 2])))
      && (key == SelectPrev && v.selected <= 1 ==> now == was.(device := None))
      && (!(key.SetLevel? || key == SelectAll || key == SelectNext || key == SelectPrev) ==>
            OnKey(v, key).stream == v.stream && OnKey(v, key).conn == v.conn)
      && (OnKey(v, key).epoch != v.epoch ==>
            OnKey(v, key).epoch == v.epoch + 1 && OnKey(v, key).scroll == 0 && OnKey(v, key).conn == Reconnecting)
      && (OnKey(v, key).epoch == v.epoch ==> was == now)
      && OnKey(v, key).shouldQuit == (key == Quit || v.shouldQuit)
  {
  }

  /** Up is towards older entries by half a pane, at least one row, and down undoes it. */
  lemma KeysScroll<E>(v: View<E>)
    requires v.scroll + ScrollStep(v) <= USIZE_MAX
    ensures ScrollStep(v) >= 1 && (v.viewport >= 2 ==> 2 * ScrollStep(v) <= v.viewport < 2 * ScrollStep(v) + 2)
    ensures OnKey(v, ScrollUp).scroll == v.scroll + ScrollStep(v)
    ensures OnKey(OnKey(v, ScrollUp), ScrollDown) == v
    ensures v.scroll <= ScrollStep(v) ==> OnKey(v, ScrollDown).scroll == 0
    ensures OnKey(v, Clear) == v.(logs := [], scroll := 0)
  {
  }

  /** What a message of the current stream shows of the connection. */
  lemma MessagesShow<E>(v: View<E>, kind: Kind<E>)
    ensures var v' := Step(v, Message(v.epoch, kind));
      && (kind.Connected? || kind.Log? ==> v'.conn == Live)
      && (kind.Disconnected? ==> v' == v.(conn := Failed(kind.reason)))
      && (kind.ParseWarn? ==> v' == v.(lastWarn := Some(kind.reason)))
      && (kind.Connected? ==> v' == v.(conn := Live))
  {
  }

  // ---------------------------------------------------------- the scroll offset

  /** As the main loop does: draw, then take one key or a burst of messages, and draw again. */
  predicate Paced<E>(inputs: seq<Input<E>>) {
    forall n | 0 <= n < |inputs| && !inputs[n].Drawn? ::
      n > 0 && (if inputs[n].Press? then inputs[n - 1].Drawn? else !inputs[n - 1].Press?)
  }

  /** How many rows there were above a full pane at the last draw. */
  function RowsAbove<E>(inputs: seq<Input<E>>): nat {
    if inputs == [] then 0
    else
      var last := inputs[|inputs| - 1];
      if last.Drawn? then SaturatingSub(last.rows, last.viewport) else RowsAbove(inputs[..|inputs| - 1])
  }

  /** How many messages came since. */
  function BurstSoFar<E>(inputs: seq<Input<E>>): nat {
    if inputs == [] || inputs[|inputs| - 1].Drawn? then 0
    else BurstSoFar(inputs[..|inputs| - 1]) + (if inputs[|inputs| - 1].Message? then 1 else 0)
  }

  /** How far a key pressed since may have moved the offset. */
  function KeyStep<E>(v: View<E>, inputs: seq<Input<E>>): nat {
    if inputs != [] && inputs[|inputs| - 1].Press? then ScrollStep(v) else 0
  }

  lemma PacedPrefix<E>(inputs: seq<Input<E>>)
    requires inputs != [] && Paced(inputs)
    ensures Paced(inputs[..|inputs| - 1])
    ensures var before, i := inputs[..|inputs| - 1], inputs[|inputs| - 1];
      || i.Drawn?
      || (i.Press? && before != [] && before[|before| - 1].Drawn?)
      || (i.Message? && before != [] && !before[|before| - 1].Press?)
  {
  }

  /**
    Over every run paced by the main loop, the offset stays within the rows that
    were above the pane at the last draw, plus the messages since or one step of
    a key.
   */
  lemma {:induction false} OffsetInRange<E>(start: View<E>, inputs: seq<Input<E>>)
    requires Paced(inputs) && start.scroll == 0
    ensures var v := Run(start, inputs);
      v.scroll <= RowsAbove(inputs) + BurstSoFar(inputs) + KeyStep(v, inputs)
    decreases |inputs|
  {
    if inputs != [] {
      var n := |inputs| - 1;
      PacedPrefix(inputs);
      OffsetInRange(start, inputs[..n]);
      OffsetStep(Run(start, inputs[..n]), inputs[n]);
    }
  }

  /**
    So no entry ever carries a scrolled-up view back to the live tail: it would
    take as many rows and messages together as a `usize` counts.
   */
  lemma EntryKeepsScrolledUp<E>(start: View<E>, inputs: seq<Input<E>>, e: E)
    requires start.scroll == 0 && Paced(inputs + [Message(Run(start, inputs).epoch, Log(e))])
    requires RowsAbove(inputs) + BurstSoFar(inputs) < USIZE_MAX
    ensures var v := Run(start, inputs);
      Step(v, Message(v.epoch, Log(e))).scroll == if v.scroll > 0 then v.scroll + 1 else 0
  {
    var last := Message(Run(start, inputs).epoch, Log(e));
    PacedPrefix(inputs + [last]);
    assert (inputs + [last])[..|inputs|] == inputs;
    OffsetInRange(start, inputs);
  }

  lemma OffsetStep<E>(v: View<E>, i: Input<E>)
    ensures var v' := Step(v, i);
      && (i.Drawn? ==> v'.scroll <= SaturatingSub(i.rows, i.viewport))
      && (i.Message? ==> v'.scroll <= v.scroll + 1 && v'.viewport == v.viewport)
      && (i.Press? ==> v'.scroll <= v.scroll + ScrollStep(v) && v'.viewport == v.viewport)
  {
  }

  /** Once a stream has been replaced, nothing it still sends has any effect, however the run goes on. */
  lemma StaleStreamIsSilent<E>(v: View<E>, inputs: seq<Input<E>>, epoch: nat, kind: Kind<E>)
    requires epoch < v.epoch
    ensures Step(Run(v, inputs), Message(epoch, kind)) == Run(v, inputs)
  {
    EpochGrows(v, inputs);
  }

  lemma {:induction false} EpochGrows<E>(v: View<E>, inputs: seq<Input<E>>)
    ensures v.epoch <= Run(v, inputs).epoch
    decreases |inputs|
  {
    if inputs != [] {
      EpochGrows(v, inputs[..|inputs| - 1]);
    }
  }

  // -------------------------------------------------------------------- the viewer

  class App<E> {
    const devices: seq<int>
    const maxLogs: nat
    var selected: nat
    var minLevel: Option<Level>
    var logs: seq<E>
    var scroll: usize
    var viewport: usize
    var conn: Conn
    var lastWarn: Option<string>
    var shouldQuit: bool
    var epoch: nat
    var stream: Option<Stream>

    ghost function State(): View<E>
      reads this
    {
      View(devices, maxLogs, selected, minLevel, logs, scroll, viewport, conn, lastWarn, shouldQuit, epoch, stream)
    }

    constructor (devices: seq<int>, selected: nat, minLevel: Option<Level>, maxLogs: nat)
      ensures State() == Opened<E>(devices, selected, minLevel, maxLogs)
    {
      this.devices, this.selected, this.minLevel := devices, selected, minLevel;
      this.maxLogs := if maxLogs < 1 then 1 else maxLogs;
      logs, scroll, viewport := [], 0, 0;
      conn, lastWarn, shouldQuit := Reconnecting, None, false;
      epoch, stream := 0, None;
      new;
      OpenStream();
    }

    /** Runs the event loop over any finite sequence of inputs. */
    method Serve(inputs: seq<Input<E>>)
      modifies this
      ensures State() == Run(old(State()), inputs)
    {
      var n := 0;
      while n < |inputs|
        invariant n <= |inputs| && State() == Run(old(State()), inputs[..n])
      {
        assert inputs[..n + 1][..n] == inputs[..n];
        match inputs[n] {
          case Message(e, kind) => HandleMessage(e, kind);
          case Press(key) => HandleKey(key);
          case Drawn(height, rows) => viewport, scroll := height, Min(scroll, SaturatingSub(rows, height));
        }
        n := n + 1;
      }
      assert inputs[..n] == inputs;
    }

    method OpenStream()
      modifies this
      ensures State() == Reconnect(old(State()))
    {
      epoch := epoch + 1;
      conn := Reconnecting;
      scroll := 0;
      var device := if selected == 0 || selected > |devices| then None else Some(devices[selected - 1]);
      stream := Some(Stream(Query(device, minLevel), epoch));
    }

    method HandleMessage(messageEpoch: nat, kind: Kind<E>)
      modifies this
      ensures State() == OnMessage(old(State()), messageEpoch, kind)
    {
      if messageEpoch != epoch {
        return;
      }
      match kind
      case Connected => conn := Live;
      case Log(entry) =>
        conn := Live;
        Append(entry);
      case Disconnected(reason) => conn := Failed(reason);
      case ParseWarn(reason) => lastWarn := Some(reason);
    }

    method Append(entry: E)
      modifies this
      ensures State() == PushLog(old(State()), entry)
    {
      logs := logs + [entry];
      while |logs| > maxLogs
        invariant State() == old(State()).(logs := logs)
        invariant Newest(logs, maxLogs) == Newest(old(logs) + [entry], maxLogs)
        decreases |logs|
      {
        logs := logs[1..];
      }
      if scroll > 0 {
        scroll := Advance(scroll);
      }
    }

    method HandleKey(key: Key)
      modifies this
      ensures State() == OnKey(old(State()), key)
    {
      var step := if viewport / 2 < 1 then 1 else viewport / 2;
      match key
      case Quit => shouldQuit := true;
      case SetLevel(level) =>
        if minLevel != level {
          minLevel := level;
          OpenStream();
        }
      case Clear => logs, scroll := [], 0;
      case ScrollUp => scroll := if scroll + step > USIZE_MAX then USIZE_MAX else scroll + step;
      case ScrollDown => scroll := if scroll < step then 0 else scroll - step;
      case SelectNext =>
        if selected < |devices| {
          selected := selected + 1;
          OpenStream();
        }
      case SelectPrev =>
        if selected > 0 {
          selected := selected - 1;
          OpenStream();
        }
      case SelectAll =>
        if selected != 0 {
          selected := 0;
          OpenStream();
        }
      case OtherKey =>
    }
  }
}
