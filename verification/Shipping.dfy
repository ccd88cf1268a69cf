/**
  A bounded log buffer and its ledger. The device shipper and the per-application
  registry flush the same way (orchestrator/src/logging.rs and
  orchestrator/src/podman/log_registry.rs): a successful push clears the buffer,
  a failed one drops only what exceeds the cap, oldest first.
 */
module Shipping {

  /** What became of a run of consecutive entries that left the buffer. */
  datatype Fate = Delivered | Dropped | Lost

  datatype Segment<T> = Segment(fate: Fate, entries: seq<T>)

  /** Entries still buffered, and the segments that left the buffer before them, in order. */
  datatype Buffer<T> = Buffer(pending: seq<T>, ledger: seq<Segment<T>>)

  /** Batch size that triggers a push, and the cap on what a failed push keeps. */
  datatype Limits = Limits(maxBatch: nat, maxBuffer: nat)

  function Flush<T>(b: Buffer<T>, pushed: bool, maxBuffer: nat): Buffer<T> {
    if b.pending == [] then b
    else if pushed then Buffer([], b.ledger + [Segment(Delivered, b.pending)])
    else if |b.pending| > maxBuffer then
      var n := |b.pending| - maxBuffer;
      Buffer(b.pending[n..], b.ledger + [Segment(Dropped, b.pending[..n])])
    else b
  }

  function Append<T>(b: Buffer<T>, e: T, pushed: bool, limits: Limits): Buffer<T> {
    var b' := b.(pending := b.pending + [e]);
    if |b'.pending| >= limits.maxBatch then Flush(b', pushed, limits.maxBuffer) else b'
  }

  /** Flush once more, then give up on whatever is left. */
  function Abandon<T>(b: Buffer<T>, pushed: bool, maxBuffer: nat): Buffer<T> {
    var b' := Flush(b, pushed, maxBuffer);
    if b'.pending == [] then b' else Buffer([], b'.ledger + [Segment(Lost, b'.pending)])
  }

  /** Everything that left the buffer, in order. */
  function Settled<T>(ledger: seq<Segment<T>>): seq<T> {
    if ledger == [] then [] else Settled(ledger[..|ledger| - 1]) + ledger[|ledger| - 1].entries
  }

  /** What the API received, in order. */
  function Arrived<T>(ledger: seq<Segment<T>>): seq<T> {
    if ledger == [] then []
    else
      var last := ledger[|ledger| - 1];
      Arrived(ledger[..|ledger| - 1]) + (if last.fate == Delivered then last.entries else [])
  }

  /** Conservation: what was received is what left the buffer followed by what is in it. */
  ghost predicate Conserves<T>(received: seq<T>, b: Buffer<T>) {
    received == Settled(b.ledger) + b.pending
  }

  function Bound(limits: Limits): nat {
    if limits.maxBatch > limits.maxBuffer then limits.maxBatch - 1 else limits.maxBuffer
  }

  lemma SettledSnoc<T>(ledger: seq<Segment<T>>, s: Segment<T>)
    ensures Settled(ledger + [s]) == Settled(ledger) + s.entries
    ensures Arrived(ledger + [s]) == Arrived(ledger) + (if s.fate == Delivered then s.entries else [])
  {
  }

  /** A flush moves entries from the buffer to the ledger and changes neither's order. */
  lemma FlushConserves<T>(received: seq<T>, b: Buffer<T>, pushed: bool, maxBuffer: nat)
    requires Conserves(received, b)
    ensures Conserves(received, Flush(b, pushed, maxBuffer))
    ensures Settled(b.ledger) <= Settled(Flush(b, pushed, maxBuffer).ledger)
    ensures b.ledger <= Flush(b, pushed, maxBuffer).ledger
  {
    var b' := Flush(b, pushed, maxBuffer);
    if b' != b {
      var s := b'.ledger[|b.ledger|];
      SettledSnoc(b.ledger, s);
      assert b.pending == s.entries + b'.pending;
    }
  }

  lemma AppendConserves<T>(received: seq<T>, b: Buffer<T>, e: T, pushed: bool, limits: Limits)
    requires Conserves(received, b)
    ensures Conserves(received + [e], Append(b, e, pushed, limits))
    ensures Settled(b.ledger) <= Settled(Append(b, e, pushed, limits).ledger)
    ensures b.ledger <= Append(b, e, pushed, limits).ledger
  {
    assert Settled(b.ledger) + (b.pending + [e]) == received + [e];
    FlushConserves(received + [e], b.(pending := b.pending + [e]), pushed, limits.maxBuffer);
  }

  lemma AbandonConserves<T>(received: seq<T>, b: Buffer<T>, pushed: bool, maxBuffer: nat)
    requires Conserves(received, b)
    ensures Conserves(received, Abandon(b, pushed, maxBuffer))
    ensures Abandon(b, pushed, maxBuffer).pending == []
  {
  }

  lemma StaysBounded<T>(b: Buffer<T>, e: T, pushed: bool, limits: Limits)
    requires |b.pending| <= Bound(limits)
    ensures |Append(b, e, pushed, limits).pending| <= Bound(limits)
    ensures |Flush(b, pushed, limits.maxBuffer).pending| <= Bound(limits)
  {
  }

  /**
    When a push is made and what it leaves. An entry that fills the batch pushes
    everything buffered; below the batch nothing leaves. A push that succeeds
    delivers all of it as one segment; one that fails keeps it, up to the cap.
   */
  lemma BatchIsPushed<T>(b: Buffer<T>, e: T, pushed: bool, limits: Limits)
    ensures var all, b' := b.pending + [e], Append(b, e, pushed, limits);
      if |all| < limits.maxBatch then b' == Buffer(all, b.ledger)
      else if pushed then b' == Buffer([], b.ledger + [Segment(Delivered, all)])
      else if |all| <= limits.maxBuffer then b' == Buffer(all, b.ledger)
      else
        var n := |all| - limits.maxBuffer;
        b' == Buffer(all[n..], b.ledger + [Segment(Dropped, all[..n])])
  {
  }

  /** How many of `n` buffered entries a push leaves. */
  function Left(pushed: bool, n: nat, maxBuffer: nat): nat {
    if pushed then 0 else if n <= maxBuffer then n else maxBuffer
  }

  /** `b'` is `b` after a push of `all`: empty, all of it having arrived, or down to the cap with nothing arrived. */
  ghost predicate Pushed<T>(b: Buffer<T>, all: seq<T>, pushed: bool, b': Buffer<T>, maxBuffer: nat) {
    && |b'.pending| == Left(pushed, |all|, maxBuffer)
    && Arrived(b'.ledger) == Arrived(b.ledger) + (if pushed then all else [])
  }

  lemma FlushPushes<T>(b: Buffer<T>, pushed: bool, maxBuffer: nat)
    ensures Pushed(b, b.pending, pushed, Flush(b, pushed, maxBuffer), maxBuffer)
  {
  }

  lemma AbandonPushes<T>(b: Buffer<T>, pushed: bool, maxBuffer: nat)
    ensures var b' := Abandon(b, pushed, maxBuffer);
      b'.pending == [] && Arrived(b'.ledger) == Arrived(b.ledger) + (if pushed then b.pending else [])
  {
    var flushed := Flush(b, pushed, maxBuffer);
    FlushPushes(b, pushed, maxBuffer);
    SettledSnoc(flushed.ledger, Segment(Lost, flushed.pending));
  }

  /**
    What one push does to the ledger: nothing, or one segment. A segment is
    delivered by a successful push, which empties the buffer, or dropped by a
    failed one, which leaves exactly the cap.
   */
  ghost predicate Settles<T>(b: Buffer<T>, pushed: bool, maxBuffer: nat, b': Buffer<T>) {
    || b'.ledger == b.ledger
    || (b.ledger <= b'.ledger && |b'.ledger| == |b.ledger| + 1
          && b'.ledger[|b.ledger|].fate == (if pushed then Delivered else Dropped)
          && |b'.pending| == (if pushed then 0 else maxBuffer))
  }

  lemma FlushSettles<T>(b: Buffer<T>, pushed: bool, limits: Limits, e: T)
    ensures Settles(b, pushed, limits.maxBuffer, Flush(b, pushed, limits.maxBuffer))
    ensures Settles(b, pushed, limits.maxBuffer, Append(b, e, pushed, limits))
  {
  }

  /** `a` is `b` with some elements left out. */
  ghost predicate Subsequence<T>(a: seq<T>, b: seq<T>) {
    if a == [] then true
    else if b == [] then false
    else if a[|a| - 1] == b[|b| - 1] && Subsequence(a[..|a| - 1], b[..|b| - 1]) then true
    else Subsequence(a, b[..|b| - 1])
  }

  lemma {:induction false} SubsequenceSkip<T>(a: seq<T>, b: seq<T>, c: seq<T>)
    requires Subsequence(a, b)
    ensures Subsequence(a, b + c)
  {
    if c == [] {
      assert b + c == b;
    } else {
      SubsequenceSkip(a, b, c[..|c| - 1]);
      assert (b + c)[..|b + c| - 1] == b + c[..|c| - 1];
    }
  }

  lemma {:induction false} SubsequenceTake<T>(a: seq<T>, b: seq<T>, c: seq<T>)
    requires Subsequence(a, b)
    ensures Subsequence(a + c, b + c)
  {
    if c == [] {
      assert a + c == a && b + c == b;
    } else {
      var d := c[..|c| - 1];
      SubsequenceTake(a, b, d);
      assert (b + c)[..|b + c| - 1] == b + d && (a + c)[..|a + c| - 1] == a + d;
    }
  }

  /** What arrives is what was received with some entries left out: nothing twice, nothing out of order. */
  lemma {:induction false} ArrivesInOrder<T>(received: seq<T>, b: Buffer<T>)
    requires Conserves(received, b)
    ensures Subsequence(Arrived(b.ledger), received)
  {
    ArrivedOfSettled(b.ledger);
    SubsequenceSkip(Arrived(b.ledger), Settled(b.ledger), b.pending);
  }

  lemma {:induction false} ArrivedOfSettled<T>(ledger: seq<Segment<T>>)
    ensures Subsequence(Arrived(ledger), Settled(ledger))
  {
    if ledger != [] {
      var init, last := ledger[..|ledger| - 1], ledger[|ledger| - 1];
      ArrivedOfSettled(init);
      if last.fate == Delivered {
        SubsequenceTake(Arrived(init), Settled(init), last.entries);
      } else {
        SubsequenceSkip(Arrived(init), Settled(init), last.entries);
        assert Arrived(ledger) == Arrived(init);
      }
    }
  }
}
