/**
  The scrolling log pane (log-tui/src/ui.rs, `render_entry` and `draw_logs`):
  rendering only the newest entries shows exactly what rendering all would.
 */
module LogPane {
  import opened Text
  import opened Numbers
  import opened WrapText

  /** Hanging indent of continuation rows. */
  const CONT_INDENT := 2

  /** A log event: its `time level [tag] ` prefix, and its message with the source appended. */
  datatype Entry = Entry(prefix: string, body: string)

  function Indented(chunks: seq<string>): (r: seq<string>)
    ensures |r| == |chunks|
  {
    seq(|chunks|, i requires 0 <= i < |chunks| => "  " + chunks[i])
  }

  /** The physical rows of one entry in a pane `width` cells wide. */
  function RenderEntry(e: Entry, width: nat): (rows: seq<string>)
    ensures rows != []
  {
    var w := Max(width, 1);
    var chunks := Wrapped(e.body, Max(SaturatingSub(w, |e.prefix|), 1), Max(SaturatingSub(w, CONT_INDENT), 1));
    if chunks == [] then [e.prefix] else [e.prefix + chunks[0]] + Indented(chunks[1..])
  }

  /** Every entry rendered, oldest first. */
  function AllRows(logs: seq<Entry>, width: nat): seq<string> {
    if logs == [] then [] else RenderEntry(logs[0], width) + AllRows(logs[1..], width)
  }

  /** Rows stay inside the pane, up to the one cell a prefix or indent always leaves for text. */
  lemma RowsFit(e: Entry, width: nat)
    ensures var rows := RenderEntry(e, width);
      && e.prefix <= rows[0] && |rows[0]| <= Max(width, |e.prefix| + 1)
      && forall i | 1 <= i < |rows| :: "  " <= rows[i] && |rows[i]| <= Max(width, 3)
  {
    var w := Max(width, 1);
    WrappedFits(e.body, Max(SaturatingSub(w, |e.prefix|), 1), Max(SaturatingSub(w, CONT_INDENT), 1));
  }

  /**
    No entry takes more rows than it must: any way of breaking its message into
    lines that fit the pane behind the prefix and the indent has as many.
   */
  lemma RowsAreFewest(e: Entry, width: nat, split: seq<seq<string>>)
    requires |e.prefix| < width && 2 < width
    requires Flatten(split) == Words(e.body) && Words(e.body) != []
    requires forall i | 0 <= i < |split| :: (if i == 0 then |e.prefix| else 2) + |Join(split[i])| <= width
    ensures |RenderEntry(e, width)| <= |split|
  {
    var fw, cw := width - |e.prefix|, width - 2;
    assert Fitting(split, 0, fw, cw);
    GreedyIsOptimal(e.body, fw, cw, split);
  }

  /** Nothing of an entry but whitespace is lost on the way to the screen. */
  lemma RowsKeepInk(e: Entry, width: nat)
    ensures Ink(Concat(RenderEntry(e, width))) == Ink(e.prefix) + Ink(e.body)
  {
    var w := Max(width, 1);
    var fw, cw := Max(SaturatingSub(w, |e.prefix|), 1), Max(SaturatingSub(w, CONT_INDENT), 1);
    var chunks := Wrapped(e.body, fw, cw);
    WrappedFits(e.body, fw, cw);
    WrappedKeepsInk(e.body, fw, cw);
    var head, tail := chunks[0], chunks[1..];
    IndentKeepsInk(tail);
    InkAppend(e.prefix + head, Concat(Indented(tail)));
    InkAppend(e.prefix, head);
    InkAppend(head, Concat(tail));
    Associative(Ink(e.prefix), Ink(head), Ink(Concat(tail)));
  }

  lemma {:induction false} IndentKeepsInk(chunks: seq<string>)
    ensures Ink(Concat(Indented(chunks))) == Ink(Concat(chunks))
  {
    if chunks != [] {
      var c, rest := chunks[0], chunks[1..];
      IndentKeepsInk(rest);
      assert Indented(chunks)[0] == "  " + c;
      assert Indented(chunks)[1..] == Indented(rest);
      InkAppend("  " + c, Concat(Indented(rest)));
      InkAppend("  ", c);
      InkAppend(c, Concat(rest));
      assert Ink("  ") == [] by {
        assert "  "[1..] == " " && " "[1..] == [];
      }
    }
  }

  /** The offset and the rows a pane of `height` rows shows when scrolled up by `scroll`. */
  function Window(rows: seq<string>, height: nat, scroll: nat): (nat, seq<string>) {
    var s := Min(scroll, SaturatingSub(|rows|, height));
    var end := |rows| - s;
    (s, rows[SaturatingSub(end, height)..end])
  }

  lemma {:induction false} AllRowsSnoc(logs: seq<Entry>, i: nat, width: nat)
    requires i < |logs|
    ensures AllRows(logs[i..], width) == RenderEntry(logs[i], width) + AllRows(logs[i + 1..], width)
    ensures |AllRows(logs[i..], width)| <= |AllRows(logs, width)|
  {
    assert logs[i..][1..] == logs[i + 1..];
    if i > 0 {
      AllRowsSnoc(logs[1..], i - 1, width);
      assert logs[1..][i - 1..] == logs[i..];
    } else {
      assert logs[0..] == logs;
    }
  }

  lemma {:induction false} AllRowsSplit(logs: seq<Entry>, i: nat, width: nat)
    requires i <= |logs|
    ensures AllRows(logs, width) == AllRows(logs[..i], width) + AllRows(logs[i..], width)
  {
    if i == 0 {
      assert logs[0..] == logs && logs[..0] == [];
    } else {
      AllRowsSplit(logs[1..], i - 1, width);
      assert logs[1..][..i - 1] == logs[..i][1..] && logs[1..][i - 1..] == logs[i..];
      Associative(RenderEntry(logs[0], width), AllRows(logs[..i][1..], width), AllRows(logs[i..], width));
    }
  }

  /** A suffix with at least `height + scroll` rows, or all of them, shows the same window. */
  lemma SuffixWindow(above: seq<string>, rows: seq<string>, height: nat, scroll: nat)
    requires above == [] || |rows| >= height + scroll
    ensures Window(above + rows, height, scroll) == Window(rows, height, scroll)
  {
    if above == [] {
      assert above + rows == rows;
    } else {
      SliceOfSuffix(above, rows, |rows| - scroll - height, |rows| - scroll);
    }
  }

  lemma SliceOfSuffix<T>(a: seq<T>, b: seq<T>, i: nat, j: nat)
    requires i <= j <= |b|
    ensures (a + b)[|a| + i..|a| + j] == b[i..j]
  {
  }

  /** The newest entries from index `i` on are enough if they fill the need, or if there are no others. */
  lemma EnoughRows(logs: seq<Entry>, i: nat, width: nat, height: nat, scroll: nat)
    requires i <= |logs| && |AllRows(logs, width)| <= USIZE_MAX
    requires i == 0 || |AllRows(logs[i..], width)| >= Min(height + scroll, USIZE_MAX)
    ensures Window(AllRows(logs, width), height, scroll) == Window(AllRows(logs[i..], width), height, scroll)
  {
    AllRowsSplit(logs, i, width);
    var above, rows := AllRows(logs[..i], width), AllRows(logs[i..], width);
    if i == 0 {
      assert logs[0..] == logs;
    } else {
      // If the need saturated, more rows than that cannot exist.
      assert |rows| < height + scroll ==> |above| == 0;
      SuffixWindow(above, rows, height, scroll);
    }
  }

  class LogPane {
    var logs: seq<Entry>
    var scroll: nat
    var viewport: nat

    /**
      Draws a pane of the given outer size. The stored offset and the visible
      rows are those of a full rendering; only the work differs.
     */
    method Draw(width: nat, height: nat) returns (visible: seq<string>)
      requires |AllRows(logs, SaturatingSub(width, 2))| <= USIZE_MAX
      modifies this`scroll, this`viewport
      ensures viewport == SaturatingSub(height, 2)
      ensures (scroll, visible) == Window(AllRows(logs, SaturatingSub(width, 2)), viewport, old(scroll))
    {
      var innerW := SaturatingSub(width, 2);
      var innerH := SaturatingSub(height, 2);
      viewport := innerH;
      var need := Min(innerH + scroll, USIZE_MAX);
      var rows: seq<string> := [];
      var i := |logs|;
      assert logs[i..] == [];
      while i > 0
        invariant i <= |logs|
        invariant viewport == innerH && scroll == old(scroll)
        invariant rows == AllRows(logs[i..], innerW)
        invariant i < |logs| ==> |rows| < need
      {
        i := i - 1;
        AllRowsSnoc(logs, i, innerW);
        rows := RenderEntry(logs[i], innerW) + rows;
        if |rows| >= need {
          break;
        }
      }
      EnoughRows(logs, i, innerW, innerH, scroll);
      visible := Clamp(rows, innerH);
    }

    /** Clamps the offset to what exists and takes the window. */
    method Clamp(rows: seq<string>, innerH: nat) returns (visible: seq<string>)
      modifies this`scroll
      ensures (scroll, visible) == Window(rows, innerH, old(scroll))
    {
      var maxScroll := SaturatingSub(|rows|, innerH);
      scroll := Min(scroll, maxScroll);
      var end := |rows| - scroll;
      var start := SaturatingSub(end, innerH);
      visible := rows[start..end];
    }
  }

  /** A pane is filled as long as there are rows to fill it, and its bottom row is `scroll` rows above the newest. */
  lemma WindowIsFull(rows: seq<string>, height: nat, scroll: nat)
    ensures var (s, visible) := Window(rows, height, scroll);
      && |visible| == Min(height, |rows|)
      && s <= scroll
      && (forall k | 0 <= k < |visible| :: visible[k] == rows[|rows| - s - |visible| + k])
      && (s < scroll ==> height <= |rows| ==> visible == rows[..height])
  {
  }
}
