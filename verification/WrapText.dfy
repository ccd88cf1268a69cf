/**
  Greedy word-wrap with hard splits (log-tui/src/ui.rs, `wrap_text`): what every
  output keeps, and that no other way of breaking the words uses fewer lines.
 */
module WrapText {
  import opened Text

  // -------------------------------------------------------------------- words

  predicate IsWord(w: string) {
    w != [] && forall c | c in w :: !IsSpace(c)
  }

  predicate AllWords(ws: seq<string>) {
    forall w | w in ws :: IsWord(w)
  }

  /** Length of the longest whitespace-free prefix. */
  function WordLength(s: string): (n: nat)
    ensures n <= |s|
    ensures forall k | 0 <= k < n :: !IsSpace(s[k])
    ensures n < |s| ==> IsSpace(s[n])
  {
    if s == [] || IsSpace(s[0]) then 0 else 1 + WordLength(s[1..])
  }

  /** `text.split_whitespace()` */
  function Words(text: string): (ws: seq<string>)
    ensures AllWords(ws)
    decreases |text|
  {
    if text == [] then []
    else if IsSpace(text[0]) then Words(text[1..])
    else
      var n := WordLength(text);
      assert forall c | c in text[..n] :: !IsSpace(c);
      [text[..n]] + Words(text[n..])
  }

  /** Everything but the whitespace, in order. */
  function Ink(s: string): string {
    if s == [] then [] else (if IsSpace(s[0]) then [] else [s[0]]) + Ink(s[1..])
  }

  function Concat(ss: seq<string>): string {
    if ss == [] then [] else ss[0] + Concat(ss[1..])
  }

  /** Words joined by single blanks. */
  function Join(ws: seq<string>): string {
    if ws == [] then []
    else if |ws| == 1 then ws[0]
    else ws[0] + " " + Join(ws[1..])
  }

  lemma {:induction false} InkAppend(a: string, b: string)
    ensures Ink(a + b) == Ink(a) + Ink(b)
  {
    if a == [] {
      assert a + b == b;
    } else {
      var head := if IsSpace(a[0]) then [] else [a[0]];
      InkAppend(a[1..], b);
      assert (a + b)[1..] == a[1..] + b;
      assert Ink(a + b) == head + (Ink(a[1..]) + Ink(b)) == (head + Ink(a[1..])) + Ink(b);
    }
  }

  lemma {:induction false} InkOfWord(w: string)
    requires forall c | c in w :: !IsSpace(c)
    ensures Ink(w) == w
  {
    if w != [] {
      InkOfWord(w[1..]);
    }
  }

  lemma {:induction false} InkOfWords(text: string)
    ensures Concat(Words(text)) == Ink(text)
    decreases |text|
  {
    if text == [] {
    } else if IsSpace(text[0]) {
      InkOfWords(text[1..]);
    } else {
      var n := WordLength(text);
      InkOfWords(text[n..]);
      InkOfWord(text[..n]);
      InkAppend(text[..n], text[n..]);
      assert text == text[..n] + text[n..];
    }
  }

  lemma {:induction false} ConcatAppend(a: seq<string>, b: seq<string>)
    ensures Concat(a + b) == Concat(a) + Concat(b)
  {
    if a == [] {
      assert a + b == b;
    } else {
      ConcatAppend(a[1..], b);
      assert (a + b)[1..] == a[1..] + b;
      Associative(a[0], Concat(a[1..]), Concat(b));
    }
  }

  /** Splitting the join of some words gives the words back. */
  lemma {:induction false} WordsOfJoin(ws: seq<string>)
    requires AllWords(ws)
    ensures Words(Join(ws)) == ws
  {
    if ws != [] {
      var w, rest := ws[0], ws[1..];
      assert w in ws;
      assert forall x | x in rest :: x in ws;
      WordsOfJoin(rest);
      if rest == [] {
        WordsOfWord(w, []);
        assert w + [] == w;
      } else {
        WordsOfWord(w, " " + Join(rest));
        Associative(w, " ", Join(rest));
        WordsAfterBlank(Join(rest));
      }
      assert ws == [w] + rest;
    }
  }

  lemma WordsAfterBlank(s: string)
    ensures Words(" " + s) == Words(s)
  {
  }

  lemma WordsOfWord(w: string, tail: string)
    requires IsWord(w) && (tail == [] || IsSpace(tail[0]))
    ensures Words(w + tail) == [w] + Words(tail)
  {
    var s := w + tail;
    WordLengthOf(w, tail);
    assert s[0] == w[0] && w[0] in w;
    assert s[..|w|] == w && s[|w|..] == tail;
  }

  lemma {:induction false} WordLengthOf(w: string, tail: string)
    requires (forall c | c in w :: !IsSpace(c)) && (tail == [] || IsSpace(tail[0]))
    ensures WordLength(w + tail) == |w|
  {
    if w == [] {
      assert w + tail == tail;
    } else {
      WordLengthOf(w[1..], tail);
      assert (w + tail)[1..] == w[1..] + tail;
      assert w[0] in w;
    }
  }

  // --------------------------------------------------------------- the algorithm

  /** Widths are clamped to one; line 0 has its own limit. */
  function Limit(firstWidth: nat, contWidth: nat, line: nat): (l: nat)
    ensures 1 <= l
  {
    var w := if line == 0 then firstWidth else contWidth;
    if w < 1 then 1 else w
  }

  function Sep(cur: string): string {
    if cur == [] then [] else " "
  }

  /** Placing one word: finished lines and the line in progress. */
  function Place(out: seq<string>, cur: string, word: string, fw: nat, cw: nat): (seq<string>, string)
    decreases |word|, |cur|
  {
    var limit := Limit(fw, cw, |out|);
    if |cur| + |Sep(cur)| + |word| <= limit then (out, cur + Sep(cur) + word)
    else if cur == [] then Place(out + [word[..limit]], [], word[limit..], fw, cw)
    else Place(out + [cur], [], word, fw, cw)
  }

  function PlaceAll(out: seq<string>, cur: string, words: seq<string>, fw: nat, cw: nat): (seq<string>, string)
    decreases |words|
  {
    if words == [] then (out, cur) else
    var (out', cur') := Place(out, cur, words[0], fw, cw);
    PlaceAll(out', cur', words[1..], fw, cw)
  }

  function Finish(out: seq<string>, cur: string): seq<string> {
    if cur != [] || out == [] then out + [cur] else out
  }

  function Wrapped(text: string, fw: nat, cw: nat): seq<string> {
    var (out, cur) := PlaceAll([], [], Words(text), fw, cw);
    Finish(out, cur)
  }

  /**
    The wrap itself, as the loops run it. The result is `Wrapped`; the other
    clauses are what that means for a reader of the log pane.
   */
  method WrapText(text: string, firstWidth: nat, contWidth: nat) returns (out: seq<string>)
    ensures out == Wrapped(text, firstWidth, contWidth)
    ensures out != []
    ensures forall i | 0 <= i < |out| :: |out[i]| <= Limit(firstWidth, contWidth, i)
    ensures Ink(Concat(out)) == Ink(text)
    ensures Words(text) == [] ==> out == [[]]
    ensures Words(text) != [] ==> forall line | line in out :: Trimmed(line)
    ensures ShortWords(Words(text), firstWidth, contWidth) ==> Resplit(out) == Words(text)
  {
    out := [];
    var cur: string := [];
    var words := Words(text);
    ghost var whole := PlaceAll([], [], words, firstWidth, contWidth);
    var n := 0;
    while n < |words|
      invariant n <= |words|
      invariant PlaceAll(out, cur, words[n..], firstWidth, contWidth) == whole
    {
      var word := words[n];
      assert words[n..][1..] == words[n + 1..];
      ghost var placed := Place(out, cur, word, firstWidth, contWidth);
      while true
        invariant Place(out, cur, word, firstWidth, contWidth) == placed
        decreases |word|, |cur|
      {
        var limit := Limit(firstWidth, contWidth, |out|);
        var sep := if cur == [] then 0 else 1;
        if |cur| + sep + |word| <= limit {
          if cur != [] {
            cur := cur + " ";
          }
          cur := cur + word;
          break;
        } else if cur == [] {
          out := out + [word[..limit]];
          word := word[limit..];
          if word == [] {
            break;
          }
        } else {
          out, cur := out + [cur], [];
        }
      }
      assert (out, cur) == placed;
      n := n + 1;
    }
    if cur != [] || out == [] {
      out := out + [cur];
    }
    WrappedFits(text, firstWidth, contWidth);
    WrappedKeepsInk(text, firstWidth, contWidth);
    WrappedLinesTrimmed(text, firstWidth, contWidth);
    if ShortWords(words, firstWidth, contWidth) {
      WrappedResplits(text, firstWidth, contWidth);
    }
  }

  // ------------------------------------------------------------------- fidelity

  /** No line break falls inside a word because none is longer than a line. */
  predicate ShortWords(ws: seq<string>, fw: nat, cw: nat) {
    forall w | w in ws :: |w| <= Limit(fw, cw, 0) && |w| <= Limit(fw, cw, 1)
  }

  /** Not blank, and neither end is a blank. */
  predicate Trimmed(line: string) {
    line != [] && !IsSpace(line[0]) && !IsSpace(line[|line| - 1])
  }

  /** The words of each line, line after line. */
  function Resplit(lines: seq<string>): seq<string> {
    if lines == [] then [] else Words(lines[0]) + Resplit(lines[1..])
  }

  predicate LinesFit(out: seq<string>, cur: string, fw: nat, cw: nat) {
    && (forall i | 0 <= i < |out| :: |out[i]| <= Limit(fw, cw, i))
    && |cur| <= Limit(fw, cw, |out|)
  }

  lemma {:induction false} PlaceFits(out: seq<string>, cur: string, word: string, fw: nat, cw: nat)
    requires LinesFit(out, cur, fw, cw)
    ensures LinesFit(Place(out, cur, word, fw, cw).0, Place(out, cur, word, fw, cw).1, fw, cw)
    decreases |word|, |cur|
  {
    var limit := Limit(fw, cw, |out|);
    if |cur| + |Sep(cur)| + |word| <= limit {
    } else if cur == [] {
      PlaceFits(out + [word[..limit]], [], word[limit..], fw, cw);
    } else {
      PlaceFits(out + [cur], [], word, fw, cw);
    }
  }

  lemma {:induction false} PlaceAllFits(out: seq<string>, cur: string, words: seq<string>, fw: nat, cw: nat)
    requires LinesFit(out, cur, fw, cw)
    ensures LinesFit(PlaceAll(out, cur, words, fw, cw).0, PlaceAll(out, cur, words, fw, cw).1, fw, cw)
    decreases |words|
  {
    if words != [] {
      PlaceFits(out, cur, words[0], fw, cw);
      var (out', cur') := Place(out, cur, words[0], fw, cw);
      PlaceAllFits(out', cur', words[1..], fw, cw);
    }
  }

  /** No line is longer than its limit, whatever the text and the widths. */
  lemma WrappedFits(text: string, fw: nat, cw: nat)
    ensures var out := Wrapped(text, fw, cw);
      out != [] && forall i | 0 <= i < |out| :: |out[i]| <= Limit(fw, cw, i)
  {
    PlaceAllFits([], [], Words(text), fw, cw);
  }

  lemma InkAddWord(done: string, cur: string, word: string)
    ensures Ink(done + (cur + Sep(cur) + word)) == Ink(done + cur) + Ink(word)
  {
    Associative(cur, Sep(cur), word);
    Associative(done, cur, Sep(cur) + word);
    InkAppend(done + cur, Sep(cur) + word);
    InkAppend(Sep(cur), word);
  }

  lemma ConcatSnoc(out: seq<string>, line: string)
    ensures Concat(out + [line]) + [] == Concat(out) + line
  {
    ConcatAppend(out, [line]);
    assert Concat([line]) == line + Concat([]);
  }

  lemma {:induction false} PlaceKeepsInk(out: seq<string>, cur: string, word: string, fw: nat, cw: nat)
    ensures var (o, c) := Place(out, cur, word, fw, cw);
      Ink(Concat(o) + c) == Ink(Concat(out) + cur) + Ink(word)
    decreases |word|, |cur|
  {
    var limit := Limit(fw, cw, |out|);
    if |cur| + |Sep(cur)| + |word| <= limit {
      InkAddWord(Concat(out), cur, word);
    } else if cur == [] {
      PlaceKeepsInk(out + [word[..limit]], [], word[limit..], fw, cw);
      InkOfSplit(out, word, limit);
    } else {
      PlaceKeepsInk(out + [cur], [], word, fw, cw);
      ConcatSnoc(out, cur);
    }
  }

  lemma InkOfSplit(out: seq<string>, word: string, n: nat)
    requires n <= |word|
    ensures Ink(Concat(out + [word[..n]]) + []) + Ink(word[n..]) == Ink(Concat(out) + []) + Ink(word)
  {
    ConcatSnoc(out, word[..n]);
    InkSplitWord(Concat(out), word[..n], word[n..]);
    assert word[..n] + word[n..] == word && Concat(out) + [] == Concat(out);
  }

  lemma InkSplitWord(done: string, head: string, tail: string)
    ensures Ink(done + head) + Ink(tail) == Ink(done) + Ink(head + tail)
  {
    InkAppend(done, head);
    InkAppend(head, tail);
    Associative(Ink(done), Ink(head), Ink(tail));
  }

  lemma {:induction false} PlaceAllKeepsInk(out: seq<string>, cur: string, words: seq<string>, fw: nat, cw: nat)
    ensures var (o, c) := PlaceAll(out, cur, words, fw, cw);
      Ink(Concat(o) + c) == Ink(Concat(out) + cur) + Ink(Concat(words))
    decreases |words|
  {
    if words != [] {
      var w, rest := words[0], words[1..];
      PlaceKeepsInk(out, cur, w, fw, cw);
      var (o, c) := Place(out, cur, w, fw, cw);
      PlaceAllKeepsInk(o, c, rest, fw, cw);
      InkAppend(w, Concat(rest));
    }
  }

  /** Wrapping loses and invents nothing but whitespace. */
  lemma WrappedKeepsInk(text: string, fw: nat, cw: nat)
    ensures Ink(Concat(Wrapped(text, fw, cw))) == Ink(text)
  {
    var words := Words(text);
    PlaceAllKeepsInk([], [], words, fw, cw);
    var (o, c) := PlaceAll([], [], words, fw, cw);
    ConcatAppend(o, [c]);
    assert Concat(o + [c]) == Concat(o) + c;
    assert c == [] ==> Concat(o) + c == Concat(o);
    InkOfWords(text);
    assert Concat([]) + [] == [];
    InkInk(text);
  }

  lemma {:induction false} InkInk(s: string)
    ensures Ink(Ink(s)) == Ink(s)
  {
    if s != [] {
      InkInk(s[1..]);
      if IsSpace(s[0]) {
        assert Ink(s) == Ink(s[1..]);
      } else {
        assert Ink(s)[1..] == Ink(s[1..]);
      }
    }
  }

  predicate LinesTrimmed(out: seq<string>, cur: string) {
    && (forall line | line in out :: Trimmed(line))
    && (cur == [] || Trimmed(cur))
  }

  lemma {:induction false} PlaceTrimmed(out: seq<string>, cur: string, word: string, fw: nat, cw: nat)
    requires LinesTrimmed(out, cur) && IsWord(word)
    ensures var (o, c) := Place(out, cur, word, fw, cw); LinesTrimmed(o, c) && c != []
    decreases |word|, |cur|
  {
    var limit := Limit(fw, cw, |out|);
    assert forall i | 0 <= i < |word| :: word[i] in word;
    if |cur| + |Sep(cur)| + |word| <= limit {
    } else if cur == [] {
      assert forall c | c in word[limit..] :: c in word;
      PlaceTrimmed(out + [word[..limit]], [], word[limit..], fw, cw);
    } else {
      PlaceTrimmed(out + [cur], [], word, fw, cw);
    }
  }

  lemma {:induction false} PlaceAllTrimmed(out: seq<string>, cur: string, words: seq<string>, fw: nat, cw: nat)
    requires LinesTrimmed(out, cur) && AllWords(words)
    ensures var (o, c) := PlaceAll(out, cur, words, fw, cw);
      LinesTrimmed(o, c) && (words != [] || cur != [] ==> c != [])
    decreases |words|
  {
    if words != [] {
      assert words[0] in words;
      PlaceTrimmed(out, cur, words[0], fw, cw);
      var (o, c) := Place(out, cur, words[0], fw, cw);
      PlaceAllTrimmed(o, c, words[1..], fw, cw);
    }
  }

  /** Blank text gives one empty line; any other gives lines that start and end in ink. */
  lemma WrappedLinesTrimmed(text: string, fw: nat, cw: nat)
    ensures Words(text) == [] ==> Wrapped(text, fw, cw) == [[]]
    ensures Words(text) != [] ==> forall line | line in Wrapped(text, fw, cw) :: Trimmed(line)
  {
    PlaceAllTrimmed([], [], Words(text), fw, cw);
  }

  // ------------------------------------------------- lines as groups of words

  /** The words of each line, filling the line at index `line` (holding `group` so far) before the next. */
  function Groups(group: seq<string>, words: seq<string>, line: nat, fw: nat, cw: nat): seq<seq<string>>
    decreases |words|
  {
    if words == [] then (if group == [] then [] else [group])
    else if |Join(group + [words[0]])| <= Limit(fw, cw, line) then
      Groups(group + [words[0]], words[1..], line, fw, cw)
    else [group] + Groups([words[0]], words[1..], line + 1, fw, cw)
  }

  function JoinAll(groups: seq<seq<string>>): (r: seq<string>)
    ensures |r| == |groups|
  {
    if groups == [] then [] else [Join(groups[0])] + JoinAll(groups[1..])
  }

  function Flatten(groups: seq<seq<string>>): seq<string> {
    if groups == [] then [] else groups[0] + Flatten(groups[1..])
  }

  lemma {:induction false} JoinAppend(ws: seq<string>, w: string)
    requires forall x | x in ws :: x != []
    ensures Join(ws + [w]) == Join(ws) + Sep(Join(ws)) + w
    ensures Join(ws) == [] <==> ws == []
  {
    if ws != [] {
      assert ws[0] in ws;
      var rest := ws[1..];
      assert forall x | x in rest :: x in ws;
      JoinAppend(rest, w);
      assert (ws + [w])[1..] == rest + [w];
      if rest != [] {
        assert Join(ws + [w]) == ws[0] + " " + (Join(rest) + " " + w);
        assert Join(ws) + " " + w == ws[0] + " " + (Join(rest) + " " + w);
      }
    }
  }

  /** Placing one word extends the group in progress or starts the next line with it. */
  lemma PlaceGroup(out: seq<string>, group: seq<string>, w: string, fw: nat, cw: nat)
    requires AllWords(group) && IsWord(w) && |w| <= Limit(fw, cw, 1)
    requires group == [] ==> |w| <= Limit(fw, cw, |out|)
    ensures Place(out, Join(group), w, fw, cw) ==
      if |Join(group + [w])| <= Limit(fw, cw, |out|) then (out, Join(group + [w]))
      else (out + [Join(group)], Join([w]))
    ensures |Join(group + [w])| > Limit(fw, cw, |out|) ==> group != []
  {
    JoinAppend(group, w);
    JoinAppend([], w);
    assert [] + [w] == [w];
    assert Limit(fw, cw, |out| + 1) == Limit(fw, cw, 1);
  }

  /** Every word fits on a continuation line. */
  predicate ContinuationWords(ws: seq<string>, fw: nat, cw: nat) {
    forall w | w in ws :: |w| <= Limit(fw, cw, 1)
  }

  function Lines(placed: (seq<string>, string)): seq<string> {
    placed.0 + (if placed.1 == [] then [] else [placed.1])
  }

  /** Unless a word must be split, the character-level loop builds the word groups. */
  lemma {:induction false} PlaceAllGroups(
    out: seq<string>, cur: string, group: seq<string>, words: seq<string>, fw: nat, cw: nat)
    requires cur == Join(group)
    requires AllWords(group) && AllWords(words) && ContinuationWords(words, fw, cw)
    requires group == [] && words != [] ==> |words[0]| <= Limit(fw, cw, |out|)
    ensures Lines(PlaceAll(out, cur, words, fw, cw)) == out + JoinAll(Groups(group, words, |out|, fw, cw))
    decreases |words|
  {
    if words == [] {
      LastGroup(out, group);
    } else {
      var w, rest := words[0], words[1..];
      TailWords(words, fw, cw);
      PlaceGroup(out, group, w, fw, cw);
      if |Join(group + [w])| <= Limit(fw, cw, |out|) {
        GrowsGroup(group, w);
        PlaceAllGroups(out, Join(group + [w]), group + [w], rest, fw, cw);
      } else {
        GrowsGroup([], w);
        PlaceAllGroups(out + [cur], Join([w]), [w], rest, fw, cw);
        JoinAllCons(out, group, Groups([w], rest, |out| + 1, fw, cw));
        assert |out + [cur]| == |out| + 1;
      }
    }
  }

  lemma LastGroup(out: seq<string>, group: seq<string>)
    requires AllWords(group)
    ensures Lines((out, Join(group))) == out + JoinAll(if group == [] then [] else [group])
  {
    JoinAppend(group, []);
    assert JoinAll([group]) == [Join(group)] + JoinAll([]);
  }

  lemma TailWords(words: seq<string>, fw: nat, cw: nat)
    requires words != [] && AllWords(words) && ContinuationWords(words, fw, cw)
    ensures IsWord(words[0]) && |words[0]| <= Limit(fw, cw, 1)
    ensures AllWords(words[1..]) && ContinuationWords(words[1..], fw, cw)
  {
  }

  lemma GrowsGroup(group: seq<string>, w: string)
    requires AllWords(group) && IsWord(w)
    ensures AllWords(group + [w]) && [] + [w] == [w]
  {
  }

  lemma JoinAllCons(out: seq<string>, g: seq<string>, groups: seq<seq<string>>)
    ensures (out + [Join(g)]) + JoinAll(groups) == out + JoinAll([g] + groups)
  {
  }

  lemma {:induction false} FlattenGroups(group: seq<string>, words: seq<string>, line: nat, fw: nat, cw: nat)
    ensures Flatten(Groups(group, words, line, fw, cw)) == group + words
    decreases |words|
  {
    if words != [] {
      var w, rest := words[0], words[1..];
      FlattenGroups(group + [w], rest, line, fw, cw);
      FlattenGroups([w], rest, line + 1, fw, cw);
      assert group + [w] + rest == group + words;
      assert group + ([w] + rest) == group + words;
    }
  }

  lemma {:induction false} ResplitJoinAll(groups: seq<seq<string>>)
    requires AllWords(Flatten(groups))
    ensures Resplit(JoinAll(groups)) == Flatten(groups)
  {
    if groups != [] {
      var g, rest := groups[0], groups[1..];
      assert forall w | w in g :: w in Flatten(groups);
      assert forall w | w in Flatten(rest) :: w in Flatten(groups);
      ResplitJoinAll(rest);
      WordsOfJoin(g);
    }
  }

  lemma WrappedIsGroups(text: string, fw: nat, cw: nat)
    requires ShortWords(Words(text), fw, cw) && Words(text) != []
    ensures Wrapped(text, fw, cw) == JoinAll(Groups([], Words(text), 0, fw, cw))
  {
    var words := Words(text);
    assert words[0] in words;
    PlaceAllGroups([], [], [], words, fw, cw);
    PlaceAllTrimmed([], [], words, fw, cw);
  }

  /** Without overlong words, reading the wrapped lines back gives the word list. */
  lemma WrappedResplits(text: string, fw: nat, cw: nat)
    requires ShortWords(Words(text), fw, cw)
    ensures Resplit(Wrapped(text, fw, cw)) == Words(text)
  {
    var words := Words(text);
    if words == [] {
      WrappedLinesTrimmed(text, fw, cw);
      assert Words([]) == [];
    } else {
      WrappedIsGroups(text, fw, cw);
      FlattenGroups([], words, 0, fw, cw);
      assert [] + words == words;
      ResplitJoinAll(Groups([], words, 0, fw, cw));
    }
  }

  // ----------------------------------------------------------------- hard splits

  /** The lines from index `n` on are full. */
  predicate FullFrom(out: seq<string>, n: nat, fw: nat, cw: nat) {
    forall i | n <= i < |out| :: |out[i]| == Limit(fw, cw, i)
  }

  /**
    A word is broken only where a line is full, and only if it does not fit on an
    empty line: placing one ends the line in progress if the word does not fit
    there, and after that finishes full lines only.
   */
  lemma {:induction false} PlaceFillsLines(out: seq<string>, cur: string, word: string, fw: nat, cw: nat)
    requires word != []
    ensures var (o, c) := Place(out, cur, word, fw, cw);
      && out <= o
      && (|cur| + |Sep(cur)| + |word| <= Limit(fw, cw, |out|) ==> o == out && c == cur + Sep(cur) + word)
      && (|cur| + |Sep(cur)| + |word| > Limit(fw, cw, |out|) && cur != [] ==> |out| < |o| && o[|out|] == cur)
      && FullFrom(o, if cur == [] then |out| else |out| + 1, fw, cw)
      && (cur == [] && |word| > Limit(fw, cw, |out|) ==> |o| > |out| && o[|out|] == word[..Limit(fw, cw, |out|)])
    decreases |word|, |cur|
  {
    var limit := Limit(fw, cw, |out|);
    if |cur| + |Sep(cur)| + |word| > limit {
      if cur == [] {
        if |word| > limit {
          PlaceFillsLines(out + [word[..limit]], [], word[limit..], fw, cw);
        }
      } else {
        PlaceFillsLines(out + [cur], [], word, fw, cw);
      }
    }
  }

  // ------------------------------------------------------------------ optimality

  /** A way to break words into consecutive lines, the first of them at index `line`, all within their limits. */
  predicate Fitting(split: seq<seq<string>>, line: nat, fw: nat, cw: nat) {
    forall i | 0 <= i < |split| :: |Join(split[i])| <= Limit(fw, cw, line + i)
  }

  lemma {:induction false} JoinDropFirst(ws: seq<string>, d: nat)
    requires d <= |ws|
    ensures |Join(ws[d..])| <= |Join(ws)|
  {
    if d > 0 {
      JoinDropFirst(ws[1..], d - 1);
      assert ws[1..][d - 1..] == ws[d..];
    }
  }

  lemma {:induction false} JoinTake(ws: seq<string>, n: nat)
    requires n <= |ws|
    ensures |Join(ws[..n])| <= |Join(ws)|
  {
    if n > 0 && |ws| > 1 {
      JoinTake(ws[1..], n - 1);
      assert ws[1..][..n - 1] == ws[..n][1..];
    }
  }

  /** A stretch of words inside a line that fits, fits. */
  lemma JoinStretch(ws: seq<string>, d: nat, n: nat)
    requires d <= n <= |ws|
    ensures |Join(ws[d..n])| <= |Join(ws)|
  {
    JoinTake(ws, n);
    JoinDropFirst(ws[..n], d);
    assert ws[..n][d..] == ws[d..n];
  }

  /**
    Greedy stays ahead: if greedy has already placed the first `done` of the
    words `split` still has to place, greedy needs no more lines than `split`.
   */
  lemma {:induction false} GreedyStaysAhead(
    group: seq<string>, words: seq<string>, line: nat, split: seq<seq<string>>, done: nat, fw: nat, cw: nat)
    requires Fitting(split, line, fw, cw)
    requires done <= |Flatten(split)| && Flatten(split)[done..] == group + words
    ensures |Groups(group, words, line, fw, cw)| <= |split|
    decreases |words|
  {
    if words == [] {
    } else {
      var w, rest := words[0], words[1..];
      assert (group + [w]) + rest == group + words == group + ([w] + rest);
      if |Join(group + [w])| <= Limit(fw, cw, line) {
        GreedyStaysAhead(group + [w], rest, line, split, done, fw, cw);
      } else {
        SplitFallsBehind(group, w, rest, line, split, done, fw, cw);
        GreedyStaysAhead([w], rest, line + 1, split[1..], done + |group| - |split[0]|, fw, cw);
      }
    }
  }

  /** When greedy breaks a line, `split`'s first line ends no later. */
  lemma SplitFallsBehind(
    group: seq<string>, w: string, rest: seq<string>, line: nat, split: seq<seq<string>>, done: nat, fw: nat, cw: nat)
    requires Fitting(split, line, fw, cw)
    requires done <= |Flatten(split)| && Flatten(split)[done..] == group + ([w] + rest)
    requires |Join(group + [w])| > Limit(fw, cw, line)
    ensures split != [] && done + |group| >= |split[0]|
    ensures done + |group| - |split[0]| <= |Flatten(split[1..])|
    ensures Flatten(split[1..])[done + |group| - |split[0]|..] == [w] + rest
    ensures Fitting(split[1..], line + 1, fw, cw)
  {
    NonEmptySplit(split, done, group, w, rest);
    var first, tail := split[0], Flatten(split[1..]);
    FittingTail(split, line, fw, cw);
    Associative(group, [w], rest);
    StretchOfFirst(first, tail, done, group + [w], rest);
    DropMore(first, tail, done, group, [w] + rest);
  }

  lemma NonEmptySplit(split: seq<seq<string>>, done: nat, group: seq<string>, w: string, rest: seq<string>)
    requires done <= |Flatten(split)| && Flatten(split)[done..] == group + ([w] + rest)
    ensures split != []
  {
  }

  lemma DropMore(first: seq<string>, tail: seq<string>, done: nat, group: seq<string>, rest: seq<string>)
    requires done <= |first + tail| && (first + tail)[done..] == group + rest
    requires done + |group| >= |first|
    ensures done + |group| - |first| <= |tail|
    ensures tail[done + |group| - |first|..] == rest
  {
    assert (first + tail)[done..][|group|..] == rest;
    assert (first + tail)[done..][|group|..] == (first + tail)[done + |group|..] == tail[done + |group| - |first|..];
  }

  lemma FittingTail(split: seq<seq<string>>, line: nat, fw: nat, cw: nat)
    requires split != [] && Fitting(split, line, fw, cw)
    ensures |Join(split[0])| <= Limit(fw, cw, line)
    ensures Fitting(split[1..], line + 1, fw, cw)
  {
  }

  /** Words that start inside the first line but are too long for it end beyond it. */
  lemma StretchOfFirst(first: seq<string>, later: seq<string>, done: nat, g: seq<string>, rest: seq<string>)
    requires done <= |first + later| && (first + later)[done..] == g + rest
    requires |Join(g)| > |Join(first)|
    ensures done + |g| > |first|
  {
    if done + |g| <= |first| {
      assert g == (g + rest)[..|g|] == (first + later)[done..][..|g|];
      assert first[done..done + |g|] == g;
      JoinStretch(first, done, done + |g|);
    }
  }

  lemma {:induction false} WordInLine(ws: seq<string>, w: string)
    requires w in ws
    ensures |w| <= |Join(ws)|
  {
    if w != ws[0] {
      WordInLine(ws[1..], w);
    }
  }

  lemma {:induction false} FittingWords(split: seq<seq<string>>, line: nat, fw: nat, cw: nat)
    requires 1 <= line && Fitting(split, line, fw, cw)
    ensures ContinuationWords(Flatten(split), fw, cw)
  {
    if split != [] {
      FittingTail(split, line, fw, cw);
      FittingWords(split[1..], line + 1, fw, cw);
      forall w | w in split[0]
        ensures |w| <= Limit(fw, cw, 1)
      {
        WordInLine(split[0], w);
      }
    }
  }

  /** Words that fit on line 0 together stay there. */
  lemma {:induction false} PlaceAllOnFirst(group: seq<string>, more: seq<string>, rest: seq<string>, fw: nat, cw: nat)
    requires AllWords(group) && AllWords(more) && |Join(group + more)| <= Limit(fw, cw, 0)
    ensures PlaceAll([], Join(group), more + rest, fw, cw) == PlaceAll([], Join(group + more), rest, fw, cw)
    decreases |more|
  {
    if more == [] {
      assert more + rest == rest && group + more == group;
    } else {
      var w, tail := more[0], more[1..];
      assert w in more && forall x | x in tail :: x in more;
      GrowsGroup(group, w);
      JoinAppend(group, w);
      JoinTake(group + more, |group| + 1);
      assert (group + more)[..|group| + 1] == group + [w];
      assert group + more == (group + [w]) + tail;
      assert (more + rest)[1..] == tail + rest;
      PlaceAllOnFirst(group + [w], tail, rest, fw, cw);
    }
  }

  /** The split with its first word exchanged for `t`. */
  function ExchangeFirst(split: seq<seq<string>>, t: string): (r: seq<seq<string>>)
    ensures |r| == |split|
  {
    if split == [] then []
    else if split[0] == [] then [[]] + ExchangeFirst(split[1..], t)
    else [[t] + split[0][1..]] + split[1..]
  }

  lemma {:induction false} ExchangeFits(split: seq<seq<string>>, t: string, line: nat, fw: nat, cw: nat)
    requires Fitting(split, line, fw, cw) && Flatten(split) != [] && |t| <= |Flatten(split)[0]|
    ensures Fitting(ExchangeFirst(split, t), line, fw, cw)
    ensures Flatten(ExchangeFirst(split, t)) == [t] + Flatten(split)[1..]
  {
    var r := ExchangeFirst(split, t);
    FittingTail(split, line, fw, cw);
    if split[0] == [] {
      ExchangeFits(split[1..], t, line + 1, fw, cw);
    } else {
      assert r[1..] == split[1..];
      assert |Join(r[0])| <= |Join(split[0])|;
    }
    FittingCons(r, line, fw, cw);
  }

  lemma FittingCons(split: seq<seq<string>>, line: nat, fw: nat, cw: nat)
    requires split != [] && |Join(split[0])| <= Limit(fw, cw, line) && Fitting(split[1..], line + 1, fw, cw)
    ensures Fitting(split, line, fw, cw)
  {
  }

  lemma FinishCount(placed: (seq<string>, string))
    requires Lines(placed) != []
    ensures Finish(placed.0, placed.1) == Lines(placed)
  {
  }

  /**
    Greedy wrapping is optimal, for every text and all widths: any way of
    breaking the words into lines that respect the same limits (empty lines
    allowed) has at least as many lines. A word too long for line 0 is covered
    if the other lines hold it, although greedy splits it where the rival may
    leave line 0 empty; `BreakableIff` says which texts have a rival at all.
   */
  lemma GreedyIsOptimal(text: string, fw: nat, cw: nat, split: seq<seq<string>>)
    requires Flatten(split) == Words(text) && Words(text) != []
    requires Fitting(split, 0, fw, cw)
    ensures |Wrapped(text, fw, cw)| <= |split|
  {
    var words := Words(text);
    FittingTail(split, 0, fw, cw);
    FittingWords(split[1..], 1, fw, cw);
    if split[0] == [] && |words[0]| > Limit(fw, cw, 0) {
      SplitFirstWord(words, fw, cw, split);
    } else {
      UnsplitFirstWord(words, fw, cw, split);
    }
  }

  /** Every word on a line of its own. */
  function Singles(words: seq<string>): (r: seq<seq<string>>)
    ensures |r| == |words| && forall i | 0 <= i < |r| :: r[i] == [words[i]]
    ensures Flatten(r) == words
  {
    if words == [] then [] else [[words[0]]] + Singles(words[1..])
  }

  /** Breaks `words` into lines within the limits. */
  predicate Breaks(split: seq<seq<string>>, words: seq<string>, fw: nat, cw: nat) {
    Flatten(split) == words && Fitting(split, 0, fw, cw)
  }

  /**
    Words can be broken into lines within the limits if and only if line 0 can
    take enough of them, perhaps none, that no later one exceeds the other limit.
   */
  lemma BreakableIff(words: seq<string>, fw: nat, cw: nat)
    ensures (exists split :: Breaks(split, words, fw, cw)) <==>
      exists n :: 0 <= n <= |words| && StartsLines(words, n, fw, cw)
  {
    if split :| Breaks(split, words, fw, cw) {
      BreakingStarts(split, words, fw, cw);
    }
    if n :| 0 <= n <= |words| && StartsLines(words, n, fw, cw) {
      SinglesBreak(words, n, fw, cw);
    }
  }

  lemma BreakingStarts(split: seq<seq<string>>, words: seq<string>, fw: nat, cw: nat)
    requires Breaks(split, words, fw, cw)
    ensures exists n :: 0 <= n <= |words| && StartsLines(words, n, fw, cw)
  {
    if split == [] {
      assert StartsLines(words, 0, fw, cw);
    } else {
      var n := |split[0]|;
      FittingTail(split, 0, fw, cw);
      FittingWords(split[1..], 1, fw, cw);
      assert words[..n] == split[0] && words[n..] == Flatten(split[1..]);
      assert StartsLines(words, n, fw, cw);
    }
  }

  lemma SinglesBreak(words: seq<string>, n: nat, fw: nat, cw: nat)
    requires n <= |words| && StartsLines(words, n, fw, cw)
    ensures Breaks([words[..n]] + Singles(words[n..]), words, fw, cw)
  {
    var later := Singles(words[n..]);
    var split := [words[..n]] + later;
    SinglesFit(words[n..], fw, cw);
    assert split[1..] == later && split[0] == words[..n];
    FittingCons(split, 0, fw, cw);
    assert words == words[..n] + words[n..];
  }

  lemma SinglesFit(words: seq<string>, fw: nat, cw: nat)
    requires ContinuationWords(words, fw, cw)
    ensures Fitting(Singles(words), 1, fw, cw)
  {
  }

  /** The first `n` words fit on line 0, and each of the others on a line of its own. */
  predicate StartsLines(words: seq<string>, n: nat, fw: nat, cw: nat)
    requires n <= |words|
  {
    |Join(words[..n])| <= Limit(fw, cw, 0) && ContinuationWords(words[n..], fw, cw)
  }

  /** The first word fits on line 0, so nothing is split. */
  lemma UnsplitFirstWord(words: seq<string>, fw: nat, cw: nat, split: seq<seq<string>>)
    requires AllWords(words) && words != [] && Flatten(split) == words && Fitting(split, 0, fw, cw)
    requires ContinuationWords(Flatten(split[1..]), fw, cw) && |Join(split[0])| <= Limit(fw, cw, 0)
    requires split[0] == [] ==> |words[0]| <= Limit(fw, cw, 0)
    ensures var (o, c) := PlaceAll([], [], words, fw, cw); |Finish(o, c)| <= |split|
  {
    var first, rest := split[0], Flatten(split[1..]);
    assert words == first + rest;
    assert AllWords(first) && AllWords(rest);
    assert [] + first == first;
    PlaceAllOnFirst([], first, rest, fw, cw);
    PlaceAllGroups([], Join(first), first, rest, fw, cw);
    assert Flatten(split)[0..] == first + rest;
    GreedyStaysAhead(first, rest, 0, split, 0, fw, cw);
    var placed := PlaceAll([], [], words, fw, cw);
    var groups := Groups(first, rest, 0, fw, cw);
    assert Lines(placed) == [] + JoinAll(groups);
    FlattenGroups(first, rest, 0, fw, cw);
    assert groups != [] by {
      assert Flatten([]) == [];
    }
    FinishCount(placed);
  }

  /** The first word is too long for line 0: it is split there, and what is left of it is ahead of `split`. */
  lemma SplitFirstWord(words: seq<string>, fw: nat, cw: nat, split: seq<seq<string>>)
    requires AllWords(words) && words != [] && Flatten(split) == words && Fitting(split, 0, fw, cw)
    requires split != [] && split[0] == [] && Fitting(split[1..], 1, fw, cw)
    requires ContinuationWords(Flatten(split[1..]), fw, cw) && |words[0]| > Limit(fw, cw, 0)
    ensures var (o, c) := PlaceAll([], [], words, fw, cw); |Finish(o, c)| <= |split|
  {
    var later := split[1..];
    var w, rest, n := words[0], words[1..], Limit(fw, cw, 0);
    var head, t := w[..n], w[n..];
    TailWords(words, fw, cw);
    PlaceSplit(w, fw, cw);
    PlaceAllGroups([head], t, [t], rest, fw, cw);
    GreedyAheadExchanged(words, t, later, fw, cw);
    FinishCount(PlaceAll([head], t, rest, fw, cw));
  }

  lemma PlaceSplit(w: string, fw: nat, cw: nat)
    requires IsWord(w) && Limit(fw, cw, 0) < |w| <= Limit(fw, cw, 1)
    ensures var n := Limit(fw, cw, 0); Place([], [], w, fw, cw) == ([w[..n]], w[n..])
    ensures IsWord(w[Limit(fw, cw, 0)..]) && AllWords([w[Limit(fw, cw, 0)..]])
    ensures Join([w[Limit(fw, cw, 0)..]]) == w[Limit(fw, cw, 0)..]
  {
    var n := Limit(fw, cw, 0);
    var head, t := w[..n], w[n..];
    assert forall c | c in t :: c in w;
    assert Limit(fw, cw, |[head]|) == Limit(fw, cw, 1);
    assert [] + [head] == [head] && [] + t == t;
    assert Place([head], [], t, fw, cw) == ([head], [] + Sep([]) + t);
  }

  lemma GreedyAheadExchanged(words: seq<string>, t: string, later: seq<seq<string>>, fw: nat, cw: nat)
    requires words != [] && Flatten(later) == words && Fitting(later, 1, fw, cw) && |t| <= |words[0]|
    ensures |Groups([t], words[1..], 1, fw, cw)| <= |later|
  {
    ExchangeFits(later, t, 1, fw, cw);
    var exchanged := ExchangeFirst(later, t);
    assert Flatten(exchanged)[0..] == [t] + words[1..];
    GreedyStaysAhead([t], words[1..], 1, exchanged, 0, fw, cw);
  }

  /** The bound is met: without overlong words, the wrapped lines are themselves such a breaking. */
  lemma GreedyIsASplit(text: string, fw: nat, cw: nat)
    requires ShortWords(Words(text), fw, cw) && Words(text) != []
    ensures var split := Groups([], Words(text), 0, fw, cw);
      Flatten(split) == Words(text) && Fitting(split, 0, fw, cw) && |Wrapped(text, fw, cw)| == |split|
  {
    var split := Groups([], Words(text), 0, fw, cw);
    WrappedIsGroups(text, fw, cw);
    WrappedFits(text, fw, cw);
    FlattenGroups([], Words(text), 0, fw, cw);
    assert [] + Words(text) == Words(text);
    forall i | 0 <= i < |split|
      ensures |Join(split[i])| <= Limit(fw, cw, 0 + i)
    {
      JoinAllAt(split, i);
    }
  }

  lemma {:induction false} JoinAllAt(groups: seq<seq<string>>, i: nat)
    requires i < |groups|
    ensures JoinAll(groups)[i] == Join(groups[i])
  {
    if i > 0 {
      JoinAllAt(groups[1..], i - 1);
    }
  }
}
