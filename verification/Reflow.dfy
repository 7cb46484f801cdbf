/**
 The reading reflow of the document reader: the words of a paragraph are laid
 greedily into lines, limited by columns and by the size of a line buffer.
 */
module Reflow {
  import opened Sequences
  import opened Utf8

  type Word = Bytes

  const MAX_LINE: nat := 4096
  const MAX_PARAGRAPH: nat := MAX_LINE * 8

  predicate Separator(b: Byte) {
    b == 32 || b == 9 || b == 13 || b == 10
  }

  /** A nonempty run of bytes without separators. */
  ghost predicate IsWord(w: Bytes) {
    w != [] && forall k :: 0 <= k < |w| ==> !Separator(w[k])
  }

  ghost predicate AllWords(ws: seq<Word>) {
    forall k :: 0 <= k < |ws| ==> IsWord(ws[k])
  }

  // ----- words of a text -----

  /** The first position from `i` on whose byte is of the other kind. */
  function Scan(s: Bytes, i: nat, separators: bool): (end: nat)
    requires i <= |s|
    ensures i <= end <= |s|
    decreases |s| - i
  {
    if i == |s| || Separator(s[i]) != separators then i else Scan(s, i + 1, separators)
  }

  /** The words of `s` from position `i` on, as repeated `strtok_r` calls deliver them. */
  function WordsFrom(s: Bytes, i: nat): (ws: seq<Word>)
    requires i <= |s|
    decreases |s| - i
  {
    var start := Scan(s, i, true);
    if start == |s| then []
    else
      var end := Scan(s, start, false);
      if end == start then [] else [s[start..end]] + WordsFrom(s, end)
  }

  function Words(s: Bytes): (ws: seq<Word>) {
    WordsFrom(s, 0)
  }

  function TotalLength(ws: seq<Word>): (n: nat) {
    if ws == [] then 0 else |ws[0]| + TotalLength(ws[1..])
  }

  // ----- lines -----

  /** Display columns of a word, character by character. */
  function Columns(s: Bytes, cells: nat -> nat): (n: nat)
    decreases |s|
  {
    if s == [] then 0
    else
      var step := StepOf(s, cells);
      step.cells + Columns(s[step.used..], cells)
  }

  function SumColumns(line: seq<Word>, cells: nat -> nat): (n: nat) {
    if line == [] then 0 else Columns(line[0], cells) + SumColumns(line[1..], cells)
  }

  /** Columns of words joined by single spaces. */
  function LineColumns(line: seq<Word>, cells: nat -> nat): (n: nat) {
    if line == [] then 0 else SumColumns(line, cells) + |line| - 1
  }

  function LineBytes(line: seq<Word>): (n: nat) {
    if line == [] then 0 else TotalLength(line) + |line| - 1
  }

  function JoinWords(line: seq<Word>): (s: Bytes) {
    if line == [] then []
    else if |line| == 1 then line[0]
    else JoinWords(line[..|line| - 1]) + [32] + line[|line| - 1]
  }

  /** A line may be emitted: it keeps both limits, or it is one word that cannot be broken. */
  predicate Fits(line: seq<Word>, width: nat, cells: nat -> nat) {
    |line| == 1 || (LineColumns(line, cells) <= width && LineBytes(line) < MAX_LINE)
  }

  function Concat(lines: seq<seq<Word>>): (ws: seq<Word>) {
    if lines == [] then [] else lines[0] + Concat(lines[1..])
  }

  /** `lines` is a division of `ws` into nonempty lines that may be emitted. */
  ghost predicate Division(lines: seq<seq<Word>>, ws: seq<Word>, width: nat, cells: nat -> nat) {
    && Concat(lines) == ws
    && forall k :: 0 <= k < |lines| ==> lines[k] != [] && Fits(lines[k], width, cells)
  }

  /** The lines laid greedily when `current` is open and `rest` is still to come. */
  function Greedy(current: seq<Word>, rest: seq<Word>, width: nat, cells: nat -> nat): (lines: seq<seq<Word>>)
    decreases |rest|
  {
    if rest == [] then (if current == [] then [] else [current])
    else if current != [] && !Fits(current + [rest[0]], width, cells) then
      [current] + Greedy([rest[0]], rest[1..], width, cells)
    else
      Greedy(current + [rest[0]], rest[1..], width, cells)
  }

  lemma {:induction false} SumsAdd(a: seq<Word>, b: seq<Word>, cells: nat -> nat)
    ensures SumColumns(a + b, cells) == SumColumns(a, cells) + SumColumns(b, cells)
    ensures TotalLength(a + b) == TotalLength(a) + TotalLength(b)
  {
    if a == [] {
      assert a + b == b;
    } else {
      assert (a + b)[1..] == a[1..] + b;
      SumsAdd(a[1..], b, cells);
    }
  }

  lemma LineColumnsStep(line: seq<Word>, w: Word, cells: nat -> nat)
    requires line != []
    ensures LineColumns(line + [w], cells) == LineColumns(line, cells) + 1 + Columns(w, cells)
    ensures LineBytes(line + [w]) == LineBytes(line) + 1 + |w|
  {
    SumsAdd(line, [w], cells);
    assert SumColumns([w], cells) == Columns(w, cells) + SumColumns([], cells);
    assert TotalLength([w]) == |w| + TotalLength([]);
  }

  lemma LoneWord(w: Word, cells: nat -> nat)
    ensures LineColumns([w], cells) == Columns(w, cells)
    ensures LineBytes([w]) == |w| && JoinWords([w]) == w
  {
    assert SumColumns([w][1..], cells) == 0 && TotalLength([w][1..]) == 0;
  }

  lemma {:induction false} JoinedLength(line: seq<Word>)
    ensures |JoinWords(line)| == LineBytes(line)
  {
    if |line| == 1 {
      assert line == [line[0]];
      LoneWord(line[0], cp => 1);
    } else if |line| > 1 {
      var init, w := line[..|line| - 1], line[|line| - 1];
      JoinedLength(init);
      LineColumnsStep(init, w, cp => 1);
      assert line == init + [w];
    }
  }

  /** Every stretch of a line that may be emitted may be emitted. */
  lemma StretchFits(front: seq<Word>, line: seq<Word>, more: seq<Word>, width: nat, cells: nat -> nat)
    requires line != [] && Fits(front + line + more, width, cells)
    ensures Fits(line, width, cells)
  {
    SumsAdd(front, line, cells);
    SumsAdd(front + line, more, cells);
  }

  // ----- the greedy division: complete, within limits, shortest -----

  lemma {:induction false} GreedyDivides(current: seq<Word>, rest: seq<Word>, width: nat, cells: nat -> nat)
    requires current == [] || Fits(current, width, cells)
    ensures Division(Greedy(current, rest, width, cells), current + rest, width, cells)
    decreases |rest|
  {
    if rest == [] {
      assert current + rest == current;
      if current != [] {
        assert Concat([current]) == current + Concat([]);
      }
    } else {
      var next := current + [rest[0]];
      if current != [] && !Fits(next, width, cells) {
        GreedyDivides([rest[0]], rest[1..], width, cells);
        var tail := Greedy([rest[0]], rest[1..], width, cells);
        assert ([current] + tail)[1..] == tail;
        assert [rest[0]] + rest[1..] == rest;
      } else {
        GreedyDivides(next, rest[1..], width, cells);
        assert next + rest[1..] == current + rest;
      }
    }
  }

  function Count(current: seq<Word>, rest: seq<Word>, width: nat, cells: nat -> nat): nat {
    |Greedy(current, rest, width, cells)|
  }

  /** A fuller open line costs at most one more line in the end, and never saves one. */
  lemma {:induction false} FullerLine(front: seq<Word>, c: seq<Word>, rest: seq<Word>, width: nat, cells: nat -> nat)
    requires c != []
    ensures Count(front + c, rest, width, cells) <= 1 + Count(c, rest, width, cells)
    ensures Count(c, rest, width, cells) <= Count(front + c, rest, width, cells)
    decreases |rest|
  {
    if rest != [] {
      var w, tail := rest[0], rest[1..];
      assert (front + c) + [w] == front + (c + [w]);
      if Fits(front + c + [w], width, cells) {
        assert front + (c + [w]) + [] == front + c + [w];
        StretchFits(front, c + [w], [], width, cells);
        FullerLine(front, c + [w], tail, width, cells);
      } else if Fits(c + [w], width, cells) {
        FullerLine(c, [w], tail, width, cells);
      }
    }
  }

  /**
   The greedy lines stay ahead of any other division: `lines` divides what is
   open in it (`open`, of which greedy's open line is the end) and the rest.
   */
  lemma {:induction false} GreedyStaysAhead(current: seq<Word>, front: seq<Word>, rest: seq<Word>,
                                            lines: seq<seq<Word>>, width: nat, cells: nat -> nat)
    requires current != [] && lines != []
    requires Division(lines, front + current + rest, width, cells)
    requires front + current <= lines[0]
    ensures Count(current, rest, width, cells) <= |lines|
    decreases |rest|
  {
    if rest == [] {
      return;
    }
    var w, tail := rest[0], rest[1..];
    var open := front + current;
    assert Concat(lines) == lines[0] + Concat(lines[1..]);
    if open == lines[0] {
      assert Concat(lines[1..]) == rest by {
        assert (open + rest)[|open|..] == rest && (lines[0] + Concat(lines[1..]))[|open|..] == Concat(lines[1..]);
      }
      assert [] + [w] + tail == rest && [] + [w] == [w];
      GreedyStaysAhead([w], [], tail, lines[1..], width, cells);
      if Fits(current + [w], width, cells) {
        FullerLine(current, [w], tail, width, cells);
      }
    } else {
      assert lines[0][|open|] == w by {
        assert (open + rest)[|open|] == w && (lines[0] + Concat(lines[1..]))[|open|] == lines[0][|open|];
      }
      var more := lines[0][|open| + 1..];
      assert lines[0] == front + (current + [w]) + more;
      StretchFits(front, current + [w], more, width, cells);
      assert front + (current + [w]) + tail == front + current + rest;
      GreedyStaysAhead(current + [w], front, tail, lines, width, cells);
    }
  }

  /** No division of the same words within the same limits has fewer lines. */
  lemma GreedyIsShortest(ws: seq<Word>, lines: seq<seq<Word>>, width: nat, cells: nat -> nat)
    requires Division(lines, ws, width, cells)
    ensures |Greedy([], ws, width, cells)| <= |lines|
  {
    if ws != [] {
      assert [] + [ws[0]] + ws[1..] == ws && [] + [ws[0]] == [ws[0]];
      GreedyStaysAhead([ws[0]], [], ws[1..], lines, width, cells);
    }
  }

  // ----- what the line buffer holds -----

  /** A word as the line buffer takes it: bytes beyond the buffer are lost. */
  function Clip(w: Word): (c: Word) {
    if |w| < MAX_LINE then w else w[..MAX_LINE - 1]
  }

  function ClipAll(ws: seq<Word>): (cs: seq<Word>)
    ensures |cs| == |ws| && forall k :: 0 <= k < |ws| ==> cs[k] == Clip(ws[k])
  {
    seq(|ws|, k requires 0 <= k < |ws| => Clip(ws[k]))
  }

  function Emit(lines: seq<seq<Word>>): (out: seq<Bytes>)
    ensures |out| == |lines| && forall k :: 0 <= k < |lines| ==> out[k] == JoinWords(ClipAll(lines[k]))
  {
    seq(|lines|, k requires 0 <= k < |lines| => JoinWords(ClipAll(lines[k])))
  }

  /** The paragraph buffer takes this much of a text. */
  function Copied(text: Bytes): (copy: Bytes) {
    if |text| < MAX_PARAGRAPH then text else text[..MAX_PARAGRAPH - 1]
  }

  /** The lines a text is reflowed into. */
  function Reflowed(text: Bytes, width: nat, cells: nat -> nat): (out: seq<Bytes>) {
    Emit(Greedy([], Words(Copied(text)), width, cells))
  }

  predicate AllShort(ws: seq<Word>) {
    forall k :: 0 <= k < |ws| ==> |ws[k]| < MAX_LINE
  }

  lemma {:induction false} ShortWords(line: seq<Word>)
    ensures forall k :: 0 <= k < |line| ==> |line[k]| <= TotalLength(line)
  {
    if line != [] {
      ShortWords(line[1..]);
      assert forall k :: 1 <= k < |line| ==> line[k] == line[1..][k - 1];
    }
  }

  lemma ClipShort(ws: seq<Word>)
    requires AllShort(ws)
    ensures ClipAll(ws) == ws
  {
  }

  lemma ClipOneMore(ws: seq<Word>, w: Word)
    ensures ClipAll(ws + [w]) == ClipAll(ws) + [Clip(w)]
  {
  }

  /** The buffer holds the line in full, or one word that fills it. */
  lemma BufferLength(current: seq<Word>, width: nat, cells: nat -> nat)
    requires current != [] && Fits(current, width, cells)
    ensures var n := |JoinWords(ClipAll(current))|;
            n == LineBytes(current) || (n == MAX_LINE - 1 && LineBytes(current) >= MAX_LINE)
  {
    JoinedLength(ClipAll(current));
    if |current| > 1 {
      ShortWords(current);
      ClipShort(current);
    } else {
      assert current == [current[0]] && ClipAll(current) == [Clip(current[0])];
      LoneWord(current[0], cells);
      LoneWord(Clip(current[0]), cells);
    }
  }

  /** The buffer's length decides as the true length of the line does. */
  lemma BufferDecides(current: seq<Word>, w: Word, width: nat, cells: nat -> nat)
    requires current != [] && Fits(current, width, cells) && w != []
    ensures Fits(current + [w], width, cells) <==>
            !(LineColumns(current, cells) + 1 + Columns(w, cells) > width
              || |JoinWords(ClipAll(current))| + 1 + |w| >= MAX_LINE)
  {
    LineColumnsStep(current, w, cells);
    BufferLength(current, width, cells);
  }

  lemma {:induction false} ScanIs(s: Bytes, i: nat, end: nat, separators: bool)
    requires i <= end <= |s| && forall k :: i <= k < end ==> Separator(s[k]) == separators
    requires end < |s| ==> Separator(s[end]) != separators
    ensures Scan(s, i, separators) == end
    decreases end - i
  {
    if i < end {
      ScanIs(s, i + 1, end, separators);
    }
  }

  lemma WordsStep(s: Bytes, i: nat, start: nat, end: nat)
    requires i <= start < end <= |s|
    requires forall k :: i <= k < start ==> Separator(s[k])
    requires forall k :: start <= k < end ==> !Separator(s[k])
    requires end < |s| ==> Separator(s[end])
    ensures WordsFrom(s, i) == [s[start..end]] + WordsFrom(s, end)
  {
    ScanIs(s, i, start, true);
    ScanIs(s, start, end, false);
  }

  /** `strtok_r`: the next word of `copy` from `p` on, as the range `start..end`. */
  method NextToken(copy: Bytes, p: nat) returns (found: bool, start: nat, end: nat)
    requires p <= |copy|
    ensures p <= start <= end <= |copy|
    ensures !found ==> WordsFrom(copy, p) == []
    ensures found ==> start < end && IsWord(copy[start..end])
                      && WordsFrom(copy, p) == [copy[start..end]] + WordsFrom(copy, end)
  {
    start := p;
    while start < |copy| && Separator(copy[start])
      invariant p <= start <= |copy|
      invariant forall k :: p <= k < start ==> Separator(copy[k])
    {
      start := start + 1;
    }
    end := start;
    while end < |copy| && !Separator(copy[end])
      invariant start <= end <= |copy|
      invariant forall k :: start <= k < end ==> !Separator(copy[k])
    {
      end := end + 1;
    }
    found := start < end;
    if found {
      WordsStep(copy, p, start, end);
    }
  }

  /** The line buffer and its column count hold the words of the open line. */
  ghost predicate Holds(out: Bytes, outWidth: nat, current: seq<Word>, width: nat, cells: nat -> nat) {
    && out == JoinWords(ClipAll(current)) && outWidth == LineColumns(current, cells)
    && (out == [] <==> current == [])
    && (current != [] ==> AllWords(current) && Fits(current, width, cells))
  }

  lemma NothingHeld(width: nat, cells: nat -> nat)
    ensures Holds([], 0, [], width, cells)
  {
  }

  /** One word into the line buffer, which `strncat` never lets overflow. */
  method AppendWord(out: Bytes, outWidth: nat, word: Word, wordWidth: nat,
                    ghost current: seq<Word>, width: nat, cells: nat -> nat)
    returns (newOut: Bytes, newWidth: nat)
    requires Holds(out, outWidth, current, width, cells)
    requires IsWord(word) && wordWidth == Columns(word, cells)
    requires current != [] ==> |out| + 1 + |word| < MAX_LINE && Fits(current + [word], width, cells)
    ensures Holds(newOut, newWidth, current + [word], width, cells)
  {
    newOut, newWidth := out, outWidth;
    ClipOneMore(current, word);
    LoneWord(word, cells);
    LoneWord(Clip(word), cells);
    assert current == [] ==> current + [word] == [word];
    if newOut != [] {
      LineColumnsStep(current, word, cells);
      newOut := newOut + [32];
      newWidth := newWidth + 1;
    }
    var room := MAX_LINE - 1 - |newOut|;
    newOut := newOut + (if |word| <= room then word else word[..room]);
    newWidth := newWidth + wordWidth;
  }

  /** The open line after a word: the word alone when the line was flushed, else the longer line. */
  function NextLine(current: seq<Word>, word: Word, flushed: bool): (next: seq<Word>) {
    if flushed then [word] else current + [word]
  }

  /** The body of the loop: flush the line the word does not fit, then append the word. */
  method LayWord(out: Bytes, outWidth: nat, word: Word, width: nat, cells: nat -> nat, ghost current: seq<Word>)
    returns (flushed: bool, newOut: Bytes, newWidth: nat)
    requires Holds(out, outWidth, current, width, cells) && IsWord(word)
    ensures flushed <==> current != [] && !Fits(current + [word], width, cells)
    ensures Holds(newOut, newWidth, NextLine(current, word, flushed), width, cells)
  {
    var wordWidth := Columns(word, cells);
    if current != [] {
      BufferDecides(current, word, width, cells);
    }
    newOut, newWidth := out, outWidth;
    flushed := out != [] && (outWidth + 1 + wordWidth > width || |out| + 1 + |word| >= MAX_LINE);
    ghost var line := current;
    if flushed {
      newOut, newWidth, line := [], 0, [];
    }
    newOut, newWidth := AppendWord(newOut, newWidth, word, wordWidth, line, width, cells);
    assert line + [word] == NextLine(current, word, flushed) by {
      assert [] + [word] == [word];
    }
  }

  /** The greedy division takes a word the same way. */
  lemma GreedyTakes(current: seq<Word>, word: Word, rest: seq<Word>, width: nat, cells: nat -> nat)
    ensures var flushed := current != [] && !Fits(current + [word], width, cells);
            Greedy(current, [word] + rest, width, cells)
            == (if flushed then [current] else []) + Greedy(NextLine(current, word, flushed), rest, width, cells)
  {
    assert ([word] + rest)[0] == word && ([word] + rest)[1..] == rest;
    assert [] + [word] == [word];
  }

  lemma EmitOneMore(done: seq<seq<Word>>, line: seq<Word>)
    ensures Emit(done + [line]) == Emit(done) + [JoinWords(ClipAll(line))]
  {
  }

  /** The loop over the words of a paragraph with its line buffer. */
  method AddWrappedReadingText(text: Bytes, width: nat, cells: nat -> nat) returns (lines: seq<Bytes>)
    ensures lines == Reflowed(text, width, cells)
  {
    hide WordsFrom, IsWord, JoinWords, ClipAll, LineColumns, Fits, AllWords;
    var copy := if |text| < MAX_PARAGRAPH then text else text[..MAX_PARAGRAPH - 1];
    var out: Bytes, outWidth := [], 0;
    NothingHeld(width, cells);
    lines := [];
    ghost var done: seq<seq<Word>>, current: seq<Word>, rest := [], [], Words(copy);
    ghost var all := Greedy([], rest, width, cells);
    var found, start, p := NextToken(copy, 0);
    while found
      invariant start <= p <= |copy| && (found ==> start < p && IsWord(copy[start..p]))
      invariant rest == if found then [copy[start..p]] + WordsFrom(copy, p) else []
      invariant Holds(out, outWidth, current, width, cells)
      invariant lines == Emit(done)
      invariant all == done + Greedy(current, rest, width, cells)
      decreases |copy| - p, found
    {
      rest := WordsFrom(copy, p);
      var line := out;
      var flushed;
      GreedyTakes(current, copy[start..p], rest, width, cells);
      flushed, out, outWidth := LayWord(out, outWidth, copy[start..p], width, cells, current);
      ghost var next := NextLine(current, copy[start..p], flushed);
      Regroup(done, if flushed then [current] else [], Greedy(next, rest, width, cells));
      if flushed {
        EmitOneMore(done, current);
        lines := lines + [line];
      }
      done := done + if flushed then [current] else [];
      current := next;
      found, start, p := NextToken(copy, p);
    }
    if out != [] {
      EmitOneMore(done, current);
      lines := lines + [out];
    }
  }

  // ----- what the emitted lines are -----

  lemma {:induction false} ScanNextTo(a: Bytes, b: Bytes, i: nat, separators: bool)
    requires i <= |a|
    ensures Scan(a + b, i, separators) ==
            if Scan(a, i, separators) < |a| then Scan(a, i, separators) else Scan(a + b, |a|, separators)
    decreases |a| - i
  {
    if i < |a| {
      assert (a + b)[i] == a[i];
      if Separator(a[i]) == separators {
        ScanNextTo(a, b, i + 1, separators);
      }
    }
  }

  /** Text before a separator has its own words. */
  lemma {:induction false} WordsSplit(a: Bytes, b: Bytes, i: nat)
    requires i <= |a| && (b == [] || Separator(b[0]))
    ensures WordsFrom(a + b, i) == WordsFrom(a, i) + WordsFrom(a + b, |a|)
    decreases |a| - i
  {
    ScanNextTo(a, b, i, true);
    var start := Scan(a, i, true);
    if start < |a| {
      ScanNextTo(a, b, start, false);
      var end := Scan(a, start, false);
      ScanAdvances(a, i);
      assert (a + b)[start..end] == a[start..end];
      WordsSplit(a, b, end);
      Regroup([a[start..end]], WordsFrom(a, end), WordsFrom(a + b, |a|));
    } else {
      WordsFromBlank(a + b, i, |a|);
    }
  }

  /** A scan stops at a byte of the other kind. */
  lemma {:induction false} ScanStops(s: Bytes, i: nat, separators: bool)
    requires i <= |s|
    ensures var end := Scan(s, i, separators);
            && (end < |s| ==> Separator(s[end]) != separators)
            && forall k :: i <= k < end ==> Separator(s[k]) == separators
    decreases |s| - i
  {
    if i < |s| && Separator(s[i]) == separators {
      ScanStops(s, i + 1, separators);
    }
  }

  lemma ScanAdvances(s: Bytes, i: nat)
    requires i <= |s| && Scan(s, i, true) < |s|
    ensures Scan(s, i, true) < Scan(s, Scan(s, i, true), false)
  {
    ScanStops(s, i, true);
  }

  lemma WordsFromBlank(s: Bytes, i: nat, j: nat)
    requires i <= j <= |s| && j <= Scan(s, i, true)
    ensures WordsFrom(s, i) == WordsFrom(s, j)
  {
    var start := Scan(s, i, true);
    ScanStops(s, i, true);
    ScanIs(s, j, start, true);
  }

  lemma {:induction false} WordsAreWords(s: Bytes, i: nat)
    requires i <= |s|
    ensures AllWords(WordsFrom(s, i))
    decreases |s| - i
  {
    var start := Scan(s, i, true);
    if start < |s| {
      ScanStops(s, start, false);
      ScanAdvances(s, i);
      WordsAreWords(s, Scan(s, start, false));
    }
  }

  /** A text that ends in a lone word from `skip` on. */
  lemma LastWord(s: Bytes, i: nat, w: Word)
    requires IsWord(w) && i + |w| <= |s| && s[|s| - |w|..] == w
    requires forall k :: i <= k < |s| - |w| ==> Separator(s[k])
    ensures WordsFrom(s, i) == [w]
  {
    var start := |s| - |w|;
    assert forall k :: start <= k < |s| ==> s[k] == w[k - start];
    WordsStep(s, i, start, |s|);
    assert s[start..|s|] == w;
  }

  lemma JoinedStep(init: seq<Word>, w: Word)
    requires init != [] && IsWord(w) && Words(JoinWords(init)) == init
    ensures Words(JoinWords(init + [w])) == init + [w]
  {
    var a := JoinWords(init);
    JoinedTail(a, w);
    Regroup(a, [32], w);
  }

  /** Reading a joined line gives its words back. */
  lemma {:induction false} WordsOfJoined(line: seq<Word>)
    requires AllWords(line)
    ensures Words(JoinWords(line)) == line
  {
    if line == [] {
    } else {
      var init, w := line[..|line| - 1], line[|line| - 1];
      assert IsWord(w);
      assert line == init + [w];
      if init == [] {
        LastWord(w, 0, w);
      } else {
        assert AllWords(init);
        WordsOfJoined(init);
        JoinedStep(init, w);
      }
    }
  }

  lemma JoinedTail(a: Bytes, w: Word)
    requires IsWord(w)
    ensures Words(a + ([32] + w)) == Words(a) + [w]
  {
    var s := a + ([32] + w);
    WordsSplit(a, [32] + w, 0);
    assert s[|a|] == 32;
    LastWord(s, |a|, w);
  }

  lemma {:induction false} StepBeforeBlank(a: Bytes, b: Bytes, cells: nat -> nat)
    requires a != [] && (b == [] || b[0] == 32)
    ensures StepOf(a + b, cells) == StepOf(a, cells)
  {
    var s := a + b;
    assert s[..|a|] == a;
    DecodePrefix(s, |a|);
    if Decode(s).Character? && Decode(s).used > |a| {
      DecodeTails(s, |a|);
    }
  }

  lemma {:induction false} ColumnsBeforeBlank(a: Bytes, b: Bytes, cells: nat -> nat)
    requires b == [] || b[0] == 32
    ensures Columns(a + b, cells) == Columns(a, cells) + Columns(b, cells)
    decreases |a|
  {
    if a == [] {
      assert a + b == b;
    } else {
      StepBeforeBlank(a, b, cells);
      var used := StepOf(a, cells).used;
      assert (a + b)[used..] == a[used..] + b;
      ColumnsBeforeBlank(a[used..], b, cells);
    }
  }

  /** The running column count is the display width of the line. */
  lemma {:induction false} JoinedColumns(line: seq<Word>, cells: nat -> nat)
    requires cells(32) == 1
    ensures Columns(JoinWords(line), cells) == LineColumns(line, cells)
  {
    if |line| == 1 {
      assert line == [line[0]];
      LoneWord(line[0], cells);
    } else if |line| > 1 {
      var init, w := line[..|line| - 1], line[|line| - 1];
      JoinedColumns(init, cells);
      assert line == init + [w] && init != [];
      LineColumnsStep(init, w, cells);
      Regroup(JoinWords(init), [32], w);
      ColumnsBeforeBlank(JoinWords(init), [32] + w, cells);
    }
  }

  lemma {:induction false} ConcatHolds(lines: seq<seq<Word>>)
    requires AllWords(Concat(lines))
    ensures forall k :: 0 <= k < |lines| ==> AllWords(lines[k])
  {
    if lines != [] {
      var all := Concat(lines);
      assert forall k :: 0 <= k < |lines[0]| ==> lines[0][k] == all[k];
      assert forall k :: 0 <= k < |Concat(lines[1..])| ==> Concat(lines[1..])[k] == all[|lines[0]| + k];
      ConcatHolds(lines[1..]);
    }
  }

  /** The lines `Reflowed` emits, as words. */
  ghost function Laid(text: Bytes, width: nat, cells: nat -> nat): seq<seq<Word>> {
    Greedy([], Words(Copied(text)), width, cells)
  }

  lemma LaidDivides(text: Bytes, width: nat, cells: nat -> nat)
    ensures Division(Laid(text, width, cells), Words(Copied(text)), width, cells)
    ensures forall k :: 0 <= k < |Laid(text, width, cells)| ==> AllWords(Laid(text, width, cells)[k])
  {
    var ws := Words(Copied(text));
    GreedyDivides([], ws, width, cells);
    assert [] + ws == ws;
    WordsAreWords(Copied(text), 0);
    ConcatHolds(Laid(text, width, cells));
  }

  /** Every emitted line is a nonempty buffer's worth that keeps the column limit or holds one word. */
  lemma EmittedLinesFit(text: Bytes, width: nat, cells: nat -> nat, k: nat)
    requires cells(32) == 1 && k < |Reflowed(text, width, cells)|
    ensures var line := Reflowed(text, width, cells)[k];
            && 0 < |line| < MAX_LINE
            && (Columns(line, cells) <= width || |Words(line)| == 1)
  {
    LaidDivides(text, width, cells);
    var line := Laid(text, width, cells)[k];
    assert IsWord(line[0]);
    WordsOfJoined(ClipAll(line));
    if |line| > 1 {
      ShortWords(line);
      ClipShort(line);
      JoinedColumns(line, cells);
    }
    JoinedLength(ClipAll(line));
  }

  /** All words of the emitted lines, read back in order. */
  function WordsOfLines(lines: seq<Bytes>): (ws: seq<Word>) {
    if lines == [] then [] else Words(lines[0]) + WordsOfLines(lines[1..])
  }

  lemma ClipAllAdds(a: seq<Word>, b: seq<Word>)
    ensures ClipAll(a + b) == ClipAll(a) + ClipAll(b)
  {
  }

  lemma {:induction false} WordsOfEmitted(lines: seq<seq<Word>>)
    requires forall k :: 0 <= k < |lines| ==> AllWords(lines[k])
    ensures WordsOfLines(Emit(lines)) == ClipAll(Concat(lines))
  {
    if lines != [] {
      var rest := lines[1..];
      WordsOfJoined(ClipAll(lines[0]));
      WordsOfEmitted(rest);
      assert Emit(lines)[1..] == Emit(rest);
      ClipAllAdds(lines[0], Concat(rest));
    }
  }

  /** Total: the emitted lines hold the copied words in order, each clipped to the buffer. */
  lemma ReflowKeepsWords(text: Bytes, width: nat, cells: nat -> nat)
    ensures WordsOfLines(Reflowed(text, width, cells)) == ClipAll(Words(Copied(text)))
  {
    LaidDivides(text, width, cells);
    WordsOfEmitted(Laid(text, width, cells));
  }

  /** Laying the same words out in fewer lines is impossible within the same limits. */
  lemma ReflowIsShortest(text: Bytes, lines: seq<seq<Word>>, width: nat, cells: nat -> nat)
    requires Division(lines, Words(Copied(text)), width, cells)
    ensures |Reflowed(text, width, cells)| <= |lines|
  {
    GreedyIsShortest(Words(Copied(text)), lines, width, cells);
  }

  // ----- exactly when nothing is lost -----

  function PayloadFrom(s: Bytes, i: nat): (n: nat)
    requires i <= |s|
    decreases |s| - i
  {
    if i == |s| then 0 else (if Separator(s[i]) then 0 else 1) + PayloadFrom(s, i + 1)
  }

  lemma {:induction false} PayloadOfScan(s: Bytes, i: nat, separators: bool)
    requires i <= |s|
    ensures var end := Scan(s, i, separators);
            PayloadFrom(s, i) == (if separators then 0 else end - i) + PayloadFrom(s, end)
    decreases |s| - i
  {
    if i < |s| && Separator(s[i]) == separators {
      PayloadOfScan(s, i + 1, separators);
    }
  }

  lemma {:induction false} WordsCarryPayload(s: Bytes, i: nat)
    requires i <= |s|
    ensures TotalLength(WordsFrom(s, i)) == PayloadFrom(s, i)
    decreases |s| - i
  {
    PayloadOfScan(s, i, true);
    var start := Scan(s, i, true);
    if start < |s| {
      PayloadOfScan(s, start, false);
      ScanAdvances(s, i);
      WordsCarryPayload(s, Scan(s, start, false));
    }
  }

  lemma {:induction false} PayloadOfPrefix(s: Bytes, n: nat, i: nat)
    requires i <= n <= |s|
    ensures PayloadFrom(s, i) == PayloadFrom(s[..n], i) + PayloadFrom(s, n)
    decreases n - i
  {
    if i < n {
      PayloadOfPrefix(s, n, i + 1);
    }
  }

  lemma {:induction false} NoPayload(s: Bytes, i: nat)
    requires i <= |s|
    ensures PayloadFrom(s, i) == 0 <==> forall k :: i <= k < |s| ==> Separator(s[k])
    decreases |s| - i
  {
    if i < |s| {
      NoPayload(s, i + 1);
    }
  }

  lemma {:induction false} ClippingLoses(ws: seq<Word>)
    ensures TotalLength(ClipAll(ws)) <= TotalLength(ws)
    ensures TotalLength(ClipAll(ws)) == TotalLength(ws) <==> AllShort(ws)
  {
    if ws != [] {
      ClippingLoses(ws[1..]);
      assert ClipAll(ws)[1..] == ClipAll(ws[1..]);
      assert AllShort(ws) <==> |ws[0]| < MAX_LINE && AllShort(ws[1..]);
    }
  }

  /** Nothing but separators lies beyond the paragraph buffer. */
  predicate TailIsBlank(text: Bytes) {
    forall k :: MAX_PARAGRAPH - 1 <= k < |text| ==> |text| < MAX_PARAGRAPH || Separator(text[k])
  }

  /**
   The reflow loses, reorders and alters no word exactly when every word is shorter
   than the line buffer and nothing but blanks lies beyond the paragraph buffer.
   */
  lemma ReflowIsLossless(text: Bytes, width: nat, cells: nat -> nat)
    ensures WordsOfLines(Reflowed(text, width, cells)) == Words(text) <==> AllShort(Words(text)) && TailIsBlank(text)
  {
    var copy := Copied(text);
    ReflowKeepsWords(text, width, cells);
    WordsCarryPayload(text, 0);
    WordsCarryPayload(copy, 0);
    ClippingLoses(Words(copy));
    PayloadOfPrefix(text, |copy|, 0);
    assert text[..|copy|] == copy;
    NoPayload(text, |copy|);
    if TailIsBlank(text) {
      WordsBeforeBlank(text, |copy|);
    }
  }

  lemma WordsBeforeBlank(text: Bytes, n: nat)
    requires n <= |text| && forall k :: n <= k < |text| ==> Separator(text[k])
    ensures Words(text[..n]) == Words(text)
  {
    var a, b := text[..n], text[n..];
    assert a + b == text;
    WordsSplit(a, b, 0);
  }

  /** A single word as long as the line buffer comes out altered, at every width. */
  lemma LongWordIsAltered(width: nat, cells: nat -> nat)
    ensures var text: Bytes := seq(MAX_LINE, _ => 97); WordsOfLines(Reflowed(text, width, cells)) != Words(text)
  {
    hide Reflowed, WordsOfLines, WordsFrom;
    var text: Bytes := seq(MAX_LINE, _ => 97);
    WordsStep(text, 0, 0, MAX_LINE);
    assert text[0..MAX_LINE] == text == Words(text)[0];
    ReflowIsLossless(text, width, cells);
  }

  // ----- what the parts mean -----

  lemma {:induction false} ScanBehind(a: Bytes, b: Bytes, i: nat, separators: bool)
    requires i <= |b|
    ensures Scan(a + b, |a| + i, separators) == |a| + Scan(b, i, separators)
    decreases |b| - i
  {
    if i < |b| {
      assert (a + b)[|a| + i] == b[i];
      ScanBehind(a, b, i + 1, separators);
    }
  }

  lemma {:induction false} WordsBehind(a: Bytes, b: Bytes, i: nat)
    requires i <= |b|
    ensures WordsFrom(a + b, |a| + i) == WordsFrom(b, i)
    decreases |b| - i
  {
    hide Scan;
    ScanBehind(a, b, i, true);
    var start := Scan(b, i, true);
    if start < |b| {
      ScanBehind(a, b, start, false);
      ScanAdvances(b, i);
      var end := Scan(b, start, false);
      assert (a + b)[|a| + start..|a| + end] == b[start..end];
      WordsBehind(a, b, end);
    }
  }

  /**
   Blanks, tabs, newlines and carriage returns separate words: text without them is one word, unless it is empty,
   and the words around one of them are those before it and those after it.
   */
  lemma WordsAre(w: Bytes, a: Bytes, separator: Byte, b: Bytes)
    requires w != [] && forall k :: 0 <= k < |w| ==> w[k] != 32 && w[k] != 9 && w[k] != 13 && w[k] != 10
    requires separator == 32 || separator == 9 || separator == 13 || separator == 10
    ensures Words([]) == [] && Words(w) == [w] && Words(a + [separator] + b) == Words(a) + Words(b)
  {
    hide WordsFrom;
    NoWords();
    LastWord(w, 0, w);
    var s := a + ([separator] + b);
    assert a + [separator] + b == s && s == (a + [separator]) + b;
    WordsSplit(a, [separator] + b, 0);
    BlankFirst(s, |a|);
    WordsBehind(a + [separator], b, 0);
  }

  lemma NoWords()
    ensures Words([]) == []
  {
  }

  lemma BlankFirst(s: Bytes, i: nat)
    requires i < |s| && Separator(s[i])
    ensures WordsFrom(s, i) == WordsFrom(s, i + 1)
  {
    WordsFromBlank(s, i, i + 1);
  }

  /** Characters take their cells and at least one, and a byte that begins no character takes one. */
  lemma ColumnsAre(cp: nat, stray: Bytes, rest: Bytes, cells: nat -> nat)
    requires Scalar(cp) && stray != [] && Decode(stray).Malformed?
    ensures Columns([], cells) == 0
    ensures Columns(Encode(cp) + rest, cells) == (if cells(cp) == 0 then 1 else cells(cp)) + Columns(rest, cells)
    ensures Columns(stray, cells) == 1 + Columns(stray[1..], cells)
  {
    DecodeEncode(cp, rest);
    assert (Encode(cp) + rest)[|Encode(cp)|..] == rest;
  }

  /** Words share a line when it keeps the width and fits a buffer of 4096 bytes with its NUL. */
  lemma FitsIff(line: seq<Word>, width: nat, cells: nat -> nat)
    requires line != [] && cells(32) == 1
    ensures Fits(line, width, cells)
            <==> |line| == 1 || (Columns(JoinWords(line), cells) <= width && |JoinWords(line)| <= 4095)
  {
    JoinedColumns(line, cells);
    JoinedLength(line);
  }

  /** Every line takes as many words as fit: the first word of the next one would not. */
  lemma {:induction false} GreedyFills(current: seq<Word>, rest: seq<Word>, width: nat, cells: nat -> nat, k: nat)
    ensures var lines := Greedy(current, rest, width, cells);
            && (lines != [] ==> lines[0] != [] && current <= lines[0])
            && (k + 1 < |lines| ==> lines[k + 1] != [] && !Fits(lines[k] + [lines[k + 1][0]], width, cells))
    decreases |rest|
  {
    hide Fits;
    if rest != [] {
      if current != [] && !Fits(current + [rest[0]], width, cells) {
        GreedyFills([rest[0]], rest[1..], width, cells, if k == 0 then 0 else k - 1);
      } else {
        GreedyFills(current + [rest[0]], rest[1..], width, cells, k);
      }
    }
  }

  /** A word is cut to 4095 bytes, and a text to 32767. */
  lemma BuffersHold(w: Word, text: Bytes)
    ensures Clip(w) <= w && |Clip(w)| == (if |w| <= 4095 then |w| else 4095)
    ensures Copied(text) <= text && |Copied(text)| == if |text| <= 32767 then |text| else 32767
  {
  }
}
