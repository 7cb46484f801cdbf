/** How the browser cuts the text of a page into display lines, and when a line ends inside a character. */
module Layout {
  import opened ByteText
  import opened Utf8

  const TAB_WIDTH: nat := 4
  const MIN_WIDTH: nat := 20

  datatype Span = Span(start: nat, len: nat) {
    predicate Holds(offset: nat) {
      start <= offset < start + len
    }

    function End(): nat {
      start + len
    }
  }

  predicate Blank(b: Byte) {
    b == 32 || b == 9
  }

  /** Terminal widths: no character takes more than two cells. */
  ghost predicate Terminal(cells: nat -> nat) {
    forall cp: nat :: cells(cp) <= 2
  }

  // ----- columns -----

  /** The character at `i` when the text is known up to `end` and `col` columns are taken. */
  function StepAt(text: Bytes, i: nat, end: nat, col: nat, cells: nat -> nat): (r: Step)
    requires i < end <= |text|
    ensures 1 <= r.used <= end - i && 1 <= r.cells
  {
    if text[i] == 9 then Step(1, TAB_WIDTH - col % TAB_WIDTH) else StepOf(text[i..end], cells)
  }

  /** The column reached after `text[i..end]`, starting in column `col`. */
  function Column(text: Bytes, i: nat, end: nat, col: nat, cells: nat -> nat): (r: nat)
    requires i <= end <= |text|
    ensures r >= col
    decreases end - i
  {
    if i == end then col
    else
      var step := StepAt(text, i, end, col, cells);
      Column(text, i + step.used, end, col + step.cells, cells)
  }

  // ----- one display line -----

  /** Where the characters from `i` on stop fitting; the first one of the line always fits. */
  function FitEnd(text: Bytes, first: nat, i: nat, end: nat, col: nat, width: nat, cells: nat -> nat): (cut: nat)
    requires first <= i <= end <= |text|
    ensures i <= cut <= end && (first == i < end ==> i < cut)
    decreases end - i
  {
    if i == end then end
    else
      var step := StepAt(text, i, end, col, cells);
      if col + step.cells > width && i > first then i
      else FitEnd(text, first, i + step.used, end, col + step.cells, width, cells)
  }

  /** The last blank strictly between `first` and `end`, or `first`. */
  function LastBlank(text: Bytes, first: nat, end: nat): (r: nat)
    requires first <= end <= |text|
    ensures first <= r && (r == first || (r < end && Blank(text[r])))
    decreases end - first
  {
    if end <= first + 1 then first
    else if Blank(text[end - 1]) then end - 1
    else LastBlank(text, first, end - 1)
  }

  /** Back from `end` to the start of a character, but at least one byte past `first`. */
  function SafeEnd(text: Bytes, first: nat, end: nat): (r: nat)
    requires first <= end < |text|
    ensures first < r && r <= (if end > first then end else first + 1)
    decreases end - first
  {
    if end == first then first + 1
    else if Tail(text[end]) then SafeEnd(text, first, end - 1)
    else end
  }

  function TrimSpaces(text: Bytes, first: nat, end: nat): (r: nat)
    requires first <= end <= |text|
    ensures first <= r <= end
    ensures forall k :: r <= k < end ==> text[k] == 32
    decreases end - first
  {
    if end > first && text[end - 1] == 32 then TrimSpaces(text, first, end - 1) else end
  }

  function LineBreak(text: Bytes, pos: nat, width: nat, cells: nat -> nat): (e: nat)
    requires pos < |text| && text[pos] != 10
    ensures pos <= e <= |text|
  {
    var end := ParagraphEnd(text, pos);
    var cut := FitEnd(text, pos, pos, end, 0, width, cells);
    if cut == end then end
    else
      var blank := LastBlank(text, pos, cut);
      if blank > pos then blank else SafeEnd(text, pos, cut)
  }

  function LineEnd(text: Bytes, pos: nat, width: nat, cells: nat -> nat): (e: nat)
    requires pos < |text| && text[pos] != 10
    ensures pos <= e <= |text|
  {
    TrimSpaces(text, pos, LineBreak(text, pos, width, cells))
  }

  function SkipBlanks(text: Bytes, i: nat): (r: nat)
    requires i <= |text|
    ensures i <= r <= |text|
    ensures forall k :: i <= k < r ==> Blank(text[k])
    ensures r < |text| ==> !Blank(text[r])
    decreases |text| - i
  {
    if i < |text| && Blank(text[i]) then SkipBlanks(text, i + 1) else i
  }

  /** Where the next line starts after a line that ends at `e`. */
  function NextStart(text: Bytes, e: nat): (r: nat)
    requires e <= |text|
    ensures e <= r <= |text|
    ensures forall k :: e <= k < r ==> Blank(text[k]) || text[k] == 10
  {
    var i := SkipBlanks(text, e);
    if i < |text| && text[i] == 10 then i + 1 else i
  }

  /** A line that is trimmed away entirely began with a space, so layout always advances. */
  lemma LineAdvances(text: Bytes, pos: nat, width: nat, cells: nat -> nat)
    requires pos < |text| && text[pos] != 10
    ensures pos < NextStart(text, LineEnd(text, pos, width, cells))
  {
    var b := LineBreak(text, pos, width, cells);
    assert b > pos;
    if LineEnd(text, pos, width, cells) == pos {
      assert text[pos] == 32;
      assert SkipBlanks(text, pos) == SkipBlanks(text, pos + 1);
    }
  }

  /** The lines laid from `pos` on. */
  function Lay(text: Bytes, pos: nat, width: nat, cells: nat -> nat): (lines: seq<Span>)
    requires pos <= |text|
    decreases |text| - pos
  {
    if pos == |text| then []
    else if text[pos] == 10 then [Span(pos, 0)] + Lay(text, pos + 1, width, cells)
    else
      LineAdvances(text, pos, width, cells);
      var e := LineEnd(text, pos, width, cells);
      [Span(pos, e - pos)] + Lay(text, NextStart(text, e), width, cells)
  }

  /** All display lines of a page. */
  function DisplayLines(text: Bytes, width: nat, cells: nat -> nat): (lines: seq<Span>) {
    if text == [] then [Span(0, 0)] else Lay(text, 0, width, cells)
  }

  // ----- order and coverage -----

  ghost predicate InOrder(lines: seq<Span>, from: nat, to: nat) {
    && (forall k :: 0 <= k < |lines| ==> from <= lines[k].start && lines[k].End() <= to)
    && forall j, k :: 0 <= j < k < |lines| ==> lines[j].End() <= lines[k].start
  }

  ghost predicate OnSomeLine(lines: seq<Span>, offset: nat) {
    exists k :: 0 <= k < |lines| && lines[k].Holds(offset)
  }

  lemma {:induction false} LayInOrder(text: Bytes, pos: nat, width: nat, cells: nat -> nat)
    requires pos <= |text|
    ensures InOrder(Lay(text, pos, width, cells), pos, |text|)
    decreases |text| - pos
  {
    hide LineEnd, NextStart;
    if pos == |text| {
    } else if text[pos] == 10 {
      LayInOrder(text, pos + 1, width, cells);
    } else {
      LineAdvances(text, pos, width, cells);
      LayInOrder(text, NextStart(text, LineEnd(text, pos, width, cells)), width, cells);
    }
  }

  lemma HeadOrTail(head: Span, tail: seq<Span>, offset: nat)
    ensures OnSomeLine([head] + tail, offset) <==> head.Holds(offset) || OnSomeLine(tail, offset)
  {
    var lines := [head] + tail;
    if OnSomeLine(tail, offset) {
      var k :| 0 <= k < |tail| && tail[k].Holds(offset);
      assert lines[k + 1] == tail[k];
    }
    if head.Holds(offset) {
      assert lines[0] == head;
    }
  }

  /** Only spaces, tabs and newlines lie off the lines. */
  lemma {:induction false} LayCovers(text: Bytes, pos: nat, width: nat, cells: nat -> nat, offset: nat)
    requires pos <= offset < |text| && !Blank(text[offset]) && text[offset] != 10
    ensures OnSomeLine(Lay(text, pos, width, cells), offset)
    decreases |text| - pos
  {
    if text[pos] == 10 {
      LayCovers(text, pos + 1, width, cells, offset);
      HeadOrTail(Span(pos, 0), Lay(text, pos + 1, width, cells), offset);
    } else {
      LineAdvances(text, pos, width, cells);
      var e := LineEnd(text, pos, width, cells);
      var next := NextStart(text, e);
      HeadOrTail(Span(pos, e - pos), Lay(text, next, width, cells), offset);
      if offset >= next {
        LayCovers(text, next, width, cells, offset);
      }
    }
  }

  /** No line contains a newline. */
  ghost predicate OneParagraph(text: Bytes, line: Span)
    requires line.End() <= |text|
  {
    forall k :: line.start <= k < line.End() ==> text[k] != 10
  }

  lemma LineWithinCut(text: Bytes, pos: nat, width: nat, cells: nat -> nat)
    requires pos < |text| && text[pos] != 10
    ensures var end := ParagraphEnd(text, pos);
            LineEnd(text, pos, width, cells) <= FitEnd(text, pos, pos, end, 0, width, cells) <= end
  {
  }

  // ----- width -----

  /** `e` is reached from `i` in whole characters, reading up to `end`. */
  ghost predicate OnPath(text: Bytes, i: nat, end: nat, e: nat)
    requires i <= end <= |text|
    decreases end - i
  {
    i == e || (i < end && var used := StepUsed(text, i, end); OnPath(text, i + used, end, e))
  }

  function StepUsed(text: Bytes, i: nat, end: nat): (used: nat)
    requires i < end <= |text|
    ensures 1 <= used <= end - i
  {
    StepAt(text, i, end, 0, cp => 1).used
  }

  lemma UsedIsUsed(text: Bytes, i: nat, end: nat, col: nat, cells: nat -> nat)
    requires i < end <= |text|
    ensures StepAt(text, i, end, col, cells).used == StepUsed(text, i, end)
  {
  }

  lemma {:induction false} PathAhead(text: Bytes, i: nat, end: nat, e: nat)
    requires i <= end <= |text| && OnPath(text, i, end, e)
    ensures i <= e <= end
    decreases end - i
  {
    if i != e {
      PathAhead(text, i + StepUsed(text, i, end), end, e);
    }
  }

  /** Cutting the text at a whole character changes no step before the cut. */
  lemma StepBeforeCut(text: Bytes, i: nat, end: nat, e: nat, col: nat, cells: nat -> nat)
    requires i < e <= end <= |text| && i + StepUsed(text, i, end) <= e
    ensures StepAt(text, i, e, col, cells) == StepAt(text, i, end, col, cells)
  {
    assert text[i..end][..e - i] == text[i..e];
    UsedIsUsed(text, i, end, col, cells);
    if text[i] != 9 {
      DecodePrefix(text[i..end], e - i);
    }
  }

  lemma ColumnStep(text: Bytes, i: nat, end: nat, e: nat, col: nat, cells: nat -> nat)
    requires i < end <= |text| && i + StepUsed(text, i, end) <= e <= end
    ensures var step := StepAt(text, i, end, col, cells);
            step.used == StepUsed(text, i, end)
            && Column(text, i, e, col, cells) == Column(text, i + step.used, e, col + step.cells, cells)
  {
    hide StepAt, StepUsed;
    UsedIsUsed(text, i, end, col, cells);
    StepBeforeCut(text, i, end, e, col, cells);
  }

  /** A shorter stretch of whole characters reaches no further column. */
  lemma {:induction false} ShorterIsNarrower(text: Bytes, i: nat, end: nat, e: nat, cut: nat, col: nat, cells: nat -> nat)
    requires i <= e <= cut <= end <= |text| && OnPath(text, i, end, e) && OnPath(text, i, end, cut)
    ensures Column(text, i, e, col, cells) <= Column(text, i, cut, col, cells)
    decreases end - i
  {
    hide StepAt, StepUsed;
    if i < e {
      var next := i + StepUsed(text, i, end);
      var column := col + StepAt(text, i, end, col, cells).cells;
      assert OnPath(text, next, end, e) && OnPath(text, next, end, cut);
      PathAhead(text, next, end, e);
      ShorterIsNarrower(text, next, end, e, cut, column, cells);
      ColumnStep(text, i, end, e, col, cells);
      ColumnStep(text, i, end, cut, col, cells);
    }
  }

  lemma FirstStepIsNarrow(text: Bytes, i: nat, end: nat, col: nat, cells: nat -> nat)
    requires i < end <= |text| && Terminal(cells)
    ensures StepAt(text, i, end, col, cells).cells <= TAB_WIDTH
  {
    if text[i] != 9 && Decode(text[i..end]).Character? {
      assert cells(Decode(text[i..end]).codepoint) <= 2;
    }
  }

  /** What fits ends at a whole character and keeps the width. */
  lemma {:induction false} FitEndFits(text: Bytes, first: nat, i: nat, end: nat, col: nat, width: nat, cells: nat -> nat)
    requires first <= i <= end <= |text| && Terminal(cells) && width >= MIN_WIDTH
    requires col <= width && (i == first ==> col == 0)
    ensures var cut := FitEnd(text, first, i, end, col, width, cells);
            OnPath(text, i, end, cut) && Column(text, i, cut, col, cells) <= width
    decreases end - i
  {
    hide StepAt;
    if i < end {
      var step := StepAt(text, i, end, col, cells);
      UsedIsUsed(text, i, end, col, cells);
      if !(col + step.cells > width && i > first) {
        var next := i + step.used;
        FirstStepIsNarrow(text, i, end, col, cells);
        FitEndFits(text, first, next, end, col + step.cells, width, cells);
        var cut := FitEnd(text, first, next, end, col + step.cells, width, cells);
        ColumnStep(text, i, end, cut, col, cells);
      }
    }
  }

  lemma StepTails(text: Bytes, i: nat, end: nat, k: nat)
    requires i < end <= |text| && i < k < i + StepUsed(text, i, end)
    ensures Tail(text[k])
  {
    DecodeTails(text[i..end], k - i);
  }

  /** A byte that begins a character is reached in whole characters. */
  lemma {:induction false} StartsAreOnPath(text: Bytes, i: nat, end: nat, cut: nat, e: nat)
    requires i <= e <= cut <= end <= |text| && OnPath(text, i, end, cut)
    requires e == cut || !Tail(text[e])
    ensures OnPath(text, i, end, e)
    decreases end - i
  {
    if i < e < cut {
      var used := StepUsed(text, i, end);
      if e < i + used {
        StepTails(text, i, end, e);
      }
      PathAhead(text, i + used, end, cut);
      StartsAreOnPath(text, i + used, end, cut, e);
    }
  }

  lemma {:induction false} SafeEndStarts(text: Bytes, first: nat, end: nat)
    requires first <= end < |text|
    ensures var r := SafeEnd(text, first, end); (r <= end && !Tail(text[r])) || r == first + 1
    decreases end - first
  {
    if end > first && Tail(text[end]) {
      SafeEndStarts(text, first, end - 1);
    }
  }

  /** Where a line can end: at the cut, at the start of a character, or after one byte. */
  lemma LineEndChoices(text: Bytes, pos: nat, width: nat, cells: nat -> nat)
    requires pos < |text| && text[pos] != 10
    ensures var cut := FitEnd(text, pos, pos, ParagraphEnd(text, pos), 0, width, cells);
            var e := LineEnd(text, pos, width, cells);
            pos <= e <= cut && (e == cut || !Tail(text[e]) || e == pos + 1)
  {
    var cut := FitEnd(text, pos, pos, ParagraphEnd(text, pos), 0, width, cells);
    if cut < |text| {
      SafeEndStarts(text, pos, cut);
    }
  }

  /** No display line is wider than the page. */
  lemma LineFits(text: Bytes, pos: nat, width: nat, cells: nat -> nat)
    requires pos < |text| && text[pos] != 10 && Terminal(cells) && width >= MIN_WIDTH
    ensures Column(text, pos, LineEnd(text, pos, width, cells), 0, cells) <= width
  {
    var end := ParagraphEnd(text, pos);
    var cut := FitEnd(text, pos, pos, end, 0, width, cells);
    var e := LineEnd(text, pos, width, cells);
    LineEndChoices(text, pos, width, cells);
    FitEndFits(text, pos, pos, end, 0, width, cells);
    if e == cut || !Tail(text[e]) {
      StartsAreOnPath(text, pos, end, cut, e);
      ShorterIsNarrower(text, pos, end, e, cut, 0, cells);
    } else {
      FirstStepIsNarrow(text, pos, pos + 1, 0, cells);
      assert StepAt(text, pos, pos + 1, 0, cells).used == 1;
    }
  }

  // ----- character boundaries -----

  lemma StepIsDecode(text: Bytes, i: nat, end: nat)
    requires i < end <= |text| && Decode(text[i..end]).Character?
    ensures StepUsed(text, i, end) == Decode(text[i..end]).used
  {
  }

  lemma StepReachesBoundary(text: Bytes, i: nat, end: nat)
    requires i < end <= |text| && WellFormed(text) && Boundary(text, i)
    requires end == |text| || !Tail(text[end])
    ensures Boundary(text, i + StepUsed(text, i, end))
    ensures Decode(text[i..end]).Character? && StepUsed(text, i, end) == Decode(text[i..]).used
  {
    hide Decode, StepUsed;
    WellFormedSuffix(text, i);
    var s := text[i..];
    CharacterFirst(s);
    var used := Decode(s).used;
    if i + used > end {
      DecodeTails(s, end - i);
    }
    assert s[..end - i] == text[i..end];
    DecodePrefix(s, end - i);
    StepIsDecode(text, i, end);
    CharacterFirst(s[used..]);
  }

  lemma CharacterFirst(s: Bytes)
    requires WellFormed(s)
    ensures s != [] ==> !Tail(s[0]) && Decode(s).Character? && WellFormed(s[Decode(s).used..])
  {
  }

  lemma {:induction false} PathKeepsBoundaries(text: Bytes, i: nat, end: nat, e: nat)
    requires i <= end <= |text| && OnPath(text, i, end, e) && WellFormed(text) && Boundary(text, i)
    requires end == |text| || !Tail(text[end])
    ensures e <= |text| && Boundary(text, e)
    decreases end - i
  {
    PathAhead(text, i, end, e);
    if i != e {
      StepReachesBoundary(text, i, end);
      PathKeepsBoundaries(text, i + StepUsed(text, i, end), end, e);
    }
  }

  /** In well-formed text a line that begins at a character ends at one. */
  lemma LineEndsAtBoundary(text: Bytes, pos: nat, width: nat, cells: nat -> nat)
    requires pos < |text| && text[pos] != 10 && Terminal(cells) && width >= MIN_WIDTH
    requires WellFormed(text) && Boundary(text, pos)
    ensures Boundary(text, LineEnd(text, pos, width, cells))
  {
    var end := ParagraphEnd(text, pos);
    ParagraphHasNoNewline(text, pos);
    var cut := FitEnd(text, pos, pos, end, 0, width, cells);
    FitEndFits(text, pos, pos, end, 0, width, cells);
    PathKeepsBoundaries(text, pos, end, cut);
    LineEndChoices(text, pos, width, cells);
    if cut < end {
      assert SafeEnd(text, pos, cut) == cut;
    }
  }

  lemma {:induction false} BlanksKeepBoundary(text: Bytes, i: nat, j: nat)
    requires i <= j <= |text| && WellFormed(text) && Boundary(text, i)
    requires forall k :: i <= k < j ==> text[k] < 0x80
    ensures Boundary(text, j)
    decreases j - i
  {
    if i < j {
      StepReachesBoundary(text, i, |text|);
      assert StepUsed(text, i, |text|) == 1;
      BlanksKeepBoundary(text, i + 1, j);
    }
  }

  /** What is promised of one display line. */
  ghost predicate GoodLine(text: Bytes, line: Span, width: nat, cells: nat -> nat) {
    && line.End() <= |text|
    && OneParagraph(text, line)
    && Column(text, line.start, line.End(), 0, cells) <= width
    && (WellFormed(text) ==> Boundary(text, line.start) && Boundary(text, line.End()))
  }

  ghost predicate AllGood(text: Bytes, lines: seq<Span>, width: nat, cells: nat -> nat) {
    forall k :: 0 <= k < |lines| ==> GoodLine(text, lines[k], width, cells)
  }

  lemma LineIsGood(text: Bytes, pos: nat, width: nat, cells: nat -> nat)
    requires pos < |text| && text[pos] != 10 && Terminal(cells) && width >= MIN_WIDTH
    requires WellFormed(text) ==> Boundary(text, pos)
    ensures var e := LineEnd(text, pos, width, cells);
            && GoodLine(text, Span(pos, e - pos), width, cells)
            && (WellFormed(text) ==> Boundary(text, NextStart(text, e)))
  {
    hide LineEnd, NextStart, WellFormed, Column;
    var e := LineEnd(text, pos, width, cells);
    LineFits(text, pos, width, cells);
    LineWithinCut(text, pos, width, cells);
    ParagraphHasNoNewline(text, pos);
    if WellFormed(text) {
      LineEndsAtBoundary(text, pos, width, cells);
      BlanksKeepBoundary(text, e, NextStart(text, e));
    }
  }

  lemma EmptyLineIsGood(text: Bytes, pos: nat, width: nat, cells: nat -> nat)
    requires pos < |text| && text[pos] == 10
    requires WellFormed(text) ==> Boundary(text, pos)
    ensures GoodLine(text, Span(pos, 0), width, cells)
    ensures WellFormed(text) ==> Boundary(text, pos + 1)
  {
    if WellFormed(text) {
      BlanksKeepBoundary(text, pos, pos + 1);
    }
  }

  lemma {:induction false} LayGoodLines(text: Bytes, pos: nat, width: nat, cells: nat -> nat)
    requires pos <= |text| && Terminal(cells) && width >= MIN_WIDTH
    requires WellFormed(text) ==> Boundary(text, pos)
    ensures AllGood(text, Lay(text, pos, width, cells), width, cells)
    decreases |text| - pos
  {
    hide GoodLine, LineEnd, NextStart, WellFormed;
    if pos < |text| {
      var e, next := pos, pos + 1;
      if text[pos] == 10 {
        EmptyLineIsGood(text, pos, width, cells);
      } else {
        LineAdvances(text, pos, width, cells);
        LineIsGood(text, pos, width, cells);
        e := LineEnd(text, pos, width, cells);
        next := NextStart(text, e);
      }
      LayGoodLines(text, next, width, cells);
      assert GoodLine(text, Span(pos, e - pos), width, cells);
      assert Lay(text, pos, width, cells) == [Span(pos, e - pos)] + Lay(text, next, width, cells);
    }
  }

  // ----- a line goes as far as it can -----

  /** Nothing beyond the cut fits: a longer stretch of whole characters is too wide. */
  lemma {:induction false} FitEndIsFurthest(text: Bytes, first: nat, i: nat, end: nat, col: nat, width: nat, cells: nat -> nat, e: nat)
    requires first <= i <= e <= end <= |text| && OnPath(text, i, end, e)
    requires Column(text, i, e, col, cells) <= width
    ensures e <= FitEnd(text, first, i, end, col, width, cells)
    decreases end - i
  {
    hide StepAt, StepUsed;
    if i < e {
      var next := i + StepUsed(text, i, end);
      var column := col + StepAt(text, i, end, col, cells).cells;
      PathAhead(text, next, end, e);
      ColumnStep(text, i, end, e, col, cells);
      FitEndIsFurthest(text, first, next, end, column, width, cells, e);
    }
  }

  /** A place inside the text that ends as many whole characters of the paragraph as the width takes. */
  ghost predicate Furthest(text: Bytes, pos: nat, end: nat, cut: nat, width: nat, cells: nat -> nat)
    requires pos <= end <= |text|
  {
    && pos <= cut <= end && OnPath(text, pos, end, cut) && Column(text, pos, cut, 0, cells) <= width
    && forall e :: pos <= e <= end && OnPath(text, pos, end, e) && Column(text, pos, e, 0, cells) <= width ==> e <= cut
  }

  /**
   A line takes as many whole characters as the width allows. If that is all of the paragraph it ends there; else
   it ends at the last blank before that place, or, without one, as far back from it as the next byte would not
   begin a character, but after one byte at least. Spaces at its end do not belong to it.
   */
  lemma LineGoesFurthest(text: Bytes, pos: nat, width: nat, cells: nat -> nat) returns (cut: nat, stop: nat)
    requires pos < |text| && text[pos] != 10 && Terminal(cells) && width >= MIN_WIDTH
    ensures var end := ParagraphEnd(text, pos);
            var e := LineEnd(text, pos, width, cells);
            && Furthest(text, pos, end, cut, width, cells) && pos < stop <= cut
            && (cut == end ==> stop == end)
            && (cut < end && (exists k :: pos < k < cut && Blank(text[k])) ==>
                  stop < cut && Blank(text[stop]) && forall k :: stop < k < cut ==> !Blank(text[k]))
            && (cut < end && (forall k :: pos < k < cut ==> !Blank(text[k])) ==>
                  (!Tail(text[stop]) || stop == pos + 1) && forall k :: stop < k <= cut ==> Tail(text[k]))
            && pos <= e <= stop && (forall k :: e <= k < stop ==> text[k] == 32) && (e > pos ==> text[e - 1] != 32)
  {
    hide StepAt, Column;
    var end := ParagraphEnd(text, pos);
    cut := FitEnd(text, pos, pos, end, 0, width, cells);
    stop := LineBreak(text, pos, width, cells);
    FitEndFits(text, pos, pos, end, 0, width, cells);
    forall e | pos <= e <= end && OnPath(text, pos, end, e) && Column(text, pos, e, 0, cells) <= width ensures e <= cut {
      FitEndIsFurthest(text, pos, pos, end, 0, width, cells, e);
    }
    assert pos < cut;
    if cut < end {
      LastBlankIsLast(text, pos, cut);
      SafeEndIsLast(text, pos, cut);
    }
    TrimSpacesStops(text, pos, stop);
  }

  lemma {:induction false} LastBlankIsLast(text: Bytes, first: nat, end: nat)
    requires first <= end <= |text|
    ensures var r := LastBlank(text, first, end); forall k :: first < k < end && r < k ==> !Blank(text[k])
    decreases end - first
  {
    if end > first + 1 && !Blank(text[end - 1]) {
      LastBlankIsLast(text, first, end - 1);
    }
  }

  lemma {:induction false} SafeEndIsLast(text: Bytes, first: nat, end: nat)
    requires first < end < |text|
    ensures var r := SafeEnd(text, first, end);
            first < r <= end && (!Tail(text[r]) || r == first + 1) && forall k :: r < k <= end ==> Tail(text[k])
    decreases end - first
  {
    if end > first + 1 && Tail(text[end]) {
      SafeEndIsLast(text, first, end - 1);
    }
  }

  lemma {:induction false} TrimSpacesStops(text: Bytes, first: nat, end: nat)
    requires first <= end <= |text|
    ensures var r := TrimSpaces(text, first, end); r > first ==> text[r - 1] != 32
    decreases end - first
  {
    if end > first && text[end - 1] == 32 {
      TrimSpacesStops(text, first, end - 1);
    }
  }

  /** The rest of a paragraph that keeps the width is one line, less the spaces at its end. */
  lemma ShortParagraphIsOneLine(text: Bytes, pos: nat, width: nat, cells: nat -> nat)
    requires pos < |text| && text[pos] != 10 && Terminal(cells) && width >= MIN_WIDTH
    requires Column(text, pos, ParagraphEnd(text, pos), 0, cells) <= width
    ensures var end := ParagraphEnd(text, pos);
            var e := LineEnd(text, pos, width, cells);
            pos <= e <= end && (forall k :: e <= k < end ==> text[k] == 32) && (e > pos ==> text[e - 1] != 32)
  {
    hide Column;
    var end := ParagraphEnd(text, pos);
    var cut, stop := LineGoesFurthest(text, pos, width, cells);
    EndIsOnPath(text, pos, end);
    assert end <= cut;
  }

  lemma {:induction false} EndIsOnPath(text: Bytes, i: nat, end: nat)
    requires i <= end <= |text|
    ensures OnPath(text, i, end, end)
    decreases end - i
  {
    hide StepUsed;
    if i < end {
      EndIsOnPath(text, i + StepUsed(text, i, end), end);
    }
  }

  /** Lines one after another: the blanks between two, and one newline, are on neither. */
  ghost predicate Follows(text: Bytes, line: Span, next: nat) {
    && line.End() <= next <= |text|
    && if line.len == 0 && line.start < |text| && text[line.start] == 10 then next == line.start + 1
       else
         exists i :: line.End() <= i <= next && (forall k :: line.End() <= k < i ==> Blank(text[k]))
                     && (i < |text| ==> !Blank(text[i])) && next == if i < |text| && text[i] == 10 then i + 1 else i
  }

  /** A newline makes an empty line, and otherwise the line goes as far as it can. */
  ghost predicate IsLineAt(text: Bytes, line: Span, width: nat, cells: nat -> nat) {
    && line.start < |text|
    && if text[line.start] == 10 then line.len == 0 else line.End() == LineEnd(text, line.start, width, cells)
  }

  function StartAfter(text: Bytes, lines: seq<Span>, k: nat): (start: nat)
    requires k < |lines|
  {
    if k + 1 < |lines| then lines[k + 1].start else |text|
  }

  /** Each line starts where the one before leaves off, from the first byte to the last. */
  ghost predicate Chained(text: Bytes, lines: seq<Span>, from: nat, width: nat, cells: nat -> nat) {
    && from == (if lines == [] then |text| else lines[0].start)
    && forall k :: 0 <= k < |lines| ==>
         IsLineAt(text, lines[k], width, cells) && Follows(text, lines[k], StartAfter(text, lines, k))
  }

  lemma {:induction false} LayIsChained(text: Bytes, pos: nat, width: nat, cells: nat -> nat)
    requires pos <= |text|
    ensures Chained(text, Lay(text, pos, width, cells), pos, width, cells)
    decreases |text| - pos
  {
    hide Lay, Follows, Chained, IsLineAt;
    if pos == |text| {
      NoneChained(text, width, cells);
    } else {
      var line, next := FirstLine(text, pos, width, cells);
      LayIsChained(text, next, width, cells);
      ChainedOneMore(text, line, Lay(text, next, width, cells), next, width, cells);
    }
  }

  lemma FirstLine(text: Bytes, pos: nat, width: nat, cells: nat -> nat) returns (line: Span, next: nat)
    requires pos < |text|
    ensures pos < next <= |text| && line.start == pos && Lay(text, pos, width, cells) == [line] + Lay(text, next, width, cells)
    ensures IsLineAt(text, line, width, cells) && Follows(text, line, next)
  {
    hide LineEnd, NextStart, Follows;
    if text[pos] == 10 {
      line, next := Span(pos, 0), pos + 1;
      NewlineFollows(text, pos);
    } else {
      LineAdvances(text, pos, width, cells);
      var e := LineEnd(text, pos, width, cells);
      line, next := Span(pos, e - pos), NextStart(text, e);
      NextFollows(text, line);
    }
  }

  lemma NoneChained(text: Bytes, width: nat, cells: nat -> nat)
    ensures Lay(text, |text|, width, cells) == [] && Chained(text, [], |text|, width, cells)
  {
  }

  lemma ChainedOneMore(text: Bytes, line: Span, rest: seq<Span>, next: nat, width: nat, cells: nat -> nat)
    requires Chained(text, rest, next, width, cells) && Follows(text, line, next) && IsLineAt(text, line, width, cells)
    ensures Chained(text, [line] + rest, line.start, width, cells)
  {
    hide LineEnd, Follows, IsLineAt;
    var lines := [line] + rest;
    forall k | 0 <= k < |lines|
      ensures IsLineAt(text, lines[k], width, cells) && Follows(text, lines[k], StartAfter(text, lines, k))
    {
      if k == 0 {
        assert StartAfter(text, lines, 0) == next;
      } else {
        assert lines[k] == rest[k - 1] && StartAfter(text, lines, k) == StartAfter(text, rest, k - 1);
      }
    }
  }

  lemma NewlineFollows(text: Bytes, pos: nat)
    requires pos < |text| && text[pos] == 10
    ensures Follows(text, Span(pos, 0), pos + 1)
  {
  }

  lemma NextFollows(text: Bytes, line: Span)
    requires line.start < |text| && line.End() <= |text| && text[line.start] != 10
    ensures Follows(text, line, NextStart(text, line.End()))
  {
    var i := SkipBlanks(text, line.End());
    assert line.End() <= i <= NextStart(text, line.End());
  }

  /**
   The display lines are in order and disjoint, each lies in one paragraph, keeps the
   width and never splits a character of well-formed text, and every byte other than
   a space, tab or newline lies on one of them. Each begins where the one before leaves off.
   */
  lemma DisplayLinesAreGood(text: Bytes, width: nat, cells: nat -> nat)
    requires Terminal(cells) && width >= MIN_WIDTH
    ensures var lines := DisplayLines(text, width, cells);
            && InOrder(lines, 0, |text|)
            && AllGood(text, lines, width, cells)
            && (if text == [] then lines == [Span(0, 0)] else Chained(text, lines, 0, width, cells))
            && forall o :: 0 <= o < |text| && !Blank(text[o]) && text[o] != 10 ==> OnSomeLine(lines, o)
  {
    hide Chained, LineEnd;
    if text != [] {
      LayIsChained(text, 0, width, cells);
      LayInOrder(text, 0, width, cells);
      if WellFormed(text) {
        assert Decode(text).Character?;
      }
      LayGoodLines(text, 0, width, cells);
      forall o | 0 <= o < |text| && !Blank(text[o]) && text[o] != 10 ensures OnSomeLine(Lay(text, 0, width, cells), o) {
        LayCovers(text, 0, width, cells, o);
      }
    }
  }

  // ----- where a line ends in any text -----

  /** A line that fits, ends at a blank, or begins with one byte, or whose cut can move back to a byte that begins something. */
  ghost predicate EndsWhole(text: Bytes, pos: nat, width: nat, cells: nat -> nat)
    requires pos < |text| && text[pos] != 10
  {
    var end := ParagraphEnd(text, pos);
    var cut := FitEnd(text, pos, pos, end, 0, width, cells);
    || cut == end
    || LastBlank(text, pos, cut) > pos
    || StepUsed(text, pos, end) == 1
    || exists k :: pos < k <= cut && !Tail(text[k])
  }

  /**
   In any text, malformed text included, a line ends after whole characters if and only if it fits to the end of
   its paragraph, or a blank was found, or its first character is one byte, or some byte between the first one and
   the cut begins a character.
   */
  lemma LineEndIsWholeIff(text: Bytes, pos: nat, width: nat, cells: nat -> nat)
    requires pos < |text| && text[pos] != 10
    ensures var end := ParagraphEnd(text, pos);
            OnPath(text, pos, end, LineEnd(text, pos, width, cells)) <==> EndsWhole(text, pos, width, cells)
  {
    hide OnPath, StepUsed, LineEnd, FitEnd;
    if EndsWhole(text, pos, width, cells) {
      WholeEnd(text, pos, width, cells);
    } else {
      SplitEnd(text, pos, width, cells);
    }
  }

  lemma WholeEnd(text: Bytes, pos: nat, width: nat, cells: nat -> nat)
    requires pos < |text| && text[pos] != 10 && EndsWhole(text, pos, width, cells)
    ensures OnPath(text, pos, ParagraphEnd(text, pos), LineEnd(text, pos, width, cells))
  {
    hide OnPath, StepUsed, LineEnd, FitEnd, EndsWhole;
    var end := ParagraphEnd(text, pos);
    var cut := FitEnd(text, pos, pos, end, 0, width, cells);
    var e := LineEnd(text, pos, width, cells);
    FitEndIsOnPath(text, pos, pos, end, 0, width, cells);
    LineEndChoices(text, pos, width, cells);
    if e == cut || !Tail(text[e]) {
      StartsAreOnPath(text, pos, end, cut, e);
    } else {
      OneByteFirst(text, pos, width, cells);
    }
  }

  lemma SplitEnd(text: Bytes, pos: nat, width: nat, cells: nat -> nat)
    requires pos < |text| && text[pos] != 10 && !EndsWhole(text, pos, width, cells)
    ensures !OnPath(text, pos, ParagraphEnd(text, pos), LineEnd(text, pos, width, cells))
    ensures LineEnd(text, pos, width, cells) == pos + 1
  {
    hide StepUsed, FitEnd;
    var end := ParagraphEnd(text, pos);
    var cut := FitEnd(text, pos, pos, end, 0, width, cells);
    OnlyTailsFollow(text, pos, cut);
    assert LineBreak(text, pos, width, cells) == pos + 1;
    LeadIsNoSpace(text, pos, end);
    if OnPath(text, pos, end, pos + 1) {
      PathAhead(text, pos + StepUsed(text, pos, end), end, pos + 1);
    }
  }

  lemma {:induction false} FitEndIsOnPath(text: Bytes, first: nat, i: nat, end: nat, col: nat, width: nat, cells: nat -> nat)
    requires first <= i <= end <= |text|
    ensures OnPath(text, i, end, FitEnd(text, first, i, end, col, width, cells))
    decreases end - i
  {
    if i < end {
      var step := StepAt(text, i, end, col, cells);
      UsedIsUsed(text, i, end, col, cells);
      FitEndIsOnPath(text, first, i + step.used, end, col + step.cells, width, cells);
    }
  }

  /** A line that ends before a stray tail can only have been cut after one byte. */
  lemma OneByteFirst(text: Bytes, pos: nat, width: nat, cells: nat -> nat)
    requires pos < |text| && text[pos] != 10 && EndsWhole(text, pos, width, cells)
    requires var e := LineEnd(text, pos, width, cells);
             e < FitEnd(text, pos, pos, ParagraphEnd(text, pos), 0, width, cells) && Tail(text[e])
    ensures LineEnd(text, pos, width, cells) == pos + 1 && StepUsed(text, pos, ParagraphEnd(text, pos)) == 1
    ensures OnPath(text, pos, ParagraphEnd(text, pos), pos + 1)
  {
    var end := ParagraphEnd(text, pos);
    var cut := FitEnd(text, pos, pos, end, 0, width, cells);
    assert cut < end;
    SafeEndStarts(text, pos, cut);
    if exists k :: pos < k <= cut && !Tail(text[k]) {
      SafeEndFindsStart(text, pos, cut);
    }
  }

  lemma {:induction false} SafeEndFindsStart(text: Bytes, first: nat, end: nat)
    requires first <= end < |text| && exists k :: first < k <= end && !Tail(text[k])
    ensures !Tail(text[SafeEnd(text, first, end)])
    decreases end - first
  {
    if Tail(text[end]) {
      SafeEndFindsStart(text, first, end - 1);
    }
  }

  lemma {:induction false} OnlyTailsFollow(text: Bytes, first: nat, end: nat)
    requires first <= end < |text| && forall k :: first < k <= end ==> Tail(text[k])
    ensures SafeEnd(text, first, end) == first + 1
    decreases end - first
  {
    if end > first {
      OnlyTailsFollow(text, first, end - 1);
    }
  }

  lemma LeadIsNoSpace(text: Bytes, i: nat, end: nat)
    requires i < end <= |text| && StepUsed(text, i, end) > 1
    ensures text[i] != 32
  {
  }

  /** A two-byte character with stray continuation bytes behind it. */
  const STRAY: Bytes := [0xc3, 0xa9] + seq(25, _ => 0x80)

  lemma {:induction false} StrayOverflows(i: nat, col: nat, cells: nat -> nat)
    requires 2 <= i <= 27 && i + (if col <= 20 then 20 - col else 0) < 27
    ensures FitEnd(STRAY, 0, i, 27, col, 20, cells) < 27
    decreases 27 - i
  {
    assert STRAY[i..27][0] == 0x80;
    if col + 1 <= 20 {
      StrayOverflows(i + 1, col + 1, cells);
    }
  }

  /**
   The first line of such a text is cut at 20 columns, the narrowest width there is, and ends inside the
   character, whatever the widths of characters are.
   */
  lemma MalformedTextIsSplit(cells: nat -> nat)
    ensures LineEnd(STRAY, 0, MIN_WIDTH, cells) == 1 && Decode(STRAY) == Character(0xe9, 2)
    ensures !OnPath(STRAY, 0, ParagraphEnd(STRAY, 0), 1) && !EndsWhole(STRAY, 0, MIN_WIDTH, cells)
    ensures DisplayLines(STRAY, MIN_WIDTH, cells)[0] == Span(0, 1)
  {
    hide Decode, StepUsed, StepAt, STRAY, OnPath, LineEnd, FitEnd;
    StrayParagraph(0);
    StrayFirst();
    StrayIsCut(cells);
    var cut := FitEnd(STRAY, 0, 0, 27, 0, MIN_WIDTH, cells);
    StrayTails();
    SplitEnd(STRAY, 0, MIN_WIDTH, cells);
  }

  lemma StrayTails()
    ensures |STRAY| == 27 && STRAY[0] == 0xc3 && forall k :: 0 < k < 27 ==> Tail(STRAY[k])
  {
  }

  lemma StrayFirst()
    ensures |STRAY| == 27 && Decode(STRAY) == Character(0xe9, 2) && StepUsed(STRAY, 0, 27) == 2
  {
    hide Decode, StepUsed;
    assert |STRAY| == 27 && STRAY[0..27] == STRAY && STRAY[0] == 0xc3 && STRAY[1] == 0xa9;
    hide STRAY;
    FirstOfTwo(STRAY);
    StepIsDecode(STRAY, 0, 27);
  }

  lemma FirstOfTwo(s: Bytes)
    requires |s| >= 2 && s[0] == 0xc3 && s[1] == 0xa9
    ensures Decode(s) == Character(0xe9, 2)
  {
    assert Decode(s) == Character(Join(0xc3 % 32, 0xa9), 2);
  }

  lemma StrayIsCut(cells: nat -> nat)
    ensures |STRAY| == 27 && 0 < FitEnd(STRAY, 0, 0, 27, 0, MIN_WIDTH, cells) < 27
  {
    StrayFirst();
    UsedIsUsed(STRAY, 0, 27, 0, cells);
    var step := StepAt(STRAY, 0, 27, 0, cells);
    StrayOverflows(2, step.cells, cells);
  }

  lemma {:induction false} StrayParagraph(i: nat)
    requires i <= 27
    ensures ParagraphEnd(STRAY, i) == 27
    decreases 27 - i
  {
    if i < 27 {
      StrayParagraph(i + 1);
    }
  }

  // ----- what the parts mean -----

  /** A line may break at a space or a tab. */
  lemma BlankIff(b: Byte)
    ensures Blank(b) <==> b in Ascii(" \t")
  {
    assert Ascii(" \t") == [32, 9];
  }

  /** A tab goes to the next column that is a multiple of four, and any other character takes its cells. */
  lemma ColumnsAre(text: Bytes, i: nat, end: nat, col: nat, cells: nat -> nat)
    requires i < end <= |text|
    ensures var step := StepAt(text, i, end, col, cells);
            if text[i] == 9 then step.used == 1 && col < col + step.cells <= col + 4 && (col + step.cells) % 4 == 0
            else
              match Decode(text[i..end])
              case Character(cp, used) => step.used == used && step.cells == if cells(cp) == 0 then 1 else cells(cp)
              case Malformed => step.used == step.cells == 1
  {
  }
}
