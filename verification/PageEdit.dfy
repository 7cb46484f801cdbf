/**
 Rewriting the text of a page while links and controls keep pointing at the same
 bytes: deletion of a range, and the reader filter.
 */
module PageEdit {
  import ByteText
  import opened Options
  import opened Utf8
  import opened PageData

  // ----- deleting a range -----

  function WithoutRange(text: Bytes, start: nat, end: nat): (r: Bytes)
    requires start <= end <= |text|
  {
    text[..start] + text[end..]
  }

  function Shifted(offset: nat, start: nat, end: nat): (r: nat)
    requires start <= end
  {
    if offset >= end then offset - (end - start) else offset
  }

  predicate Survives<T>(mark: Mark<T>, start: nat, end: nat) {
    !(start <= mark.offset < end)
  }

  /** The first `n` marks without those in the range, shifted over the gap. */
  function Outside<T>(marks: seq<Mark<T>>, n: nat, start: nat, end: nat): (r: seq<Mark<T>>)
    requires n <= |marks| && start <= end
    ensures |r| == Survivors(marks, n, start, end)
  {
    if n == 0 then []
    else
      var rest := Outside(marks, n - 1, start, end);
      var mark := marks[n - 1];
      if Survives(mark, start, end) then rest + [Mark(mark.item, Shifted(mark.offset, start, end))] else rest
  }

  /** How many of the first `n` marks lie outside the range. */
  function Survivors<T>(marks: seq<Mark<T>>, n: nat, start: nat, end: nat): (count: nat)
    requires n <= |marks|
    ensures count <= n
  {
    if n == 0 then 0
    else Survivors(marks, n - 1, start, end) + if Survives(marks[n - 1], start, end) then 1 else 0
  }

  /** A shifted mark points at the byte it pointed at before. */
  lemma ShiftedByte(text: Bytes, start: nat, end: nat, offset: nat)
    requires start <= end <= |text| && !(start <= offset < end)
    ensures var r, o := WithoutRange(text, start, end), Shifted(offset, start, end);
            && (offset < |text| ==> o < |r| && r[o] == text[offset])
            && (offset >= |text| ==> o - |r| == offset - |text|)
            && (end <= offset <= |text| ==> r[o..] == text[offset..])
            && (offset < start ==> r[o..start] == text[offset..start])
  {
    var r, o := WithoutRange(text, start, end), Shifted(offset, start, end);
    if end <= offset <= |text| {
      assert r[o..] == text[offset..];
    }
    if offset < start {
      assert r[o..start] == text[offset..start];
    }
  }

  lemma {:induction false} SurvivorsGrow<T>(marks: seq<Mark<T>>, m: nat, n: nat, start: nat, end: nat)
    requires m <= n <= |marks|
    ensures Survivors(marks, m, start, end) <= Survivors(marks, n, start, end)
    decreases n
  {
    if m < n {
      SurvivorsGrow(marks, m, n - 1, start, end);
    }
  }

  lemma {:induction false} SurvivorStays<T>(marks: seq<Mark<T>>, n: nat, i: nat, start: nat, end: nat)
    requires i < n <= |marks| && start <= end && Survives(marks[i], start, end)
    ensures var k := Survivors(marks, i, start, end);
            && k < |Outside(marks, n, start, end)|
            && Outside(marks, n, start, end)[k] == Mark(marks[i].item, Shifted(marks[i].offset, start, end))
    decreases n
  {
    if i < n - 1 {
      SurvivorStays(marks, n - 1, i, start, end);
    }
  }

  /** Those of the first `n` marks that lie before or behind the range. */
  ghost function Others<T>(marks: seq<Mark<T>>, n: nat, start: nat, end: nat): (s: set<nat>)
    requires n <= |marks|
  {
    set i: nat | i < n && (marks[i].offset < start || marks[i].offset >= end)
  }

  lemma {:induction false} SurvivorsAre<T>(marks: seq<Mark<T>>, n: nat, start: nat, end: nat)
    requires n <= |marks|
    ensures Survivors(marks, n, start, end) == |Others(marks, n, start, end)|
  {
    if n > 0 {
      SurvivorsAre(marks, n - 1, start, end);
      var last: nat := n - 1;
      assert Others(marks, n, start, end)
             == Others(marks, last, start, end) + if start <= marks[last].offset < end then {} else {last};
    }
  }

  /**
   A mark outside the range keeps its item and comes right after the marks before it that
   also lie outside; with the length of the result this fixes every entry.
   */
  lemma OutsideIsExact<T>(marks: seq<Mark<T>>, n: nat, i: nat, start: nat, end: nat)
    requires i < n <= |marks| && start <= end
    ensures |Outside(marks, n, start, end)| == |Others(marks, n, start, end)|
    ensures marks[i].offset < start || marks[i].offset >= end ==>
              var k := |Others(marks, i, start, end)|;
              && k < |Outside(marks, n, start, end)|
              && Outside(marks, n, start, end)[k] == Mark(marks[i].item, Shifted(marks[i].offset, start, end))
  {
    SurvivorsAre(marks, n, start, end);
    SurvivorsAre(marks, i, start, end);
    if Survives(marks[i], start, end) {
      SurvivorStays(marks, n, i, start, end);
    }
  }

  // ----- the reader filter -----

  predicate HasText(line: Bytes) {
    exists k :: 0 <= k < |line| && !ByteText.Space(line[k])
  }

  /** A retained line of the source, and whether a blank line goes before it. */
  datatype Kept = Kept(start: nat, end: nat, gap: bool) {
    predicate Holds(offset: nat) {
      start <= offset < end
    }
  }

  /** The heuristics of the filter: at the line that starts there, stop, or drop it. */
  datatype Verdicts = Verdicts(stop: nat -> bool, drop: nat -> bool)

  /** The line is one whole line of the text, with something other than white space on it. */
  ghost predicate IsLine(text: Bytes, line: Kept) {
    line.start <= |text| && line.end == ByteText.ParagraphEnd(text, line.start) && HasText(text[line.start..line.end])
  }

  /** The lines retained from `pos` on. */
  function Retained(text: Bytes, pos: nat, pending: bool, wrote: bool, v: Verdicts): (lines: seq<Kept>)
    requires pos <= |text|
    ensures forall k :: 0 <= k < |lines| ==> pos <= lines[k].start && lines[k].start <= lines[k].end <= |text|
    decreases |text| - pos
  {
    var end := ByteText.ParagraphEnd(text, pos);
    var hasText := HasText(text[pos..end]);
    if hasText && v.stop(pos) then []
    else
      var keep := hasText && !v.drop(pos);
      var more := if end == |text| then []
                  else Retained(text, end + 1, !keep && (pending || (wrote && !hasText)), wrote || keep, v);
      if keep then [Kept(pos, end, pending)] + more else more
  }

  /** The newlines that make a blank line at the end of `out`. */
  function Gap(out: Bytes): (r: Bytes) {
    if out == [] then []
    else
      var one := if out[|out| - 1] != 10 then out + [10] else out;
      if |one| < 2 || one[|one| - 2] != 10 then one + [10] else one
  }

  function OpenLine(out: Bytes, gap: bool): (r: Bytes)
    ensures out <= r
  {
    if gap && out != [] then Gap(out) else out
  }

  /** Trailing newlines and spaces are cut off the finished text. */
  function CutTail(out: Bytes): (r: Bytes)
    ensures r <= out
    ensures r != [] ==> r[|r| - 1] != 10 && r[|r| - 1] != 32
    ensures forall k :: |r| <= k < |out| ==> out[k] == 10 || out[k] == 32
  {
    if out != [] && (out[|out| - 1] == 10 || out[|out| - 1] == 32) then CutTail(out[..|out| - 1]) else out
  }

  /** Whole lines of the text, in order. */
  ghost predicate GoodLines(text: Bytes, lines: seq<Kept>) {
    && (forall k :: 0 <= k < |lines| ==> IsLine(text, lines[k]))
    && forall j, k :: 0 <= j < k < |lines| ==> lines[j].end < lines[k].start
  }

  lemma NoLines(text: Bytes)
    ensures GoodLines(text, [])
  {
  }

  lemma {:induction false} RetainedAreGood(text: Bytes, pos: nat, pending: bool, wrote: bool, v: Verdicts)
    requires pos <= |text|
    ensures GoodLines(text, Retained(text, pos, pending, wrote, v))
    decreases |text| - pos
  {
    hide HasText, GoodLines;
    var end := ByteText.ParagraphEnd(text, pos);
    var hasText := HasText(text[pos..end]);
    NoLines(text);
    if !(hasText && v.stop(pos)) {
      var keep := hasText && !v.drop(pos);
      var more := [];
      if end < |text| {
        var pending', wrote' := !keep && (pending || (wrote && !hasText)), wrote || keep;
        RetainedAreGood(text, end + 1, pending', wrote', v);
        more := Retained(text, end + 1, pending', wrote', v);
      }
      if keep {
        FirstLineIsGood(text, Kept(pos, end, pending), more);
      }
    }
  }

  lemma FirstLineIsGood(text: Bytes, line: Kept, more: seq<Kept>)
    requires IsLine(text, line) && GoodLines(text, more)
    requires forall k :: 0 <= k < |more| ==> line.end < more[k].start
    ensures GoodLines(text, [line] + more)
  {
    hide HasText, IsLine;
  }

  /** One run of the filter: the header it writes first, the source text and the retained lines. */
  datatype Filter = Filter(header: Bytes, text: Bytes, lines: seq<Kept>) {

    predicate InText() {
      forall k :: 0 <= k < |lines| ==> lines[k].start <= lines[k].end <= |text|
    }

    function Line(k: nat): (line: Bytes)
      requires InText() && k < |lines|
    {
      text[lines[k].start..lines[k].end]
    }

    /** The text after the header and the first `m` retained lines. */
    function Assembled(m: nat): (r: Bytes)
      requires InText() && m <= |lines|
      decreases m, 0
    {
      if m == 0 then header else Opened(m - 1) + Line(m - 1) + [10]
    }

    /** The same text, up to where retained line `k` starts. */
    function Opened(k: nat): (r: Bytes)
      requires InText() && k < |lines|
      ensures Assembled(k) <= r
      decreases k, 1
    {
      OpenLine(Assembled(k), lines[k].gap)
    }

    function Place(k: nat): (at: nat)
      requires InText() && k < |lines|
    {
      |Opened(k)|
    }

    /** The text of the filtered page: all of the source when nothing was written. */
    function Result(): (r: Bytes)
      requires InText()
    {
      var cut := CutTail(Assembled(|lines|));
      if cut == [] then text else cut
    }

    /** The new offset of a source offset on one of the first `m` retained lines. */
    function NewOffset(offset: nat, m: nat): (at: Option<nat>)
      requires InText() && m <= |lines|
    {
      if m == 0 then None
      else if lines[m - 1].Holds(offset) then Some(Place(m - 1) + (offset - lines[m - 1].start))
      else NewOffset(offset, m - 1)
    }

    /** The first `n` links, those on retained line `k` only. */
    function LinksOn(links: seq<Link>, n: nat, k: nat): (r: seq<Link>)
      requires InText() && n <= |links| && k < |lines|
      ensures |r| == CountOn(links, n, k)
    {
      if n == 0 then []
      else
        var rest := LinksOn(links, n - 1, k);
        var link := links[n - 1];
        if lines[k].Holds(link.offset)
        then rest + [Mark(link.item, Place(k) + (link.offset - lines[k].start))] else rest
    }

    function CountOn(links: seq<Link>, n: nat, k: nat): (count: nat)
      requires n <= |links| && k < |lines|
    {
      if n == 0 then 0 else CountOn(links, n - 1, k) + if lines[k].Holds(links[n - 1].offset) then 1 else 0
    }

    /** The links of the first `m` retained lines. */
    function Links(links: seq<Link>, m: nat): (r: seq<Link>)
      requires InText() && m <= |lines|
      ensures |r| == CountBefore(links, m)
    {
      if m == 0 then [] else Links(links, m - 1) + LinksOn(links, |links|, m - 1)
    }

    function CountBefore(links: seq<Link>, m: nat): (count: nat)
      requires m <= |lines|
    {
      if m == 0 then 0 else CountBefore(links, m - 1) + CountOn(links, |links|, m - 1)
    }

    /** Where a control goes: a visible one by its text, a hidden one with a visible one of its form. */
    function Anchor(controls: seq<Control>, i: nat): (at: Option<nat>)
      requires InText() && i < |controls|
    {
      if controls[i].item.kind != Hidden then NewOffset(controls[i].offset, |lines|)
      else if controls[i].item.formIndex >= 0 then FormAnchor(controls, controls[i].item.formIndex, 0)
      else None
    }

    /** The new offset of the first visible control from `i` on that is retained and in the form. */
    function FormAnchor(controls: seq<Control>, form: int, i: nat): (at: Option<nat>)
      requires InText() && i <= |controls|
      decreases |controls| - i
    {
      if i == |controls| then None
      else if VisibleIn(controls[i], form) && NewOffset(controls[i].offset, |lines|).Some?
      then NewOffset(controls[i].offset, |lines|)
      else FormAnchor(controls, form, i + 1)
    }

    /** The first `n` controls, those that survive only. */
    function Controls(controls: seq<Control>, n: nat): (r: seq<Control>)
      requires InText() && n <= |controls|
      ensures |r| == CountControls(controls, n)
    {
      if n == 0 then []
      else
        var at := Anchor(controls, n - 1);
        Controls(controls, n - 1) + if at.Some? then [Mark(controls[n - 1].item, at.value)] else []
    }

    function CountControls(controls: seq<Control>, n: nat): (count: nat)
      requires InText() && n <= |controls|
    {
      if n == 0 then 0 else CountControls(controls, n - 1) + if Anchor(controls, n - 1).Some? then 1 else 0
    }
  }

  /** `append_reader_header`: title, meta line and a rule, each followed by a blank line. */
  function ReaderHeader(title: Bytes, metaLine: Bytes): (out: Bytes) {
    var a := if title != [] then title + [10, 10] else [];
    var b := if metaLine != [] then a + metaLine + [10, 10] else a;
    if b != [] then b + seq(72, _ => 45) + [10, 10] else b
  }

  /** The run of the filter that starts after the title line, if one was found. */
  function FilterOf(text: Bytes, title: Bytes, metaLine: Bytes, titleEnd: Option<nat>, v: Verdicts): (f: Filter)
    requires titleEnd.Some? ==> titleEnd.value <= |text|
    ensures f.InText()
  {
    var header := ReaderHeader(title, metaLine);
    var first := if title != [] && titleEnd.Some? then titleEnd.value else 0;
    Filter(header, text, Retained(text, first, false, header != [], v))
  }

  predicate VisibleIn(control: Control, form: int) {
    control.item.kind != Hidden && control.item.formIndex == form
  }

  // ----- where retained text ends up -----

  lemma AssembledStep(f: Filter, k: nat)
    requires f.InText() && k < |f.lines|
    ensures f.Assembled(k + 1) == f.Opened(k) + f.Line(k) + [10]
    ensures f.Assembled(k) <= f.Opened(k)
  {
  }

  lemma {:induction false} AssembledGrows(f: Filter, k: nat, m: nat)
    requires f.InText() && k <= m <= |f.lines|
    ensures f.Assembled(k) <= f.Assembled(m)
    decreases m
  {
    hide Filter.Assembled, Filter.Opened;
    if k < m {
      AssembledGrows(f, k, m - 1);
      AssembledStep(f, m - 1);
      var open := f.Opened(m - 1);
      assert open <= open + f.Line(m - 1) <= open + f.Line(m - 1) + [10];
    }
  }

  /** Every retained line stands unchanged in the assembled text. */
  lemma LineStands(f: Filter, k: nat, m: nat)
    requires f.InText() && k < m <= |f.lines|
    ensures f.Place(k) + |f.Line(k)| < |f.Assembled(m)|
    ensures f.Assembled(m)[f.Place(k)..f.Place(k) + |f.Line(k)|] == f.Line(k)
  {
    hide Filter.Assembled, Filter.Opened;
    AssembledGrows(f, k + 1, m);
    AssembledStep(f, k);
  }

  lemma {:induction false} CutTailOf(a: Bytes, b: Bytes)
    requires CutTail(b) != []
    ensures CutTail(a + b) == a + CutTail(b)
  {
    var n := |b| - 1;
    assert (a + b)[|a + b| - 1] == b[n];
    if b[n] == 10 || b[n] == 32 {
      assert (a + b)[..|a + b| - 1] == a + b[..n];
      CutTailOf(a, b[..n]);
    }
  }

  /** The finished text is the assembled text with the blanks after its last line cut off. */
  lemma ResultIs(f: Filter)
    requires GoodLines(f.text, f.lines) && f.InText() && f.lines != []
    ensures var last := |f.lines| - 1; f.Result() == f.Opened(last) + CutTail(f.Line(last))
  {
    var last := |f.lines| - 1;
    assert IsLine(f.text, f.lines[last]);
    CutTailOf(f.Opened(last), f.Line(last) + [10]);
    assert f.Assembled(|f.lines|) == f.Opened(last) + (f.Line(last) + [10]);
  }

  /** The text at `at` of the result reads as the source from `offset` to the end of its line. */
  ghost predicate SameToLineEnd(f: Filter, k: nat, offset: nat, at: nat)
    requires f.InText() && k < |f.lines| && f.lines[k].Holds(offset)
  {
    var n := f.lines[k].end - offset;
    at + n <= |f.Result()| && f.Result()[at..at + n] == f.text[offset..f.lines[k].end]
  }

  lemma EarlierLineFollows(f: Filter, k: nat, offset: nat)
    requires f.InText() && GoodLines(f.text, f.lines) && k + 1 < |f.lines| && f.lines[k].Holds(offset)
    ensures SameToLineEnd(f, k, offset, f.Place(k) + (offset - f.lines[k].start))
  {
    hide Filter.Assembled, Filter.Opened, CutTail, Filter.Result, HasText;
    var last := |f.lines| - 1;
    var place, start, end := f.Place(k), f.lines[k].start, f.lines[k].end;
    ResultIs(f);
    LineStands(f, k, last);
    AssembledStep(f, last);
    var a := f.Assembled(last);
  }

  lemma LineBytes(f: Filter, k: nat)
    requires f.InText() && GoodLines(f.text, f.lines) && k < |f.lines|
    ensures HasText(f.Line(k)) && 10 !in f.Line(k)
  {
    assert IsLine(f.text, f.lines[k]);
    ByteText.ParagraphHasNoNewline(f.text, f.lines[k].start);
    assert forall i :: 0 <= i < |f.Line(k)| ==> f.Line(k)[i] == f.text[f.lines[k].start + i];
  }

  /**
   A retained offset keeps the same text up to the end of its line, except that trailing
   spaces of the last retained line are lost.
   */
  lemma NewOffsetFollowsText(f: Filter, k: nat, offset: nat)
    requires f.InText() && GoodLines(f.text, f.lines) && k < |f.lines| && f.lines[k].Holds(offset)
    ensures SameToLineEnd(f, k, offset, f.Place(k) + (offset - f.lines[k].start))
            <==> k + 1 < |f.lines| || f.text[f.lines[k].end - 1] != 32
  {
    hide Filter.Assembled, Filter.Opened, Filter.Result, HasText, CutTail;
    if k + 1 < |f.lines| {
      EarlierLineFollows(f, k, offset);
    } else {
      var open, line, i := f.Opened(k), f.Line(k), offset - f.lines[k].start;
      LineBytes(f, k);
      ResultIs(f);
      assert line[i..] == f.text[offset..f.lines[k].end] && line[|line| - 1] == f.text[f.lines[k].end - 1];
    }
  }

  /** The new offset lies inside the filtered text unless only lost trailing spaces follow it. */
  lemma NewOffsetInsideText(f: Filter, offset: nat)
    requires f.InText() && GoodLines(f.text, f.lines) && f.lines != [] && f.lines[|f.lines| - 1].Holds(offset)
    ensures var last := |f.lines| - 1;
            f.Place(last) + (offset - f.lines[last].start) < |f.Result()|
            <==> exists i :: offset <= i < f.lines[last].end && f.text[i] != 32
  {
    hide Filter.Assembled, Filter.Opened, Filter.Result, HasText, CutTail;
    var last := |f.lines| - 1;
    var line, start := f.Line(last), f.lines[last].start;
    var cut := CutTail(line);
    LineBytes(f, last);
    ResultIs(f);
    assert forall i :: start <= i < f.lines[last].end ==> f.text[i] == line[i - start];
    if offset < start + |cut| {
      assert line[|cut| - 1] == cut[|cut| - 1] != 32;
      assert f.text[start + |cut| - 1] != 32;
    }
  }

  // ----- exactly which links and controls survive -----

  lemma {:induction false} NewOffsetIs(f: Filter, offset: nat, k: nat, m: nat)
    requires f.InText() && GoodLines(f.text, f.lines) && k < m <= |f.lines| && f.lines[k].Holds(offset)
    ensures f.NewOffset(offset, m) == Some(f.Place(k) + (offset - f.lines[k].start))
    decreases m
  {
    hide Filter.Assembled, Filter.Opened, IsLine;
    if k < m - 1 {
      assert f.lines[k].end < f.lines[m - 1].start;
      NewOffsetIs(f, offset, k, m - 1);
    }
  }

  lemma {:induction false} NewOffsetNone(f: Filter, offset: nat, m: nat)
    requires f.InText() && m <= |f.lines|
    ensures f.NewOffset(offset, m).Some? <==> exists k :: 0 <= k < m && f.lines[k].Holds(offset)
  {
    if m > 0 {
      NewOffsetNone(f, offset, m - 1);
    }
  }

  lemma {:induction false} LinkOnLine(f: Filter, links: seq<Link>, n: nat, i: nat, k: nat)
    requires f.InText() && i < n <= |links| && k < |f.lines| && f.lines[k].Holds(links[i].offset)
    ensures var at := f.CountOn(links, i, k);
            && at < |f.LinksOn(links, n, k)|
            && f.LinksOn(links, n, k)[at] == Mark(links[i].item, f.Place(k) + (links[i].offset - f.lines[k].start))
    decreases n
  {
    hide Filter.Assembled, Filter.Opened;
    if i < n - 1 {
      LinkOnLine(f, links, n - 1, i, k);
    }
  }

  /** The place of link `i`, on retained line `k`, among the filtered links. */
  function LinkPlace(f: Filter, links: seq<Link>, i: nat, k: nat): (at: nat)
    requires i <= |links| && k < |f.lines|
  {
    f.CountBefore(links, k) + f.CountOn(links, i, k)
  }

  /** A link on a retained line survives at its place, with its item, at its new offset. */
  lemma {:induction false} LinkSurvives(f: Filter, links: seq<Link>, i: nat, k: nat, m: nat)
    requires f.InText() && GoodLines(f.text, f.lines) && k < m <= |f.lines|
    requires i < |links| && f.lines[k].start <= links[i].offset < f.lines[k].end
    ensures var at := LinkPlace(f, links, i, k);
            && at < |f.Links(links, m)|
            && f.NewOffset(links[i].offset, |f.lines|).Some?
            && f.Links(links, m)[at] == Mark(links[i].item, f.NewOffset(links[i].offset, |f.lines|).value)
    decreases m
  {
    hide Filter.Assembled, Filter.Opened, IsLine;
    NewOffsetIs(f, links[i].offset, k, |f.lines|);
    if k < m - 1 {
      LinkSurvives(f, links, i, k, m - 1);
    } else {
      LinkOnLine(f, links, |links|, i, k);
    }
  }

  /** Nothing else is among the filtered links: each entry is one of the retained links. */
  lemma {:induction false} LinkCameFrom(f: Filter, links: seq<Link>, m: nat, at: nat) returns (i: nat, k: nat)
    requires f.InText() && m <= |f.lines| && at < |f.Links(links, m)|
    ensures k < m && i < |links| && f.lines[k].start <= links[i].offset < f.lines[k].end && at == LinkPlace(f, links, i, k)
    decreases m
  {
    hide Filter.Assembled, Filter.Opened;
    if at < f.CountBefore(links, m - 1) {
      i, k := LinkCameFrom(f, links, m - 1, at);
    } else {
      k := m - 1;
      i := CountCameFrom(f, links, |links|, k, at - f.CountBefore(links, k));
    }
  }

  lemma {:induction false} CountCameFrom(f: Filter, links: seq<Link>, n: nat, k: nat, at: nat) returns (i: nat)
    requires n <= |links| && k < |f.lines| && at < f.CountOn(links, n, k)
    ensures i < n && f.lines[k].Holds(links[i].offset) && at == f.CountOn(links, i, k)
    decreases n
  {
    if at == f.CountOn(links, n - 1, k) {
      i := n - 1;
    } else {
      i := CountCameFrom(f, links, n - 1, k, at);
    }
  }

  lemma {:induction false} CountOnGrows(f: Filter, links: seq<Link>, m: nat, n: nat, k: nat)
    requires m <= n <= |links| && k < |f.lines|
    ensures f.CountOn(links, m, k) <= f.CountOn(links, n, k)
    decreases n
  {
    if m < n {
      CountOnGrows(f, links, m, n - 1, k);
    }
  }

  lemma {:induction false} CountBeforeGrows(f: Filter, links: seq<Link>, j: nat, k: nat)
    requires j <= k <= |f.lines|
    ensures f.CountBefore(links, j) <= f.CountBefore(links, k)
    decreases k
  {
    if j < k {
      CountBeforeGrows(f, links, j, k - 1);
    }
  }

  /** Links that come in text order keep their order. */
  lemma LinksKeepOrder(f: Filter, links: seq<Link>, i: nat, j: nat, ki: nat, kj: nat)
    requires GoodLines(f.text, f.lines) && ki < |f.lines| && kj < |f.lines| && i < j < |links|
    requires f.lines[ki].Holds(links[i].offset) && f.lines[kj].Holds(links[j].offset)
    requires links[i].offset <= links[j].offset
    ensures LinkPlace(f, links, i, ki) < LinkPlace(f, links, j, kj)
  {
    hide IsLine;
    if ki == kj {
      CountOnGrows(f, links, i + 1, j, ki);
    } else {
      CountOnGrows(f, links, i + 1, |links|, ki);
      CountBeforeGrows(f, links, ki + 1, kj);
    }
  }

  lemma {:induction false} FormAnchorIff(f: Filter, controls: seq<Control>, form: int, i: nat)
    requires f.InText() && i <= |controls|
    ensures f.FormAnchor(controls, form, i).Some? <==>
            exists j :: i <= j < |controls| && VisibleIn(controls[j], form)
                        && f.NewOffset(controls[j].offset, |f.lines|).Some?
    decreases |controls| - i
  {
    if i < |controls| {
      FormAnchorIff(f, controls, form, i + 1);
    }
  }

  ghost predicate OnRetained(f: Filter, offset: nat) {
    exists k :: 0 <= k < |f.lines| && f.lines[k].start <= offset < f.lines[k].end
  }

  /**
   A visible control survives exactly when its offset is on a retained line, a hidden one
   exactly when it is in a form (index >= 0) with a visible control that survives.
   */
  lemma ControlSurvivesIff(f: Filter, controls: seq<Control>, i: nat)
    requires f.InText() && i < |controls|
    ensures var item := controls[i].item;
            f.Anchor(controls, i).Some? <==>
            if item.kind != Hidden then OnRetained(f, controls[i].offset)
            else item.formIndex >= 0
                 && exists j :: 0 <= j < |controls| && controls[j].item.kind != Hidden
                                && controls[j].item.formIndex == item.formIndex && OnRetained(f, controls[j].offset)
  {
    hide Filter.Assembled, Filter.Opened;
    forall j | 0 <= j < |controls|
      ensures OnRetained(f, controls[j].offset) <==> f.NewOffset(controls[j].offset, |f.lines|).Some? {
      NewOffsetNone(f, controls[j].offset, |f.lines|);
    }
    FormAnchorIff(f, controls, controls[i].item.formIndex, 0);
  }

  /** Surviving controls keep the source order: each follows the surviving controls before it. */
  lemma {:induction false} ControlSurvives(f: Filter, controls: seq<Control>, n: nat, i: nat)
    requires f.InText() && i < n <= |controls| && f.Anchor(controls, i).Some?
    ensures var at := f.CountControls(controls, i);
            && at < |f.Controls(controls, n)|
            && f.Controls(controls, n)[at] == Mark(controls[i].item, f.Anchor(controls, i).value)
    decreases n
  {
    hide Filter.Assembled, Filter.Opened, Filter.Anchor;
    if i < n - 1 {
      ControlSurvives(f, controls, n - 1, i);
    }
  }

  /** When no header is written and no line retained, the text stays but every link and control is lost. */
  lemma NothingRetained(f: Filter, links: seq<Link>, controls: seq<Control>)
    requires f.header == [] && f.lines == []
    ensures f.Result() == f.text && f.Links(links, 0) == [] && f.Controls(controls, |controls|) == []
  {
    assert CutTail(f.Assembled(0)) == [];
    NoControls(f, controls, |controls|);
  }

  /** With a line retained, some text is left after the cut. */
  lemma SomeLineStays(f: Filter)
    requires GoodLines(f.text, f.lines) && f.InText() && f.lines != []
    ensures CutTail(f.Assembled(|f.lines|)) != []
  {
    hide CutTail, Filter.Opened;
    var last := |f.lines| - 1;
    assert IsLine(f.text, f.lines[last]);
    var k :| 0 <= k < |f.Line(last)| && !ByteText.Space(f.Line(last)[k]);
    assert f.Assembled(|f.lines|)[|f.Opened(last)| + k] == f.Line(last)[k];
  }

  /** The source is put back exactly when there is neither title nor metadata and no line is retained. */
  lemma NothingRetainedIff(text: Bytes, title: Bytes, metaLine: Bytes, titleEnd: Option<nat>, v: Verdicts)
    requires titleEnd.Some? ==> titleEnd.value <= |text|
    ensures var f := FilterOf(text, title, metaLine, titleEnd, v);
            CutTail(f.Assembled(|f.lines|)) == [] <==> title == [] && metaLine == [] && f.lines == []
  {
    hide Retained, GoodLines, CutTail, ReaderHeader;
    var f := FilterOf(text, title, metaLine, titleEnd, v);
    var first := if title != [] && titleEnd.Some? then titleEnd.value else 0;
    RetainedAreGood(text, first, false, f.header != [], v);
    HeaderStays(title, metaLine);
    if f.lines != [] {
      SomeLineStays(f);
    }
  }

  lemma HeaderStays(title: Bytes, metaLine: Bytes)
    ensures var header := ReaderHeader(title, metaLine);
            (CutTail(header) == [] <==> title == [] && metaLine == []) && (header == [] <==> title == [] && metaLine == [])
  {
    var header := ReaderHeader(title, metaLine);
    if header != [] {
      assert header[|header| - 3] == 45;
    }
  }

  lemma {:induction false} NoControls(f: Filter, controls: seq<Control>, n: nat)
    requires f.lines == [] && n <= |controls|
    ensures f.Controls(controls, n) == []
  {
    if n > 0 {
      NoControls(f, controls, n - 1);
      FormAnchorIff(f, controls, controls[n - 1].item.formIndex, 0);
    }
  }

  /** A one-line page whose line is dropped keeps that line and loses the link on it. */
  lemma DroppedPageLosesLink()
    ensures var text: Bytes := [0x6d];
            var f := Filter([], text, Retained(text, 0, false, false, Verdicts(_ => false, _ => true)));
            f.InText() && f.Result() == text && f.Links([Mark(LinkItem([0x6d], [0x2f]), 0)], |f.lines|) == []
  {
    var text: Bytes := [0x6d];
    assert ByteText.ParagraphEnd(text, 0) == ByteText.ParagraphEnd(text, 1) == 1;
    assert Retained(text, 0, false, false, Verdicts(_ => false, _ => true)) == [];
    NothingRetained(Filter([], text, []), [Mark(LinkItem([0x6d], [0x2f]), 0)], []);
  }

  /** A page of one line, a letter and a space: the space is cut off, so a link on it falls behind the text. */
  lemma LastSpaceIsLost()
    ensures var text: Bytes := [0x61, 0x20];
            var f := Filter([], text, Retained(text, 0, false, false, Verdicts(_ => false, _ => false)));
            && f.InText() && f.Result() == [0x61] && f.NewOffset(0, |f.lines|) == Some(0) && f.NewOffset(1, |f.lines|) == Some(1)
            && |f.lines| == 1 && !SameToLineEnd(f, 0, 0, 0) && !SameToLineEnd(f, 0, 1, 1)
  {
    hide Retained, Filter.Assembled, Filter.Opened, CutTail, HasText;
    var text: Bytes := [0x61, 0x20];
    var v := Verdicts(_ => false, _ => false);
    OneLineStays();
    var f := Filter([], text, [Kept(0, 2, false)]);
    assert f.Line(0) == text;
    RetainedAreGood(text, 0, false, false, v);
    ResultIs(f);
    assert f.Opened(0) == [] by { OpenedIs(f); }
    assert CutTail(text) == [0x61] by { CutOfLetter(); }
    assert f.Result() == [0x61];
    NewOffsetFollowsText(f, 0, 0);
    NewOffsetFollowsText(f, 0, 1);
  }

  lemma OneLineStays()
    ensures Retained([0x61, 0x20], 0, false, false, Verdicts(_ => false, _ => false)) == [Kept(0, 2, false)]
  {
    var text: Bytes := [0x61, 0x20];
    assert ByteText.ParagraphEnd(text, 0) == ByteText.ParagraphEnd(text, 1) == ByteText.ParagraphEnd(text, 2) == 2;
    assert HasText(text[0..2]) by { assert !ByteText.Space(text[0..2][0]); }
  }

  lemma OpenedIs(f: Filter)
    requires f.InText() && f.lines != [] && f.header == []
    ensures f.Opened(0) == []
  {
  }

  lemma CutOfLetter()
    ensures CutTail([0x61, 0x20]) == [0x61]
  {
    assert [0x61, 0x20][..1] == [0x61];
  }

  // ----- which lines are retained -----

  /** A line starts here, when the filter begins at `pos`. */
  predicate IsStart(text: Bytes, pos: nat, q: nat) {
    pos <= q <= |text| && (q == pos || text[q - 1] == 10)
  }

  function LineFrom(text: Bytes, q: nat): (line: Bytes)
    requires q <= |text|
  {
    text[q..ByteText.ParagraphEnd(text, q)]
  }

  /** No line up to this one made the filter stop. */
  ghost predicate Goes(text: Bytes, pos: nat, q: nat, v: Verdicts) {
    forall r: nat :: IsStart(text, pos, r) && r <= q && HasText(LineFrom(text, r)) ==> !v.stop(r)
  }

  /** A line without text starts between two places. */
  ghost predicate BlankBetween(text: Bytes, pos: nat, from: int, to: nat) {
    exists r: nat :: from < r < to && IsStart(text, pos, r) && !HasText(LineFrom(text, r))
  }

  /** The first line, and all that start behind its newline. */
  lemma StartsAre(text: Bytes, pos: nat, q: nat)
    requires pos <= |text|
    ensures var end := ByteText.ParagraphEnd(text, pos);
            IsStart(text, pos, q) <==> q == pos || (end < |text| && IsStart(text, end + 1, q))
  {
    ByteText.ParagraphHasNoNewline(text, pos);
  }

  lemma GoesOn(text: Bytes, pos: nat, q: nat, v: Verdicts)
    requires pos <= |text|
    ensures var end := ByteText.ParagraphEnd(text, pos);
            Goes(text, pos, q, v) <==>
              (pos <= q && HasText(LineFrom(text, pos)) ==> !v.stop(pos)) && (end < |text| ==> Goes(text, end + 1, q, v))
  {
    hide HasText, IsStart;
    var next := ByteText.ParagraphEnd(text, pos) + 1;
    forall r: nat ensures IsStart(text, pos, r) <==> r == pos || (next <= |text| && IsStart(text, next, r)) {
      StartsAre(text, pos, r);
    }
    InsideText(text, pos);
  }

  lemma InsideText(text: Bytes, pos: nat)
    ensures forall r: nat :: IsStart(text, pos, r) ==> r <= |text|
  {
  }

  lemma BlankBetweenFrom(text: Bytes, pos: nat, from: int, to: nat)
    requires pos <= |text|
    ensures var end := ByteText.ParagraphEnd(text, pos);
            BlankBetween(text, pos, from, to) <==>
              (from < pos < to && !HasText(LineFrom(text, pos))) || (end < |text| && BlankBetween(text, end + 1, from, to))
  {
    hide HasText, IsStart;
    var next := ByteText.ParagraphEnd(text, pos) + 1;
    forall r: nat ensures IsStart(text, pos, r) <==> r == pos || (next <= |text| && IsStart(text, next, r)) {
      StartsAre(text, pos, r);
    }
    InsideText(text, pos);
    InsideText(text, next);
  }

  /** The lines behind the first one, and how the filter meets them. */
  function Rest(text: Bytes, pos: nat, pending: bool, wrote: bool, v: Verdicts): (lines: seq<Kept>)
    requires pos <= |text|
  {
    var end, hasText := ByteText.ParagraphEnd(text, pos), HasText(LineFrom(text, pos));
    var keep := hasText && !v.drop(pos);
    if end == |text| || (hasText && v.stop(pos)) then []
    else Retained(text, end + 1, !keep && (pending || (wrote && !hasText)), wrote || keep, v)
  }

  lemma RetainedHere(text: Bytes, pos: nat, pending: bool, wrote: bool, v: Verdicts)
    requires pos <= |text|
    ensures var keep := HasText(LineFrom(text, pos)) && !v.stop(pos) && !v.drop(pos);
            Retained(text, pos, pending, wrote, v)
            == (if keep then [Kept(pos, ByteText.ParagraphEnd(text, pos), pending)] else []) + Rest(text, pos, pending, wrote, v)
  {
    hide HasText;
    assert LineFrom(text, pos) == text[pos..ByteText.ParagraphEnd(text, pos)];
    var rest := Rest(text, pos, pending, wrote, v);
    assert [] + rest == rest;
  }

  ghost predicate StartsIn(lines: seq<Kept>, q: nat) {
    exists k :: 0 <= k < |lines| && lines[k].start == q
  }

  /** A line is retained if and only if it has text, is not dropped, and no line up to it makes the filter stop. */
  lemma {:induction false} RetainedIff(text: Bytes, pos: nat, pending: bool, wrote: bool, v: Verdicts, q: nat)
    requires pos <= |text|
    ensures StartsIn(Retained(text, pos, pending, wrote, v), q) <==>
              IsStart(text, pos, q) && HasText(LineFrom(text, q)) && !v.drop(q) && Goes(text, pos, q, v)
    decreases |text| - pos
  {
    hide HasText, Goes, IsStart, LineFrom, Retained, StartsIn;
    var end, hasText := ByteText.ParagraphEnd(text, pos), HasText(LineFrom(text, pos));
    var keep := hasText && !v.stop(pos) && !v.drop(pos);
    var more := Rest(text, pos, pending, wrote, v);
    RetainedHere(text, pos, pending, wrote, v);
    StartsAre(text, pos, q);
    GoesOn(text, pos, q, v);
    StartsBehind(text, pos, q);
    NoneStart(q);
    if end < |text| && !(hasText && v.stop(pos)) {
      StartsBehind(text, end + 1, q);
      RetainedIff(text, end + 1, !keep && (pending || (wrote && !hasText)), wrote || keep, v, q);
      if q <= end {
        GoesBefore(text, end + 1, q, v);
      }
    }
    if keep {
      assert Retained(text, pos, pending, wrote, v) == [Kept(pos, end, pending)] + more;
      StartsAdd(Kept(pos, end, pending), more, q);
    } else {
      assert Retained(text, pos, pending, wrote, v) == more;
    }
  }

  lemma NoneStart(q: nat)
    ensures !StartsIn([], q)
  {
  }

  lemma GoesBefore(text: Bytes, pos: nat, q: nat, v: Verdicts)
    requires q < pos
    ensures Goes(text, pos, q, v)
  {
  }

  lemma StartsBehind(text: Bytes, pos: nat, q: nat)
    ensures IsStart(text, pos, q) ==> pos <= q <= |text|
  {
  }

  lemma StartsAdd(head: Kept, more: seq<Kept>, q: nat)
    ensures StartsIn([head] + more, q) <==> head.start == q || StartsIn(more, q)
  {
    var lines := [head] + more;
    assert forall k :: 0 <= k < |more| ==> lines[k + 1] == more[k];
    assert lines[0] == head;
  }

  /**
   A blank line goes before a retained line if and only if there is one without text between it and the retained
   line before it, or, before the first one, anywhere, once a header is written.
   */
  lemma {:induction false} GapIff(text: Bytes, pos: nat, pending: bool, wrote: bool, v: Verdicts, k: nat)
    requires pos <= |text| && k < |Retained(text, pos, pending, wrote, v)|
    ensures var lines := Retained(text, pos, pending, wrote, v);
            lines[k].gap <==>
              if k == 0 then pending || (wrote && BlankBetween(text, pos, pos - 1, lines[0].start))
              else BlankBetween(text, pos, lines[k - 1].start, lines[k].start)
    decreases |text| - pos
  {
    hide HasText, BlankBetween, LineFrom, Retained;
    var end := ByteText.ParagraphEnd(text, pos);
    var lines, more := Retained(text, pos, pending, wrote, v), Rest(text, pos, pending, wrote, v);
    var hasText := HasText(LineFrom(text, pos));
    var keep := hasText && !v.stop(pos) && !v.drop(pos);
    RetainedHere(text, pos, pending, wrote, v);
    var from: int := if k == 0 then pos - 1 else lines[k - 1].start;
    BlankBetweenFrom(text, pos, from, lines[k].start);
    if keep && k == 0 {
      NoBlankBetween(text, end + 1, from, pos);
    } else {
      var n := if keep then k - 1 else k;
      assert lines[k] == more[n] && (n > 0 ==> lines[k - 1] == more[n - 1]);
      GapIff(text, end + 1, !keep && (pending || (wrote && !hasText)), wrote || keep, v, n);
      if n == 0 {
        SameBlanks(text, end + 1, from, lines[k].start);
      }
    }
  }

  lemma NoBlankBetween(text: Bytes, pos: nat, from: int, to: nat)
    requires to < pos
    ensures !BlankBetween(text, pos, from, to)
  {
  }

  lemma SameBlanks(text: Bytes, pos: nat, from: int, to: nat)
    requires from < pos
    ensures BlankBetween(text, pos, from, to) <==> BlankBetween(text, pos, pos - 1, to)
  {
  }

  /** A gap makes the text end in an empty line, with as few newlines as that takes. */
  lemma BlankLineIs(out: Bytes)
    requires out != []
    ensures var r := Gap(out);
            && out <= r && |r| >= 2 && r[|r| - 2..] == [10, 10]
            && (forall k :: |out| <= k < |r| ==> r[k] == 10)
            && (|r| > |out| ==> |r| == 2 || r[|r| - 3] != 10)
    ensures OpenLine(out, true) == Gap(out) && OpenLine(out, false) == out
  {
  }

  /** The header: title and metadata, each with an empty line after it, and a rule under them. */
  lemma ReaderHeaderIs(title: Bytes, metaLine: Bytes)
    ensures var rule := seq(72, _ => '-' as int) + [10, 10];
            && (title == metaLine == [] ==> ReaderHeader(title, metaLine) == [])
            && (title != [] && metaLine == [] ==> ReaderHeader(title, metaLine) == title + [10, 10] + rule)
            && (title == [] && metaLine != [] ==> ReaderHeader(title, metaLine) == metaLine + [10, 10] + rule)
            && (title != [] && metaLine != [] ==>
                  ReaderHeader(title, metaLine) == title + [10, 10] + metaLine + [10, 10] + rule)
  {
    assert seq(72, _ => '-' as int) == seq(72, _ => 45);
    assert [] + metaLine == metaLine;
  }

  /** The filter starts behind the line of the title, if it found one, and else at the beginning. */
  lemma FilterStarts(text: Bytes, title: Bytes, metaLine: Bytes, titleEnd: Option<nat>, v: Verdicts)
    requires titleEnd.Some? ==> titleEnd.value <= |text|
    ensures var f := FilterOf(text, title, metaLine, titleEnd, v);
            && f.text == text && f.header == ReaderHeader(title, metaLine)
            && f.lines == Retained(text, if title == [] || titleEnd.None? then 0 else titleEnd.value, false,
                                   title != [] || metaLine != [], v)
  {
  }

  /** The text the filter builds: the header, and every retained line with a newline after it, and a gap before it if it has one. */
  lemma AssembledIs(f: Filter, m: nat)
    requires f.InText() && m < |f.lines|
    ensures f.Assembled(0) == f.header
    ensures var before, line := f.Assembled(m), f.text[f.lines[m].start..f.lines[m].end];
            f.Assembled(m + 1) == (if f.lines[m].gap && before != [] then Gap(before) else before) + line + [10]
  {
  }

  /** A hidden control goes where the first visible one of its form that survives is. */
  lemma {:induction false} FormAnchorIsFirst(f: Filter, controls: seq<Control>, form: int, i: nat, j: nat)
    requires f.InText() && i <= j < |controls| && VisibleIn(controls[j], form) && f.NewOffset(controls[j].offset, |f.lines|).Some?
    requires forall n :: i <= n < j && VisibleIn(controls[n], form) ==> f.NewOffset(controls[n].offset, |f.lines|).None?
    ensures f.FormAnchor(controls, form, i) == f.NewOffset(controls[j].offset, |f.lines|)
    decreases j - i
  {
    if i < j {
      FormAnchorIsFirst(f, controls, form, i + 1, j);
    }
  }
}
