/**
 The line and page tables of the document reader, built by pushing and trimming
 lines, opening pages at form feeds and dropping empty ones at the end.
 */
module PageTable {
  import ByteText
  import opened Utf8
  import Reflow

  const MAX_PAGES: nat := 20000
  const NO_TEXT: Bytes := [91, 78, 111, 32, 114, 101, 97, 100, 97, 98, 108, 101, 32,
                           116, 101, 120, 116, 32, 102, 111, 117, 110, 100, 93]

  datatype Kind = Blank | PageBreak | Body | Heading | Toc

  datatype Line = Line(text: Bytes, kind: Kind, page: nat)

  datatype Page = Page(start: nat, end: nat)

  // ----- the shape of the tables -----

  /** Between two pages: a blank line of the page before, unless that page is empty, and a rule of the page after. */
  ghost predicate Gap(lines: seq<Line>, pages: seq<Page>, k: nat)
    requires k + 1 < |pages|
  {
    var e, s := pages[k].end, pages[k + 1].start;
    && pages[k].start <= e < s <= |lines|
    && if pages[k].start < e
       then s == e + 2 && lines[e] == Line([], Blank, k) && lines[e + 1] == Line([], PageBreak, k + 1)
       else s == e + 1 && lines[e] == Line([], PageBreak, k + 1)
  }

  /** A line inside the interval of page `k`; past the page limit a rule may stay in the last page. */
  predicate Inside(line: Line, k: nat, last: bool) {
    || (line.page == k && line.kind != PageBreak)
    || (last && k + 1 == MAX_PAGES && line.page == MAX_PAGES && line.kind == PageBreak)
  }

  ghost predicate Content(lines: seq<Line>, k: nat, start: nat, end: nat, last: bool) {
    start <= end <= |lines| && forall i :: start <= i < end ==> Inside(lines[i], k, last)
  }

  /** The tables while the last page is still open: its lines run to the end of the table. */
  ghost predicate Open(lines: seq<Line>, pages: seq<Page>) {
    && 1 <= |pages| <= MAX_PAGES && pages[0].start == 0
    && (forall k :: 0 <= k < |pages| - 1 ==> Gap(lines, pages, k))
    && (forall k :: 0 <= k < |pages| - 1 ==> Content(lines, k, pages[k].start, pages[k].end, false))
    && Content(lines, |pages| - 1, pages[|pages| - 1].start, |lines|, true)
  }

  ghost predicate Finished(lines: seq<Line>, pages: seq<Page>) {
    Open(lines, pages) && pages[|pages| - 1].end == |lines|
  }

  lemma EarlierStays(lines: seq<Line>, more: seq<Line>, pages: seq<Page>)
    requires Open(lines, pages) && |lines| <= |more| && more[..|lines|] == lines
    ensures forall k :: 0 <= k < |pages| - 1 ==>
              Gap(more, pages, k) && Content(more, k, pages[k].start, pages[k].end, false)
  {
    forall k | 0 <= k < |pages| - 1
      ensures Gap(more, pages, k) && Content(more, k, pages[k].start, pages[k].end, false) {
      assert Gap(lines, pages, k) && Content(lines, k, pages[k].start, pages[k].end, false);
      assert forall i :: 0 <= i < |lines| ==> more[i] == lines[i];
    }
  }

  lemma LineAdded(lines: seq<Line>, pages: seq<Page>, line: Line)
    requires Open(lines, pages) && Inside(line, |pages| - 1, true)
    ensures Open(lines + [line], pages)
  {
    hide Gap;
    EarlierStays(lines, lines + [line], pages);
  }

  /** What closes an interval or precedes it is never a blank line of the table's end. */
  lemma BlankIsInLastPage(lines: seq<Line>, pages: seq<Page>)
    requires Open(lines, pages) && lines != [] && lines[|lines| - 1].kind == Blank
    ensures pages[|pages| - 1].start < |lines|
  {
    if |pages| > 1 {
      assert Gap(lines, pages, |pages| - 2);
    }
  }

  lemma LastLineRemoved(lines: seq<Line>, pages: seq<Page>)
    requires Open(lines, pages) && pages[|pages| - 1].start < |lines|
    ensures Open(lines[..|lines| - 1], pages)
  {
    var less := lines[..|lines| - 1];
    forall k | 0 <= k < |pages| - 1
      ensures Gap(less, pages, k) && Content(less, k, pages[k].start, pages[k].end, false) {
      assert Gap(lines, pages, k) && Content(lines, k, pages[k].start, pages[k].end, false);
      StartsAscend(lines, pages, k + 1, |pages| - 1);
    }
  }

  lemma {:induction false} StartsAscend(lines: seq<Line>, pages: seq<Page>, j: nat, k: nat)
    requires Open(lines, pages) && j <= k < |pages|
    ensures pages[j].start <= pages[k].start
    decreases k
  {
    if j < k {
      StartsAscend(lines, pages, j, k - 1);
      assert Gap(lines, pages, k - 1);
    }
  }

  lemma PageEnded(lines: seq<Line>, pages: seq<Page>)
    requires Open(lines, pages)
    ensures Finished(lines, pages[|pages| - 1 := pages[|pages| - 1].(end := |lines|)])
  {
    var n := |pages| - 1;
    var ended := pages[n := pages[n].(end := |lines|)];
    forall k | 0 <= k < n
      ensures Gap(lines, ended, k) && Content(lines, k, ended[k].start, ended[k].end, false) {
      assert Gap(lines, pages, k) && Content(lines, k, pages[k].start, pages[k].end, false);
    }
  }

  /** The gap and the content that the page which was last leaves behind. */
  lemma LastPageCloses(lines: seq<Line>, pages: seq<Page>, more: seq<Line>, grown: seq<Page>)
    requires Finished(lines, pages) && |pages| < MAX_PAGES
    requires var n := |pages| - 1;
             && more == lines + (if pages[n].end > pages[n].start then [Line([], Blank, n)] else [])
                        + [Line([], PageBreak, n + 1)]
             && grown == pages + [Page(|more|, |more|)]
    ensures var n := |pages| - 1; Gap(more, grown, n) && Content(more, n, grown[n].start, grown[n].end, false)
  {
    var n := |pages| - 1;
    assert Content(lines, n, pages[n].start, |lines|, true);
    assert forall i :: pages[n].start <= i < |lines| ==> more[i] == lines[i];
  }

  lemma EarlierPageStays(lines: seq<Line>, pages: seq<Page>, more: seq<Line>, grown: seq<Page>, k: nat)
    requires Open(lines, pages) && lines <= more && pages <= grown && k < |pages| - 1
    ensures Gap(more, grown, k) && Content(more, k, grown[k].start, grown[k].end, false)
  {
    hide Inside;
    assert Gap(lines, pages, k) && Content(lines, k, pages[k].start, pages[k].end, false);
    assert forall i :: 0 <= i < |lines| ==> more[i] == lines[i];
  }

  /** A new page after a finished one, below the page limit. */
  lemma PageOpened(lines: seq<Line>, pages: seq<Page>, more: seq<Line>)
    requires Finished(lines, pages) && |pages| < MAX_PAGES
    requires var n := |pages| - 1;
             more == lines + (if pages[n].end > pages[n].start then [Line([], Blank, n)] else [])
                     + [Line([], PageBreak, n + 1)]
    ensures Open(more, pages + [Page(|more|, |more|)])
  {
    hide Inside, Content, Gap;
    var n := |pages| - 1;
    var grown := pages + [Page(|more|, |more|)];
    forall k | 0 <= k < n
      ensures Gap(more, grown, k) && Content(more, k, grown[k].start, grown[k].end, false) {
      EarlierPageStays(lines, pages, more, grown, k);
    }
    LastPageCloses(lines, pages, more, grown);
    assert Content(more, n + 1, |more|, |more|, true) by { NoContent(more, n + 1); }
  }

  lemma NoContent(lines: seq<Line>, k: nat)
    ensures Content(lines, k, |lines|, |lines|, true)
  {
  }

  /** Cutting the tables at the end of an earlier page leaves the pages before it as they were. */
  lemma CutKeepsEarlier(lines: seq<Line>, pages: seq<Page>, n: nat, k: nat)
    requires Open(lines, pages) && k < n < |pages| - 1 && pages[n].end <= |lines|
    ensures var less, fewer := lines[..pages[n].end], pages[..n + 1];
            Gap(less, fewer, k) && Content(less, k, fewer[k].start, fewer[k].end, false)
  {
    assert Gap(lines, pages, k) && Gap(lines, pages, n) && Content(lines, k, pages[k].start, pages[k].end, false);
    StartsAscend(lines, pages, k + 1, n);
  }

  lemma CutEndsPage(lines: seq<Line>, pages: seq<Page>, n: nat)
    requires Open(lines, pages) && n < |pages| - 1
    ensures pages[n].end <= |lines| && Content(lines[..pages[n].end], n, pages[n].start, pages[n].end, true)
  {
    assert Gap(lines, pages, n) && Content(lines, n, pages[n].start, pages[n].end, false);
  }

  /** An empty last page goes away with its rule, and the blank line that went before the rule. */
  lemma EmptyPageDropped(lines: seq<Line>, pages: seq<Page>)
    requires Finished(lines, pages) && |pages| > 1 && pages[|pages| - 1].start == |lines|
    ensures var n := |pages| - 2;
            var e := pages[n].end;
            && e < |lines| && Finished(lines[..e], pages[..n + 1])
            && lines[|lines| - 1].kind == PageBreak
            && (if pages[n].start < e then |lines| == e + 2 && lines[e].kind == Blank
                else |lines| == e + 1 && (e > 0 ==> lines[e - 1].kind == PageBreak))
  {
    hide Inside, Content;
    var n := |pages| - 2;
    var e := pages[n].end;
    assert Gap(lines, pages, n);
    CutEndsPage(lines, pages, n);
    var less, fewer := lines[..e], pages[..n + 1];
    forall k | 0 <= k < n
      ensures Gap(less, fewer, k) && Content(less, k, fewer[k].start, fewer[k].end, false) {
      CutKeepsEarlier(lines, pages, n, k);
    }
    if pages[n].start == e && e > 0 {
      assert n > 0;
      assert Gap(lines, pages, n - 1);
    }
  }

  // ----- what a finished table promises -----

  /** `page_for_line`. */
  function PageForLine(lines: seq<Line>, pages: seq<Page>, line: int): (page: nat) {
    var at: nat := if line < 0 then 0 else line;
    if |pages| == 0 then 0
    else if at >= |lines| then |pages| - 1
    else if lines[at].page >= |pages| then |pages| - 1
    else lines[at].page
  }

  /** Page intervals are in order and disjoint, from the first line to the last. */
  lemma IntervalsInOrder(lines: seq<Line>, pages: seq<Page>, j: nat, k: nat)
    requires Finished(lines, pages) && j < k < |pages|
    ensures pages[0].start == 0 && pages[|pages| - 1].end == |lines|
    ensures pages[j].start <= pages[j].end < pages[k].start <= pages[k].end
  {
    assert Gap(lines, pages, j);
    StartsAscend(lines, pages, j + 1, k);
    if k < |pages| - 1 {
      assert Gap(lines, pages, k);
    }
  }

  /** Every line of a page's interval maps to that page. */
  lemma LinesMapToTheirPage(lines: seq<Line>, pages: seq<Page>, k: nat, line: nat)
    requires Finished(lines, pages) && k < |pages| && pages[k].start <= line < pages[k].end
    ensures line < |lines| && PageForLine(lines, pages, line) == k
  {
    if k < |pages| - 1 {
      assert Content(lines, k, pages[k].start, pages[k].end, false) && Gap(lines, pages, k);
    }
  }

  ghost predicate InInterval(pages: seq<Page>, k: nat, line: nat) {
    k < |pages| && pages[k].start <= line < pages[k].end
  }

  ghost predicate InGap(pages: seq<Page>, k: nat, line: nat) {
    k + 1 < |pages| && pages[k].end <= line < pages[k + 1].start
  }

  /** Every line is in one page's interval or in the gap after one. */
  lemma {:induction false} LineIsSomewhere(lines: seq<Line>, pages: seq<Page>, line: nat, n: nat) returns (k: nat)
    requires Finished(lines, pages) && n < |pages| && line < pages[n].end
    ensures k <= n && (InInterval(pages, k, line) || InGap(pages, k, line))
    decreases n
  {
    if line >= pages[n].start {
      k := n;
    } else {
      assert n > 0 && Gap(lines, pages, n - 1);
      if line >= pages[n - 1].end {
        k := n - 1;
      } else {
        k := LineIsSomewhere(lines, pages, line, n - 1);
      }
    }
  }

  /**
   Lines between two intervals are page gaps: blank lines, which map to the page before, and rules,
   which map to the page after.
   */
  lemma GapLines(lines: seq<Line>, pages: seq<Page>, k: nat, line: nat)
    requires Finished(lines, pages) && InGap(pages, k, line)
    ensures line < |lines|
    ensures || (lines[line].kind == Blank && line == pages[k].end && PageForLine(lines, pages, line) == k)
            || (lines[line].kind == PageBreak && line == pages[k + 1].start - 1 && PageForLine(lines, pages, line) == k + 1)
  {
    assert Gap(lines, pages, k);
  }

  ghost predicate PagesAscend(lines: seq<Line>) {
    forall i, j :: 0 <= i < j < |lines| ==> lines[i].page <= lines[j].page
  }

  lemma {:induction false} PagesUpTo(lines: seq<Line>, pages: seq<Page>, i: nat, j: nat)
    requires Finished(lines, pages) && i < j < |lines| && lines[i].page < |pages|
    ensures lines[i].page <= lines[j].page
  {
    var a := LineIsSomewhere(lines, pages, i, |pages| - 1);
    var b := LineIsSomewhere(lines, pages, j, |pages| - 1);
    LineHasPage(lines, pages, a, i);
    LineHasPage(lines, pages, b, j);
    if b < a {
      IntervalsInOrder(lines, pages, b, a);
      StartsAscend(lines, pages, b + 1, a);
    } else if a < b {
      IntervalsInOrder(lines, pages, a, b);
    } else if InGap(pages, a, i) {
      assert Gap(lines, pages, a);
    }
  }

  lemma LineHasPage(lines: seq<Line>, pages: seq<Page>, k: nat, line: nat)
    requires Finished(lines, pages) && line < |lines|
    requires InInterval(pages, k, line) || InGap(pages, k, line)
    ensures lines[line].page < |pages| ==>
              (InInterval(pages, k, line) && lines[line].page == k)
              || (InGap(pages, k, line) && lines[line].page == (if line == pages[k].end && lines[line].kind == Blank then k else k + 1))
    ensures k <= lines[line].page
  {
    if InInterval(pages, k, line) {
      if k < |pages| - 1 {
        assert Content(lines, k, pages[k].start, pages[k].end, false) && Gap(lines, pages, k);
      }
    } else {
      assert Gap(lines, pages, k);
    }
  }

  /** Page numbers never decrease along the table unless a rule past the page limit is followed by more lines. */
  lemma PagesAscendIff(lines: seq<Line>, pages: seq<Page>)
    requires Finished(lines, pages)
    ensures PagesAscend(lines) <==> forall i :: 0 <= i < |lines| - 1 && lines[i].page >= |pages| ==>
                                      lines[i + 1].page >= |pages|
  {
    if forall i :: 0 <= i < |lines| - 1 && lines[i].page >= |pages| ==> lines[i + 1].page >= |pages| {
      forall i, j | 0 <= i < j < |lines| ensures lines[i].page <= lines[j].page {
        if lines[i].page < |pages| {
          PagesUpTo(lines, pages, i, j);
        } else {
          PastLimit(lines, pages, i, j);
        }
      }
    }
  }

  lemma {:induction false} PastLimit(lines: seq<Line>, pages: seq<Page>, i: nat, j: nat)
    requires Finished(lines, pages) && i < j < |lines| && lines[i].page >= |pages|
    requires forall i :: 0 <= i < |lines| - 1 && lines[i].page >= |pages| ==> lines[i + 1].page >= |pages|
    ensures lines[i].page <= lines[j].page
    decreases j
  {
    if i < j - 1 {
      PastLimit(lines, pages, i, j - 1);
    }
    NumberPastLimit(lines, pages, i);
    NumberPastLimit(lines, pages, j);
    assert lines[j - 1].page >= |pages|;
  }

  lemma NumberPastLimit(lines: seq<Line>, pages: seq<Page>, i: nat)
    requires Finished(lines, pages) && i < |lines|
    ensures lines[i].page >= |pages| ==> lines[i].page == MAX_PAGES
  {
    var k := LineIsSomewhere(lines, pages, i, |pages| - 1);
    if InGap(pages, k, i) {
      assert Gap(lines, pages, k);
    } else if k < |pages| - 1 {
      assert Content(lines, k, pages[k].start, pages[k].end, false);
    }
  }

  /** Below the page limit page numbers never decrease along the table. */
  lemma PagesAscendBelowLimit(lines: seq<Line>, pages: seq<Page>)
    requires Finished(lines, pages) && forall i :: 0 <= i < |lines| ==> lines[i].page < |pages|
    ensures PagesAscend(lines)
  {
    PagesAscendIff(lines, pages);
  }

  // ----- building the tables -----

  function FeedCount(feeds: seq<bool>): (n: nat) {
    if feeds == [] then 0 else FeedCount(feeds[..|feeds| - 1]) + if feeds[|feeds| - 1] then 1 else 0
  }

  /** What the reading loader takes text for when there is some; the heuristics that decide are not modelled. */
  datatype Class = Junk | ContentsTitle | Prose

  /**
   A piece of extracted text up to a newline or form feed; whether the paragraph before it is a heading, and
   whether the one that a form feed ends is.
   */
  datatype Segment = Segment(text: Bytes, looks: Class, heading: bool, endsContents: bool, feed: bool, feedHeading: bool)

  /** A line of the original layout: its text, whether it is a graphic artifact, and what ended it. */
  datatype LayoutSegment = LayoutSegment(text: Bytes, artifact: bool, newline: bool, feed: bool)

  predicate Letter(b: Byte) {
    65 <= b <= 90 || 97 <= b <= 122
  }

  /** `append_reading_segment`: joined at a hyphen or by a space, within the paragraph buffer. */
  function AppendSegment(paragraph: Bytes, segment: Bytes): (r: Bytes)
    requires |paragraph| < Reflow.MAX_PARAGRAPH
    ensures |r| < Reflow.MAX_PARAGRAPH
  {
    var have :=
      if paragraph != [] && paragraph[|paragraph| - 1] == 45 && segment != [] && Letter(segment[0])
      then paragraph[..|paragraph| - 1]
      else if paragraph != [] && |paragraph| + 1 < Reflow.MAX_PARAGRAPH then paragraph + [32]
      else paragraph;
    var room := Reflow.MAX_PARAGRAPH - |have| - 1;
    have + if |segment| > room then segment[..room] else segment
  }

  // ----- what each operation does to the tables -----

  datatype Table = Table(lines: seq<Line>, pages: seq<Page>) {

    function LastPage(): (page: nat) {
      if |pages| == 0 then 0 else |pages| - 1
    }

    function Push(text: Bytes, kind: Kind): (t: Table) {
      this.(lines := lines + [Line(text, kind, LastPage())])
    }

    /** A blank line, unless one or a rule is already there. */
    function PushBlank(): (t: Table) {
      if |lines| == 0 || lines[|lines| - 1].kind == Blank || lines[|lines| - 1].kind == PageBreak then this
      else Push([], Blank)
    }

    function PushAll(texts: seq<Bytes>, kind: Kind): (t: Table) {
      if texts == [] then this else PushAll(texts[..|texts| - 1], kind).Push(texts[|texts| - 1], kind)
    }

    function Trim(): (t: Table)
      decreases |lines|
    {
      if |lines| > 0 && lines[|lines| - 1].kind == Blank then this.(lines := lines[..|lines| - 1]).Trim() else this
    }

    /** The open page ends here. */
    function Finish(): (t: Table) {
      if |pages| == 0 then this else this.(pages := pages[LastPage() := pages[LastPage()].(end := |lines|)])
    }

    /** The gap at a form feed, the next page if there may be one, and its first blank line. */
    function GapAndPage(): (t: Table) {
      var blank := if |pages| > 0 && pages[LastPage()].end > pages[LastPage()].start
                   then [Line([], Blank, LastPage())] else [];
      var more := lines + blank + [Line([], PageBreak, |pages|)];
      Table(more, if |pages| < MAX_PAGES then pages + [Page(|more|, |more|)] else pages).Push([], Blank)
    }

    function Feed(): (t: Table) {
      Trim().Finish().GapAndPage()
    }

    function WithoutLast(kind: Kind): (r: seq<Line>) {
      if |lines| > 0 && lines[|lines| - 1].kind == kind then lines[..|lines| - 1] else lines
    }

    /** Empty pages at the end are dropped with their gaps. */
    function Drop(minimum: nat): (t: Table)
      decreases |pages|
    {
      if |pages| > minimum && |pages| > 0 && pages[LastPage()].start == pages[LastPage()].end then
        Table(Table(WithoutLast(PageBreak), pages).WithoutLast(Blank), pages[..|pages| - 1]).Drop(minimum)
      else this
    }

    /** The end of a document. */
    function End(pageTotal: nat): (t: Table) {
      var dropped := Trim().Finish().Drop(if pageTotal > 0 then pageTotal else 1);
      if |dropped.lines| == 0 then dropped.Push(NO_TEXT, Body).Finish() else dropped
    }

    /** A paragraph is flushed: reflowed, and followed by a blank line. */
    function Flush(paragraph: Bytes, heading: bool, width: nat, cells: nat -> nat): (t: Table) {
      var text := ByteText.Trimmed(paragraph);
      if text == [] then this
      else PushAll(Reflow.Reflowed(text, width, cells), if heading then Heading else Body).PushBlank()
    }
  }

  const NEW_TABLE: Table := Table([], [Page(0, 0)])

  /** The reading loader between two pieces of text. */
  datatype Reading = Reading(table: Table, paragraph: Bytes, contents: bool) {

    function Flushed(heading: bool, width: nat, cells: nat -> nat): (r: Reading) {
      Reading(table.Flush(paragraph, heading, width, cells), [], contents)
    }

    /** What a piece of text does, without the form feed that may end it. */
    function Take(s: Segment, width: nat, cells: nat -> nat): (r: Reading)
      requires |paragraph| < Reflow.MAX_PARAGRAPH
      ensures |r.paragraph| < Reflow.MAX_PARAGRAPH
    {
      var text := ByteText.Trimmed(s.text);
      if text == [] then
        var f := Flushed(s.heading, width, cells);
        if contents then f.(table := f.table.PushBlank()) else f
      else
        match s.looks
        case Junk => Flushed(s.heading, width, cells)
        case ContentsTitle =>
          var f := Flushed(s.heading, width, cells);
          Reading(f.table.PushAll(Reflow.Reflowed(text, width, cells), Heading).PushBlank(), [], true)
        case Prose =>
          if contents then
            var f := Flushed(s.heading, width, cells);
            Reading(f.table.PushAll(Reflow.Reflowed(text, width, cells), Toc), [], !s.endsContents)
          else
            var f := if |paragraph| + |text| + 3 >= Reflow.MAX_PARAGRAPH then Flushed(s.heading, width, cells) else this;
            f.(paragraph := AppendSegment(f.paragraph, text))
    }

    function Read(s: Segment, width: nat, cells: nat -> nat): (r: Reading)
      requires |paragraph| < Reflow.MAX_PARAGRAPH
      ensures |r.paragraph| < Reflow.MAX_PARAGRAPH
    {
      var taken := Take(s, width, cells);
      if s.feed then
        var f := taken.Flushed(s.feedHeading, width, cells);
        f.(table := f.table.Feed())
      else taken
    }
  }

  function ReadAll(segments: seq<Segment>, width: nat, cells: nat -> nat): (r: Reading)
    ensures |r.paragraph| < Reflow.MAX_PARAGRAPH
  {
    if segments == [] then Reading(NEW_TABLE, [], false)
    else ReadAll(segments[..|segments| - 1], width, cells).Read(segments[|segments| - 1], width, cells)
  }

  /** The layout loader between two lines. */
  datatype LayingOut = LayingOut(table: Table, blankStreak: nat) {

    function Take(s: LayoutSegment): (r: LayingOut) {
      if s.text != [] then
        if s.artifact
        then LayingOut(if blankStreak < 1 then table.Push([], Blank) else table, blankStreak + 1)
        else LayingOut(table.Push(s.text, Body), 0)
      else if s.newline && blankStreak < 2 then LayingOut(table.Push([], Blank), blankStreak + 1)
      else this
    }

    function Read(s: LayoutSegment): (r: LayingOut) {
      var taken := Take(s);
      if s.feed then LayingOut(taken.table.Feed(), 0) else taken
    }
  }

  function LayOutAll(segments: seq<LayoutSegment>): (r: LayingOut) {
    if segments == [] then LayingOut(NEW_TABLE, 0)
    else LayOutAll(segments[..|segments| - 1]).Read(segments[|segments| - 1])
  }

  function Feeds(segments: seq<Segment>): (feeds: seq<bool>) {
    seq(|segments|, i requires 0 <= i < |segments| => segments[i].feed)
  }

  function LayoutFeeds(segments: seq<LayoutSegment>): (feeds: seq<bool>) {
    seq(|segments|, i requires 0 <= i < |segments| => segments[i].feed)
  }

  lemma ReadOneMore(segments: seq<Segment>, i: nat, width: nat, cells: nat -> nat)
    requires i < |segments|
    ensures ReadAll(segments[..i + 1], width, cells) == ReadAll(segments[..i], width, cells).Read(segments[i], width, cells)
  {
    assert segments[..i + 1][..i] == segments[..i];
  }

  lemma LayOutOneMore(segments: seq<LayoutSegment>, i: nat)
    requires i < |segments|
    ensures LayOutAll(segments[..i + 1]) == LayOutAll(segments[..i]).Read(segments[i])
  {
    assert segments[..i + 1][..i] == segments[..i];
  }

  // ----- what the parts mean -----

  /** A line maps to the page it names, or to the last page when it names none or lies behind the table. */
  lemma PageForLineIs(lines: seq<Line>, pages: seq<Page>, line: int)
    requires pages != []
    ensures line < 0 ==> PageForLine(lines, pages, line) == PageForLine(lines, pages, 0)
    ensures 0 <= line < |lines| && lines[line].page < |pages| ==> PageForLine(lines, pages, line) == lines[line].page
    ensures 0 <= line < |lines| && lines[line].page >= |pages| ==> PageForLine(lines, pages, line) + 1 == |pages|
    ensures line >= |lines| ==> PageForLine(lines, pages, line) + 1 == |pages|
  {
  }

  lemma LetterIff(b: Byte)
    ensures var c := b as char; Letter(b) <==> 'a' <= c <= 'z' || 'A' <= c <= 'Z'
  {
  }

  /** What a paragraph is once a piece of text goes to its end: joined at a hyphen before a letter, or by a space. */
  function Continued(paragraph: Bytes, segment: Bytes): (r: Bytes) {
    if paragraph == [] then segment
    else if paragraph[|paragraph| - 1] == '-' as int && segment != [] && Letter(segment[0])
    then paragraph[..|paragraph| - 1] + segment
    else paragraph + [' ' as int] + segment
  }

  lemma AppendSegmentIs(paragraph: Bytes, segment: Bytes)
    requires |paragraph| < Reflow.MAX_PARAGRAPH
    ensures var all := Continued(paragraph, segment);
            AppendSegment(paragraph, segment) == if |all| < Reflow.MAX_PARAGRAPH then all else all[..Reflow.MAX_PARAGRAPH - 1]
  {
  }

  lemma {:induction false} PushAllIs(t: Table, texts: seq<Bytes>, kind: Kind)
    ensures var r := t.PushAll(texts, kind);
            && r.pages == t.pages && |r.lines| == |t.lines| + |texts| && r.lines[..|t.lines|] == t.lines
            && forall k :: 0 <= k < |texts| ==> r.lines[|t.lines| + k] == Line(texts[k], kind, if t.pages == [] then 0 else |t.pages| - 1)
    decreases |texts|
  {
    if texts != [] {
      PushAllIs(t, texts[..|texts| - 1], kind);
    }
  }

  /** A blank line is only added after text. */
  lemma PushBlankIs(t: Table)
    ensures var after := t.lines != [] && t.lines[|t.lines| - 1].kind in {Body, Heading, Toc};
            t.PushBlank() == if after then t.(lines := t.lines + [Line([], Blank, if t.pages == [] then 0 else |t.pages| - 1)]) else t
  {
  }

  /** All blank lines at the end go, and nothing else. */
  lemma {:induction false} TrimIs(t: Table)
    ensures var r := t.Trim();
            && r.pages == t.pages && |r.lines| <= |t.lines| && r.lines == t.lines[..|r.lines|]
            && (forall k :: |r.lines| <= k < |t.lines| ==> t.lines[k].kind == Blank)
            && (r.lines != [] ==> r.lines[|r.lines| - 1].kind != Blank)
    decreases |t.lines|
  {
    if |t.lines| > 0 && t.lines[|t.lines| - 1].kind == Blank {
      TrimIs(t.(lines := t.lines[..|t.lines| - 1]));
    }
  }

  /** A paragraph becomes its wrapped lines, headings or body, and a blank one after them; without text it leaves nothing. */
  lemma FlushIs(t: Table, paragraph: Bytes, heading: bool, width: nat, cells: nat -> nat)
    ensures var text := ByteText.Trimmed(paragraph);
            && (text == [] ==> t.Flush(paragraph, heading, width, cells) == t)
            && (text != [] && heading ==>
                  t.Flush(paragraph, heading, width, cells) == t.PushAll(Reflow.Reflowed(text, width, cells), Heading).PushBlank())
            && (text != [] && !heading ==>
                  t.Flush(paragraph, heading, width, cells) == t.PushAll(Reflow.Reflowed(text, width, cells), Body).PushBlank())
  {
  }

  /**
   What one piece of text does to the reading loader. Prose goes on with the paragraph while there is room for it;
   everything else ends the paragraph first. The title of the contents is a heading and a blank line, and what
   follows it are entries on lines of their own, until one that ends the contents.
   */
  lemma TakeMeans(r: Reading, s: Segment, width: nat, cells: nat -> nat)
    requires |r.paragraph| < Reflow.MAX_PARAGRAPH
    ensures var text := ByteText.Trimmed(s.text);
            var ended := r.table.Flush(r.paragraph, s.heading, width, cells);
            var lines := Reflow.Reflowed(text, width, cells);
            var t := r.Take(s, width, cells);
            && (text == [] ==> t.table == (if r.contents then ended.PushBlank() else ended) && t.contents == r.contents)
            && (text != [] && s.looks == Junk ==> t.table == ended && t.contents == r.contents)
            && (text != [] && s.looks == ContentsTitle ==> t.table == ended.PushAll(lines, Heading).PushBlank() && t.contents)
            && (text != [] && s.looks == Prose && r.contents ==>
                  t.table == ended.PushAll(lines, Toc) && (t.contents <==> !s.endsContents))
            && (text == [] || s.looks != Prose || r.contents ==> t.paragraph == [])
            && (text != [] && s.looks == Prose && !r.contents ==>
                  var room := |r.paragraph| + |text| + 3 < Reflow.MAX_PARAGRAPH;
                  && !t.contents && t.table == (if room then r.table else ended)
                  && t.paragraph == AppendSegment(if room then r.paragraph else [], text))
  {
  }

  /** A form feed ends the paragraph too, and then the page. */
  lemma ReadMeans(r: Reading, s: Segment, width: nat, cells: nat -> nat)
    requires |r.paragraph| < Reflow.MAX_PARAGRAPH
    ensures var t, u := r.Take(s, width, cells), r.Read(s, width, cells);
            && (!s.feed ==> u == t)
            && (s.feed ==> u.paragraph == [] && u.contents == t.contents
                           && u.table == t.table.Flush(t.paragraph, s.feedHeading, width, cells).Trim().Finish().GapAndPage())
  {
  }

  /**
   The gap behind a page: a blank line unless the page is empty, and a rule that names the next page; then, while
   there may be more, the next page begins. Its first line is blank.
   */
  lemma GapMeans(t: Table)
    requires t.pages != []
    ensures var r, n := t.GapAndPage(), |t.pages|;
            var last := t.pages[n - 1];
            var gap := (if last.end > last.start then [Line([], Blank, n - 1)] else []) + [Line([], PageBreak, n)];
            var begin := |t.lines| + |gap|;
            if n < 20000 then
              r.pages == t.pages + [Page(begin, begin)] && r.lines == t.lines + gap + [Line([], Blank, n)]
            else r.pages == t.pages && r.lines == t.lines + gap + [Line([], Blank, n - 1)]
  {
    var last := t.pages[|t.pages| - 1];
    var blank := if last.end > last.start then [Line([], Blank, |t.pages| - 1)] else [];
    assert t.lines + blank + [Line([], PageBreak, |t.pages|)] == t.lines + (blank + [Line([], PageBreak, |t.pages|)]);
  }

  /** Both loaders begin with one page and nothing on it, outside the contents and behind no blank line. */
  lemma LoadersStart(width: nat, cells: nat -> nat)
    ensures ReadAll([], width, cells) == Reading(Table([], [Page(0, 0)]), [], false)
    ensures LayOutAll([]) == LayingOut(Table([], [Page(0, 0)]), 0)
  {
  }

  /** What one line does to the loader that keeps the layout: one blank for graphics, two at most for empty lines. */
  lemma LayoutTakeMeans(r: LayingOut, s: LayoutSegment)
    ensures var t := r.Take(s);
            var page := if r.table.pages == [] then 0 else |r.table.pages| - 1;
            && t.table.pages == r.table.pages
            && (s.text != [] && !s.artifact ==> t.table.lines == r.table.lines + [Line(s.text, Body, page)] && t.blankStreak == 0)
            && (s.text != [] && s.artifact ==>
                  t.table.lines == r.table.lines + (if r.blankStreak == 0 then [Line([], Blank, page)] else [])
                  && t.blankStreak == r.blankStreak + 1)
            && (s.text == [] && s.newline && r.blankStreak <= 1 ==>
                  t.table.lines == r.table.lines + [Line([], Blank, page)] && t.blankStreak == r.blankStreak + 1)
            && (s.text == [] && (!s.newline || r.blankStreak >= 2) ==> t == r)
  {
  }

  lemma LayoutReadMeans(r: LayingOut, s: LayoutSegment)
    ensures var t, u := r.Take(s), r.Read(s);
            && (!s.feed ==> u == t)
            && (s.feed ==> u.table == t.table.Trim().Finish().GapAndPage() && u.blankStreak == 0)
  {
  }

  // ----- the loader that keeps the layout loses no text -----

  /** The lines with text on them. */
  function TextLines(lines: seq<Line>): (r: seq<Line>) {
    if lines == [] then []
    else TextLines(lines[..|lines| - 1]) + if lines[|lines| - 1].kind in {Body, Heading, Toc} then [lines[|lines| - 1]] else []
  }

  /** Each text of the document, on the page that the form feeds before it lead to. */
  function LaidTexts(segments: seq<LayoutSegment>): (r: seq<Line>) {
    if segments == [] then []
    else
      var s := segments[|segments| - 1];
      var feeds := FeedCount(LayoutFeeds(segments[..|segments| - 1]));
      LaidTexts(segments[..|segments| - 1])
      + if s.text != [] && !s.artifact then [Line(s.text, Body, if feeds < MAX_PAGES then feeds else MAX_PAGES - 1)] else []
  }

  lemma {:induction false} TextLinesAdd(a: seq<Line>, b: seq<Line>)
    ensures TextLines(a + b) == TextLines(a) + TextLines(b)
  {
    if b == [] {
      assert a + b == a;
    } else {
      assert (a + b)[..|a + b| - 1] == a + b[..|b| - 1];
      TextLinesAdd(a, b[..|b| - 1]);
    }
  }

  lemma {:induction false} NoTextLines(lines: seq<Line>)
    requires forall k :: 0 <= k < |lines| ==> lines[k].kind == Blank || lines[k].kind == PageBreak
    ensures TextLines(lines) == []
  {
    if lines != [] {
      NoTextLines(lines[..|lines| - 1]);
    }
  }

  /** Lines without text at the end do not count. */
  lemma SameTextLines(lines: seq<Line>, n: nat)
    requires n <= |lines| && forall k :: n <= k < |lines| ==> lines[k].kind == Blank || lines[k].kind == PageBreak
    ensures TextLines(lines[..n]) == TextLines(lines)
  {
    assert lines == lines[..n] + lines[n..];
    TextLinesAdd(lines[..n], lines[n..]);
    NoTextLines(lines[n..]);
  }

  /** A form feed leaves the text as it is and opens a page, while there may be more. */
  lemma FeedKeepsText(t: Table)
    requires t.pages != []
    ensures TextLines(t.Feed().lines) == TextLines(t.lines)
    ensures |t.Feed().pages| == if |t.pages| < MAX_PAGES then |t.pages| + 1 else |t.pages|
  {
    hide TextLines;
    TrimIs(t);
    var u := t.Trim().Finish();
    SameTextLines(t.lines, |u.lines|);
    var more := u.GapAndPage().lines;
    assert more[..|u.lines|] == u.lines;
    SameTextLines(more, |u.lines|);
  }

  lemma {:induction false} LayoutKeepsText(segments: seq<LayoutSegment>)
    ensures var t := LayOutAll(segments).table;
            var feeds := FeedCount(LayoutFeeds(segments));
            && TextLines(t.lines) == LaidTexts(segments)
            && |t.pages| == if feeds < MAX_PAGES then feeds + 1 else MAX_PAGES
  {
    hide TextLines, LayingOut.Take, Table.Feed;
    if segments != [] {
      var init, s := segments[..|segments| - 1], segments[|segments| - 1];
      LayoutKeepsText(init);
      assert LayoutFeeds(segments)[..|init|] == LayoutFeeds(init);
      var r := LayOutAll(init);
      LayoutTakeMeans(r, s);
      var t := r.Take(s).table;
      TakenText(r, s);
      if s.feed {
        FeedKeepsText(t);
      }
    } else {
      NoTextLines([]);
    }
  }

  lemma TakenText(r: LayingOut, s: LayoutSegment)
    requires r.table.pages != []
    ensures TextLines(r.Take(s).table.lines)
            == TextLines(r.table.lines) + if s.text != [] && !s.artifact then [Line(s.text, Body, |r.table.pages| - 1)] else []
  {
    LayoutTakeMeans(r, s);
    var t := r.Take(s).table.lines;
    assert t == r.table.lines + t[|r.table.lines|..];
    TextLinesAdd(r.table.lines, t[|r.table.lines|..]);
  }

  /** One round of dropping keeps the tables finished. */
  lemma DropStep(t: Table, minimum: nat)
    requires minimum >= 1 && |t.pages| > minimum && t.pages[|t.pages| - 1].start == t.pages[|t.pages| - 1].end
    requires Finished(t.lines, t.pages)
    ensures var less := Table(Table(t.WithoutLast(PageBreak), t.pages).WithoutLast(Blank), t.pages[..|t.pages| - 1]);
            && less.lines <= t.lines && Finished(less.lines, less.pages) && t.Drop(minimum) == less.Drop(minimum)
  {
    hide Gap, Content;
    EmptyPageDropped(t.lines, t.pages);
    var kept := t.lines[..t.pages[|t.pages| - 2].end];
    assert Table(t.WithoutLast(PageBreak), t.pages).WithoutLast(Blank) == kept;
  }

  lemma DropDone(t: Table, minimum: nat)
    requires t.pages != [] && !(|t.pages| > minimum && t.pages[|t.pages| - 1].start == t.pages[|t.pages| - 1].end)
    ensures t.Drop(minimum) == t
  {
  }

  lemma LastPageIs(lines: seq<Line>, pages: seq<Page>)
    requires Finished(lines, pages)
    ensures pages != [] && pages[|pages| - 1].start <= pages[|pages| - 1].end == |lines|
  {
    hide Gap, Inside;
  }

  /** Empty pages at the end go, down to so many, with all behind the page before them; nothing else does. */
  lemma {:induction false} DropIs(t: Table, minimum: nat)
    requires Finished(t.lines, t.pages) && minimum >= 1
    ensures var r := t.Drop(minimum);
            && r.pages != [] && r.pages <= t.pages && r.lines <= t.lines && Finished(r.lines, r.pages)
            && (forall p :: p in t.pages[|r.pages|..] ==> p.start == p.end) && (r != t ==> |r.pages| >= minimum)
            && (|r.pages| <= minimum || r.pages[|r.pages| - 1].start < r.pages[|r.pages| - 1].end)
            && |r.lines| == r.pages[|r.pages| - 1].end
    decreases |t.pages|
  {
    hide Open, Table.Drop, Table.WithoutLast;
    LastPageIs(t.lines, t.pages);
    if |t.pages| > minimum && t.pages[|t.pages| - 1].start == t.pages[|t.pages| - 1].end {
      DropStep(t, minimum);
      var less := Table(Table(t.WithoutLast(PageBreak), t.pages).WithoutLast(Blank), t.pages[..|t.pages| - 1]);
      DropIs(less, minimum);
      var n := |t.Drop(minimum).pages|;
      assert t.pages[n..] == less.pages[n..] + [t.pages[|t.pages| - 1]];
    } else {
      DropDone(t, minimum);
    }
  }

  lemma {:induction false} DropKeepsText(t: Table, minimum: nat)
    ensures TextLines(t.Drop(minimum).lines) == TextLines(t.lines)
    decreases |t.pages|
  {
    hide TextLines;
    if |t.pages| > minimum && |t.pages| > 0 && t.pages[t.LastPage()].start == t.pages[t.LastPage()].end {
      var a := t.WithoutLast(PageBreak);
      var b := Table(a, t.pages).WithoutLast(Blank);
      SameTextLines(t.lines, |a|);
      SameTextLines(a, |b|);
      DropKeepsText(Table(b, t.pages[..|t.pages| - 1]), minimum);
    }
  }

  /** The end of a document takes no text away, and puts a notice where nothing is left. */
  lemma EndKeepsText(t: Table, pageTotal: nat)
    ensures var r := t.End(pageTotal).lines;
            r != [] && (TextLines(r) == TextLines(t.lines) || (TextLines(t.lines) == [] && r == [Line(NO_TEXT, Body, r[0].page)]))
  {
    hide TextLines;
    TrimIs(t);
    SameTextLines(t.lines, |t.Trim().lines|);
    DropKeepsText(t.Trim().Finish(), if pageTotal > 0 then pageTotal else 1);
    NoTextLines([]);
  }
}
