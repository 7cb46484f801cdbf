/**
 The two loaders of the document reader, which build the line and page tables
 while they read the extracted text. Each method is proved against the tables of
 `PageTable`, and `PageLimit` decides whether the page numbers of the result
 ascend.
 */
module PageLoading {
  import ByteText
  import opened PageLimit
  import opened PageTable
  import opened Utf8
  import Reflow

  class Document {
    var lines: seq<Line>
    var pages: seq<Page>
    const pageTotal: nat
    const wrapWidth: nat
    const cells: nat -> nat

    constructor (pageTotal: nat, wrapWidth: nat, cells: nat -> nat)
      ensures Tables() == Table([], [])
      ensures this.pageTotal == pageTotal && this.wrapWidth == wrapWidth && this.cells == cells
    {
      lines, pages := [], [];
      this.pageTotal, this.wrapWidth, this.cells := pageTotal, wrapWidth, cells;
    }

    ghost function Tables(): (t: Table)
      reads this
    {
      Table(lines, pages)
    }

    /** The tables while loading; without a form feed past the limit every line's page exists. */
    ghost predicate Loading(feeds: nat)
      reads this
    {
      && Open(lines, pages)
      && (feeds < MAX_PAGES ==> |pages| == feeds + 1 && forall i :: 0 <= i < |lines| ==> lines[i].page < |pages|)
    }

    method BeginPage()
      modifies this`pages
      ensures pages == if |old(pages)| >= MAX_PAGES then old(pages) else old(pages) + [Page(|lines|, |lines|)]
    {
      if |pages| >= MAX_PAGES {
        return;
      }
      pages := pages + [Page(|lines|, |lines|)];
    }

    method FinishPage()
      modifies this`pages
      ensures Tables() == old(Tables()).Finish()
    {
      if |pages| == 0 {
        return;
      }
      var n := |pages| - 1;
      pages := pages[n := pages[n].(end := |lines|)];
    }

    method AddLineKind(text: Bytes, kind: Kind, page: int)
      modifies this`lines
      ensures lines == old(lines) + [Line(text, kind, if page >= 0 then page else 0)]
    {
      lines := lines + [Line(text, kind, if page >= 0 then page else 0)];
    }

    /** A line of the open page; both loaders open a page before anything else. */
    method AddLayoutLineKind(text: Bytes, kind: Kind, ghost feeds: nat)
      requires Loading(feeds) && kind != PageBreak
      modifies this`lines, this`pages
      ensures Loading(feeds) && Tables() == old(Tables()).Push(text, kind)
    {
      LineAdded(lines, pages, Line(text, kind, |pages| - 1));
      AddLineKind(text, kind, |pages| - 1);
    }

    method AddBlankLine(ghost feeds: nat)
      requires Loading(feeds)
      modifies this`lines, this`pages
      ensures Loading(feeds) && Tables() == old(Tables()).PushBlank()
    {
      if |lines| == 0 || lines[|lines| - 1].kind == Blank || lines[|lines| - 1].kind == PageBreak {
        return;
      }
      AddLayoutLineKind([], Blank, feeds);
    }

    /** Blank lines at the end of the open page go; the start of the page is never crossed. */
    method TrimTrailingBlankLines(ghost feeds: nat)
      requires Loading(feeds)
      modifies this`lines
      ensures Loading(feeds) && Tables() == old(Tables()).Trim()
      ensures pages[|pages| - 1].start <= |lines|
    {
      while |lines| > 0 && lines[|lines| - 1].kind == Blank
        invariant Loading(feeds) && Tables().Trim() == old(Tables()).Trim()
        decreases |lines|
      {
        BlankIsInLastPage(lines, pages);
        LastLineRemoved(lines, pages);
        lines := lines[..|lines| - 1];
      }
    }

    /** The gap between pages at a form feed, and the first line of the page after it. */
    method AddPageGap(ghost feeds: nat)
      requires Loading(feeds) && Finished(lines, pages)
      modifies this`lines, this`pages
      ensures Loading(feeds + 1) && Tables() == old(Tables()).GapAndPage()
    {
      hide Gap, Content;
      var previous, next := |pages| - 1, |pages|;
      ghost var linesWere, pagesWere := lines, pages;
      if pages[previous].end > pages[previous].start {
        LineAdded(lines, pages, Line([], Blank, previous));
        AddLineKind([], Blank, previous);
      }
      if |pages| == MAX_PAGES {
        LineAdded(lines, pages, Line([], PageBreak, next));
      }
      AddLineKind([], PageBreak, next);
      BeginPage();
      assert linesWere + [] == linesWere;
      if |pagesWere| < MAX_PAGES {
        PageOpened(linesWere, pagesWere, lines);
      }
      AddLayoutLineKind([], Blank, feeds + 1);
    }

    /** Reflowed text goes into the open page line by line. */
    method AddWrapped(text: Bytes, kind: Kind, ghost feeds: nat)
      requires Loading(feeds) && kind != PageBreak
      modifies this`lines, this`pages
      ensures Loading(feeds) && Tables() == old(Tables()).PushAll(Reflow.Reflowed(text, wrapWidth, cells), kind)
    {
      hide Open;
      var reflowed := Reflow.AddWrappedReadingText(text, wrapWidth, cells);
      for i := 0 to |reflowed|
        invariant Loading(feeds) && Tables() == old(Tables()).PushAll(reflowed[..i], kind)
      {
        assert reflowed[..i + 1][..i] == reflowed[..i];
        AddLayoutLineKind(reflowed[i], kind, feeds);
      }
      assert reflowed[..|reflowed|] == reflowed;
    }

    /** `flush_reading_block`; whether the paragraph is a heading is decided elsewhere. */
    method FlushBlock(paragraph: Bytes, heading: bool, ghost feeds: nat)
      requires Loading(feeds)
      modifies this`lines, this`pages
      ensures Loading(feeds) && Tables() == old(Tables()).Flush(paragraph, heading, wrapWidth, cells)
    {
      hide Open;
      var text := ByteText.Trimmed(paragraph);
      if text != [] {
        AddWrapped(text, if heading then Heading else Body, feeds);
        AddBlankLine(feeds);
      }
    }

    /** A form feed: the page ends and the next one begins. */
    method FeedPage(ghost feeds: nat)
      requires Loading(feeds)
      modifies this`lines, this`pages
      ensures Loading(feeds + 1) && Tables() == old(Tables()).Feed()
    {
      hide Gap, Content;
      TrimTrailingBlankLines(feeds);
      PageEnded(lines, pages);
      FinishPage();
      AddPageGap(feeds);
    }

    /** Empty pages at the end go, down to the number of pages the document says it has. */
    method DropTrailingEmptyPages()
      requires Finished(lines, pages)
      modifies this`lines, this`pages
      ensures Finished(lines, pages) && lines <= old(lines) && pages <= old(pages)
      ensures Tables() == old(Tables()).Drop(if pageTotal > 0 then pageTotal else 1)
    {
      hide Open, Table.Drop;
      var minimum := if pageTotal > 0 then pageTotal else 1;
      assert pages != [] by { TableHasPage(lines, pages); }
      while |pages| > minimum && pages[|pages| - 1].start == pages[|pages| - 1].end
        invariant pages != [] && Finished(lines, pages) && lines <= old(lines) && pages <= old(pages)
        invariant Tables().Drop(minimum) == old(Tables()).Drop(minimum)
        decreases |pages|
      {
        DropStep(Tables(), minimum);
        pages := pages[..|pages| - 1];
        if |lines| > 0 && lines[|lines| - 1].kind == PageBreak {
          lines := lines[..|lines| - 1];
        }
        if |lines| > 0 && lines[|lines| - 1].kind == Blank {
          lines := lines[..|lines| - 1];
        }
      }
      DropDone(Tables(), minimum);
    }

    /** The end of both loaders. */
    method EndDocument(ghost feeds: nat)
      requires Loading(feeds)
      modifies this`lines, this`pages
      ensures Finished(lines, pages) && lines != [] && Tables() == old(Tables()).End(pageTotal)
      ensures feeds < MAX_PAGES ==> forall i :: 0 <= i < |lines| ==> lines[i].page < |pages|
    {
      hide Gap, Content, Table.Trim, Table.Drop;
      TrimTrailingBlankLines(feeds);
      PageEnded(lines, pages);
      FinishPage();
      ghost var linesWere, pagesWere := lines, pages;
      DropTrailingEmptyPages();
      if feeds < MAX_PAGES {
        PagesExist(linesWere, pagesWere, lines, pages);
      }
      if |lines| == 0 {
        LineAdded(lines, pages, Line(NO_TEXT, Body, |pages| - 1));
        AddLineKind(NO_TEXT, Body, |pages| - 1);
        PageEnded(lines, pages);
        FinishPage();
      }
    }

    /** One piece of text of the reading loader, without the form feed that may end it. */
    method TakeSegment(segment: Segment, paragraph: Bytes, contentsMode: bool, ghost feeds: nat)
      returns (newParagraph: Bytes, newContents: bool)
      requires Loading(feeds) && |paragraph| < Reflow.MAX_PARAGRAPH
      modifies this`lines, this`pages
      ensures Loading(feeds)
      ensures Reading(Tables(), newParagraph, newContents)
              == Reading(old(Tables()), paragraph, contentsMode).Take(segment, wrapWidth, cells)
    {
      hide Open, Table.Flush, Table.PushAll, Table.PushBlank, AppendSegment, ByteText.Trimmed;
      newParagraph, newContents := [], contentsMode;
      var text := ByteText.Trimmed(segment.text);
      if text == [] {
        FlushBlock(paragraph, segment.heading, feeds);
        if contentsMode {
          AddBlankLine(feeds);
        }
        return;
      }
      match segment.looks {
        case Junk =>
          FlushBlock(paragraph, segment.heading, feeds);
        case ContentsTitle =>
          FlushBlock(paragraph, segment.heading, feeds);
          AddWrapped(text, Heading, feeds);
          AddBlankLine(feeds);
          newContents := true;
        case Prose =>
          if contentsMode {
            FlushBlock(paragraph, segment.heading, feeds);
            AddWrapped(text, Toc, feeds);
            if segment.endsContents {
              newContents := false;
            }
          } else {
            newParagraph := paragraph;
            if |paragraph| + |text| + 3 >= Reflow.MAX_PARAGRAPH {
              FlushBlock(paragraph, segment.heading, feeds);
              newParagraph := [];
            }
            newParagraph := AppendSegment(newParagraph, text);
          }
      }
    }

    /** `load_reading_text`: the tables of a reflowed document, for any pieces of text it is cut into. */
    method LoadReadingText(segments: seq<Segment>, lastHeading: bool)
      modifies this`lines, this`pages
      ensures Finished(lines, pages) && lines != []
      ensures var r := ReadAll(segments, wrapWidth, cells);
              Tables() == r.Flushed(lastHeading, wrapWidth, cells).table.End(pageTotal)
      ensures PagesAscend(lines) <==> Within(FeedCount(Feeds(segments)), PutsSince(segments))
    {
      hide Open, ReadAll, Table.Flush, Table.End, Table.Feed, Reading.Take;
      lines, pages := [], [];
      BeginPage();
      assert Loading(0) by { FirstPageOpens(); }
      ReadNothing(wrapWidth, cells);
      var paragraph: Bytes, contentsMode := [], false;
      ghost var feeds := 0;
      for i := 0 to |segments|
        invariant Loading(feeds) && feeds == FeedCount(Feeds(segments[..i]))
        invariant Reading(Tables(), paragraph, contentsMode) == ReadAll(segments[..i], wrapWidth, cells)
        invariant |paragraph| < Reflow.MAX_PARAGRAPH
      {
        var segment := segments[i];
        FeedsOneMore(segments, i);
        ReadOneMore(segments, i, wrapWidth, cells);
        paragraph, contentsMode := TakeSegment(segment, paragraph, contentsMode, feeds);
        if segment.feed {
          FlushBlock(paragraph, segment.feedHeading, feeds);
          paragraph := [];
          FeedPage(feeds);
          feeds := feeds + 1;
        }
      }
      assert segments[..|segments|] == segments;
      FlushBlock(paragraph, lastHeading, feeds);
      EndDocument(feeds);
      if feeds < MAX_PAGES {
        PagesAscendBelowLimit(lines, pages);
      } else {
        ReadingAscendsIff(segments, lastHeading, wrapWidth, cells, pageTotal);
      }
    }

    /** `load_layout_text`: the table holds the lines with text on them, in order and unaltered, or the notice. */
    method LoadLayoutText(segments: seq<LayoutSegment>)
      modifies this`lines, this`pages
      ensures Finished(lines, pages) && lines != []
      ensures Tables() == LayOutAll(segments).table.End(pageTotal)
      ensures PagesAscend(lines) <==> Within(FeedCount(LayoutFeeds(segments)), LayoutPutsSince(segments))
      ensures TextLines(lines) == LaidTexts(segments) || (LaidTexts(segments) == [] && lines == [Line(NO_TEXT, Body, lines[0].page)])
    {
      hide Open, LayOutAll, Table.End, Table.Feed, TextLines, LaidTexts;
      lines, pages := [], [];
      BeginPage();
      assert Loading(0) by { FirstPageOpens(); }
      LaidOutNothing();
      var blankStreak: nat := 0;
      ghost var feeds := 0;
      for i := 0 to |segments|
        invariant Loading(feeds) && feeds == FeedCount(LayoutFeeds(segments[..i]))
        invariant LayingOut(Tables(), blankStreak) == LayOutAll(segments[..i])
      {
        var segment := segments[i];
        LayoutFeedsOneMore(segments, i);
        LayOutOneMore(segments, i);
        if segment.text != [] {
          if segment.artifact {
            if blankStreak < 1 {
              AddLayoutLineKind([], Blank, feeds);
            }
            blankStreak := blankStreak + 1;
          } else {
            AddLayoutLineKind(segment.text, Body, feeds);
            blankStreak := 0;
          }
        } else if segment.newline && blankStreak < 2 {
          AddLayoutLineKind([], Blank, feeds);
          blankStreak := blankStreak + 1;
        }
        if segment.feed {
          FeedPage(feeds);
          feeds := feeds + 1;
          blankStreak := 0;
        }
      }
      assert segments[..|segments|] == segments;
      EndDocument(feeds);
      if feeds < MAX_PAGES {
        PagesAscendBelowLimit(lines, pages);
      } else {
        LayoutAscendsIff(segments, pageTotal);
      }
      LayoutKeepsText(segments);
      EndKeepsText(LayOutAll(segments).table, pageTotal);
    }

    lemma FirstPageOpens()
      requires lines == [] && pages == [Page(0, 0)]
      ensures Loading(0)
    {
    }
  }

  lemma TableHasPage(lines: seq<Line>, pages: seq<Page>)
    requires Open(lines, pages)
    ensures pages != []
  {
  }

  lemma ReadNothing(width: nat, cells: nat -> nat)
    ensures ReadAll([], width, cells) == Reading(NEW_TABLE, [], false)
  {
  }

  lemma LaidOutNothing()
    ensures LayOutAll([]) == LayingOut(NEW_TABLE, 0)
  {
  }

  lemma FeedsOneMore(segments: seq<Segment>, i: nat)
    requires i < |segments|
    ensures FeedCount(Feeds(segments[..i + 1])) == FeedCount(Feeds(segments[..i])) + if segments[i].feed then 1 else 0
  {
    assert Feeds(segments[..i + 1])[..i] == Feeds(segments[..i]);
  }

  lemma LayoutFeedsOneMore(segments: seq<LayoutSegment>, i: nat)
    requires i < |segments|
    ensures FeedCount(LayoutFeeds(segments[..i + 1]))
            == FeedCount(LayoutFeeds(segments[..i])) + if segments[i].feed then 1 else 0
  {
    assert LayoutFeeds(segments[..i + 1])[..i] == LayoutFeeds(segments[..i]);
  }

  /** Dropping empty pages leaves no line without its page. */
  lemma PagesExist(linesWere: seq<Line>, pagesWere: seq<Page>, lines: seq<Line>, pages: seq<Page>)
    requires Finished(lines, pages) && lines <= linesWere && pages <= pagesWere
    requires forall i :: 0 <= i < |linesWere| ==> linesWere[i].page < |pagesWere|
    requires |pagesWere| <= MAX_PAGES
    ensures forall i :: 0 <= i < |lines| ==> lines[i].page < |pages|
  {
    forall i | 0 <= i < |lines| ensures lines[i].page < |pages| {
      NumberPastLimit(lines, pages, i);
      assert lines[i] == linesWere[i];
    }
  }
}
