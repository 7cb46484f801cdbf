/**
 Documents with more form feeds than pages: exactly when the page numbers of the
 lines still never decrease.
 */
module PageLimit {
  import ByteText
  import opened PageTable
  import Reflow
  import opened Utf8

  /** Something other than blank lines comes of a piece of text. */
  predicate Puts(s: Segment) {
    ByteText.Trimmed(s.text) != [] && s.looks != Junk
  }

  /** Something was put into the page after the last form feed. */
  predicate PutsSince(segments: seq<Segment>) {
    segments != []
    && var s := segments[|segments| - 1];
       !s.feed && (Puts(s) || PutsSince(segments[..|segments| - 1]))
  }

  predicate LayoutPuts(s: LayoutSegment) {
    s.text != [] && !s.artifact
  }

  predicate LayoutPutsSince(segments: seq<LayoutSegment>) {
    segments != []
    && var s := segments[|segments| - 1];
       !s.feed && (LayoutPuts(s) || LayoutPutsSince(segments[..|segments| - 1]))
  }

  /** Fewer form feeds than pages, or as many with nothing put after the last one. */
  predicate Within(feeds: nat, puts: bool) {
    feeds < MAX_PAGES || (feeds == MAX_PAGES && !puts)
  }

  // ----- the tables at the limit -----

  /** Trimming cannot reach past the start of the last page. */
  ghost predicate Anchored(t: Table) {
    && t.pages != []
    && var start := t.pages[|t.pages| - 1].start;
       start <= |t.lines| && (start > 0 ==> t.lines[start - 1].kind == PageBreak)
  }

  /** Just past the limit: one rule names a page that does not exist, and only blank lines follow it. */
  ghost predicate Edge(t: Table, r: nat)
    requires t.pages != []
  {
    && t.pages[|t.pages| - 1].start <= r < |t.lines| && t.lines[r].kind == PageBreak && t.lines[r].page >= MAX_PAGES
    && (forall i :: 0 <= i < |t.lines| && i != r ==> t.lines[i].page < MAX_PAGES)
    && forall i :: r < i < |t.lines| ==> t.lines[i].kind == Blank
  }

  /** Past the limit: a line of the last page follows such a rule, and is there to stay. */
  ghost predicate Broken(t: Table, r: nat, k: nat)
    requires t.pages != []
  {
    && t.pages[|t.pages| - 1].start <= r < k < |t.lines| && t.lines[r].page >= MAX_PAGES
    && t.lines[r + 1].page < MAX_PAGES && t.lines[k].kind != Blank
  }

  /** The tables after so many form feeds, with or without something put after the last one. */
  ghost predicate Phase(t: Table, feeds: nat, puts: bool) {
    && Anchored(t)
    && if feeds < MAX_PAGES then
         |t.pages| == feeds + 1 && forall i :: 0 <= i < |t.lines| ==> t.lines[i].page < MAX_PAGES
       else
         |t.pages| == MAX_PAGES
         && if feeds == MAX_PAGES && !puts then exists r :: Edge(t, r) else exists r, k :: Broken(t, r, k)
  }

  lemma StartPhase()
    ensures Phase(NEW_TABLE, 0, false)
  {
  }

  lemma PushPhase(t: Table, text: Bytes, kind: Kind, feeds: nat, puts: bool)
    requires Phase(t, feeds, puts) && kind != PageBreak
    ensures Phase(t.Push(text, kind), feeds, puts || kind != Blank)
  {
    var u := t.Push(text, kind);
    if feeds >= MAX_PAGES {
      if feeds == MAX_PAGES && !puts {
        var r :| Edge(t, r);
        if kind == Blank {
          assert Edge(u, r);
        } else {
          assert Broken(u, r, |t.lines|);
        }
      } else {
        var r, k :| Broken(t, r, k);
        assert Broken(u, r, k);
      }
    }
  }

  lemma PushBlankPhase(t: Table, feeds: nat, puts: bool)
    requires Phase(t, feeds, puts)
    ensures Phase(t.PushBlank(), feeds, puts)
  {
    hide Phase;
    PushPhase(t, [], Blank, feeds, puts);
  }

  lemma {:induction false} PushAllPhase(t: Table, texts: seq<Bytes>, kind: Kind, feeds: nat, puts: bool)
    requires Phase(t, feeds, puts) && kind != PageBreak && kind != Blank
    ensures Phase(t.PushAll(texts, kind), feeds, puts || texts != [])
    decreases |texts|
  {
    hide Phase;
    if texts != [] {
      PushAllPhase(t, texts[..|texts| - 1], kind, feeds, puts);
      PushPhase(t.PushAll(texts[..|texts| - 1], kind), texts[|texts| - 1], kind, feeds, puts || texts[..|texts| - 1] != []);
    }
  }

  lemma OneLessPhase(t: Table, feeds: nat, puts: bool)
    requires Phase(t, feeds, puts) && |t.lines| > 0 && t.lines[|t.lines| - 1].kind == Blank
    ensures Phase(t.(lines := t.lines[..|t.lines| - 1]), feeds, puts)
  {
    var u := t.(lines := t.lines[..|t.lines| - 1]);
    if feeds >= MAX_PAGES {
      if feeds == MAX_PAGES && !puts {
        var r :| Edge(t, r);
        assert Edge(u, r);
      } else {
        var r, k :| Broken(t, r, k);
        assert Broken(u, r, k);
      }
    }
  }

  lemma {:induction false} TrimPhase(t: Table, feeds: nat, puts: bool)
    requires Phase(t, feeds, puts)
    ensures Phase(t.Trim(), feeds, puts) && t.Trim().pages == t.pages
    ensures t.Trim().lines == [] || t.Trim().lines[|t.Trim().lines| - 1].kind != Blank
    decreases |t.lines|
  {
    hide Phase;
    if |t.lines| > 0 && t.lines[|t.lines| - 1].kind == Blank {
      OneLessPhase(t, feeds, puts);
      TrimPhase(t.(lines := t.lines[..|t.lines| - 1]), feeds, puts);
    }
  }

  lemma FinishPhase(t: Table, feeds: nat, puts: bool)
    requires Phase(t, feeds, puts)
    ensures Phase(t.Finish(), feeds, puts)
  {
    var u := t.Finish();
    if feeds >= MAX_PAGES {
      if feeds == MAX_PAGES && !puts {
        var r :| Edge(t, r);
        assert Edge(u, r);
      } else {
        var r, k :| Broken(t, r, k);
        assert Broken(u, r, k);
      }
    }
  }

  /** The gap after a trimmed and finished page: the lines before it stay, and a rule and a blank end the table. */
  lemma GapIs(t: Table) returns (rule: nat)
    requires Anchored(t) && t.pages[|t.pages| - 1].end == |t.lines|
    ensures var u := t.GapAndPage();
            && rule == |t.lines| + (if |t.lines| > t.pages[|t.pages| - 1].start then 1 else 0)
            && |u.lines| == rule + 2 && t.lines == u.lines[..|t.lines|]
            && u.lines[rule] == Line([], PageBreak, |t.pages|) && u.lines[rule + 1] == Line([], Blank, |u.pages| - 1)
            && (rule > |t.lines| ==> u.lines[|t.lines|] == Line([], Blank, |t.pages| - 1))
            && |u.pages| == (if |t.pages| < MAX_PAGES then |t.pages| + 1 else |t.pages|)
            && u.pages[|u.pages| - 1].start == if |t.pages| < MAX_PAGES then rule + 1 else t.pages[|t.pages| - 1].start
  {
    var u := t.GapAndPage();
    var last := |t.pages| - 1;
    var blank := if t.pages[last].end > t.pages[last].start then [Line([], Blank, last)] else [];
    rule := |t.lines| + |blank|;
    assert u.lines == t.lines + blank + [Line([], PageBreak, |t.pages|)] + [Line([], Blank, |u.pages| - 1)];
  }

  lemma GapPhase(t: Table, feeds: nat, puts: bool)
    requires Phase(t, feeds, puts) && t.pages[|t.pages| - 1].end == |t.lines|
    requires t.lines == [] || t.lines[|t.lines| - 1].kind != Blank
    ensures Phase(t.GapAndPage(), feeds + 1, false)
  {
    hide Table.GapAndPage;
    var u := t.GapAndPage();
    var rule := GapIs(t);
    assert forall i :: 0 <= i < |t.lines| ==> u.lines[i] == t.lines[i];
    if feeds + 1 == MAX_PAGES {
      assert Edge(u, rule);
    } else if feeds == MAX_PAGES && !puts {
      var r :| Edge(t, r);
      assert Broken(u, r, rule);
    } else if feeds >= MAX_PAGES {
      var r, k :| Broken(t, r, k);
      assert Broken(u, r, k);
    }
  }

  lemma FeedPhase(t: Table, feeds: nat, puts: bool)
    requires Phase(t, feeds, puts)
    ensures Phase(t.Feed(), feeds + 1, false)
  {
    hide Phase, Table.Trim, Table.GapAndPage;
    TrimPhase(t, feeds, puts);
    FinishPhase(t.Trim(), feeds, puts);
    assert t.Trim().pages != [] by { HasPage(t, feeds, puts); }
    GapPhase(t.Trim().Finish(), feeds, puts);
  }

  lemma HasPage(t: Table, feeds: nat, puts: bool)
    requires Phase(t, feeds, puts)
    ensures t.pages != []
  {
  }

  // ----- the end of a document -----

  /** Past the limit nothing is dropped at the end but blank lines. */
  lemma EndPhase(t: Table, pageTotal: nat, feeds: nat, puts: bool)
    requires Phase(t, feeds, puts) && feeds >= MAX_PAGES
    ensures Phase(t.End(pageTotal), feeds, puts)
    ensures var lines := t.End(pageTotal).lines; lines != [] && lines[|lines| - 1].kind != Blank
  {
    hide Table.Trim;
    TrimPhase(t, feeds, puts);
    FinishPhase(t.Trim(), feeds, puts);
    var u := t.Trim().Finish();
    assert u.pages[|u.pages| - 1].start < |u.lines| == u.pages[|u.pages| - 1].end;
    assert u.Drop(if pageTotal > 0 then pageTotal else 1) == u;
  }

  /** Past the limit page numbers ascend exactly when nothing follows the rule without a page. */
  lemma PhaseDecides(t: Table, feeds: nat, puts: bool)
    requires Phase(t, feeds, puts) && feeds >= MAX_PAGES && t.lines != [] && t.lines[|t.lines| - 1].kind != Blank
    requires feeds == MAX_PAGES && !puts ==> Finished(t.lines, t.pages)
    ensures PagesAscend(t.lines) <==> feeds == MAX_PAGES && !puts
  {
    if feeds == MAX_PAGES && !puts {
      EdgeAscends(t);
    } else {
      var r: nat, k: nat :| Broken(t, r, k);
      assert t.lines[r].page > t.lines[r + 1].page;
    }
  }

  lemma EdgeAscends(t: Table)
    requires Finished(t.lines, t.pages) && |t.pages| == MAX_PAGES && exists r :: Edge(t, r)
    requires t.lines != [] && t.lines[|t.lines| - 1].kind != Blank
    ensures PagesAscend(t.lines)
  {
    var r :| Edge(t, r);
    assert r == |t.lines| - 1;
    PagesAscendIff(t.lines, t.pages);
  }

  // ----- the reading loader -----

  lemma SomeTextHasWords(text: Bytes, width: nat, cells: nat -> nat)
    requires text != [] && !ByteText.Space(text[0])
    ensures Reflow.Reflowed(text, width, cells) != []
  {
    var copy := Reflow.Copied(text);
    assert copy != [] && copy[0] == text[0];
    var ws := Reflow.Words(copy);
    Reflow.GreedyDivides([], ws, width, cells);
    assert [] + ws == ws;
  }

  lemma FlushPhase(t: Table, paragraph: Bytes, heading: bool, width: nat, cells: nat -> nat, feeds: nat, puts: bool)
    requires Phase(t, feeds, puts)
    ensures Phase(t.Flush(paragraph, heading, width, cells), feeds, puts || ByteText.Trimmed(paragraph) != [])
  {
    hide Phase, ByteText.Trimmed, Reflow.Reflowed, Table.PushBlank, Table.PushAll;
    var text := ByteText.Trimmed(paragraph);
    if text != [] {
      WrapPhase(t, text, if heading then Heading else Body, width, cells, feeds, puts);
      PushBlankPhase(t.PushAll(Reflow.Reflowed(text, width, cells), if heading then Heading else Body), feeds, true);
    }
  }

  /** Wrapping some text puts something. */
  lemma WrapPhase(t: Table, text: Bytes, kind: Kind, width: nat, cells: nat -> nat, feeds: nat, puts: bool)
    requires Phase(t, feeds, puts) && kind != PageBreak && kind != Blank
    requires text != [] && !ByteText.Space(text[0])
    ensures Phase(t.PushAll(Reflow.Reflowed(text, width, cells), kind), feeds, true)
  {
    hide Phase, Reflow.Reflowed, Table.PushAll;
    SomeTextHasWords(text, width, cells);
    PushAllPhase(t, Reflow.Reflowed(text, width, cells), kind, feeds, puts);
  }

  /** Between pieces of text: what was put is in the tables or waits in the paragraph. */
  ghost predicate ReadingPhase(r: Reading, feeds: nat, puts: bool) {
    exists inTable: bool :: Phase(r.table, feeds, inTable) && (puts <==> inTable || ByteText.Trimmed(r.paragraph) != [])
  }

  lemma FlushedPhase(r: Reading, heading: bool, width: nat, cells: nat -> nat, feeds: nat, puts: bool)
    requires ReadingPhase(r, feeds, puts)
    ensures Phase(r.Flushed(heading, width, cells).table, feeds, puts)
  {
    hide Phase, ByteText.Trimmed, Table.Flush;
    var inTable: bool :| Phase(r.table, feeds, inTable) && (puts <==> inTable || ByteText.Trimmed(r.paragraph) != []);
    FlushPhase(r.table, r.paragraph, heading, width, cells, feeds, inTable);
  }

  lemma {:induction false} TrimRightKeeps(text: Bytes, i: nat)
    requires i < |text| && !ByteText.Space(text[i])
    ensures i < |ByteText.TrimRight(text)|
  {
    if ByteText.Space(text[|text| - 1]) {
      TrimRightKeeps(text[..|text| - 1], i);
    }
  }

  lemma {:induction false} TrimLeftKeeps(text: Bytes, i: nat)
    requires i < |text| && !ByteText.Space(text[i])
    ensures ByteText.TrimLeft(text) != []
  {
    if ByteText.Space(text[0]) {
      TrimLeftKeeps(text[1..], i - 1);
    }
  }

  lemma SomethingStays(text: Bytes, i: nat)
    requires i < |text| && !ByteText.Space(text[i])
    ensures ByteText.Trimmed(text) != []
  {
    TrimLeftKeeps(text, i);
    TrimRightKeeps(ByteText.TrimLeft(text), 0);
  }

  lemma AppendedIsText(paragraph: Bytes, text: Bytes)
    requires |paragraph| < Reflow.MAX_PARAGRAPH && text != [] && !ByteText.Space(text[0])
    requires paragraph == [] || |paragraph| + |text| + 3 < Reflow.MAX_PARAGRAPH
    ensures ByteText.Trimmed(AppendSegment(paragraph, text)) != []
  {
    hide ByteText.Trimmed;
    var joined := paragraph != [] && paragraph[|paragraph| - 1] == 45 && Letter(text[0]);
    var have := if joined then paragraph[..|paragraph| - 1]
                else if paragraph != [] && |paragraph| + 1 < Reflow.MAX_PARAGRAPH then paragraph + [32] else paragraph;
    var r := AppendSegment(paragraph, text);
    assert |have| < |r| && r[|have|] == text[0];
    SomethingStays(r, |have|);
  }

  lemma TakePhase(r: Reading, s: Segment, width: nat, cells: nat -> nat, feeds: nat, puts: bool)
    requires |r.paragraph| < Reflow.MAX_PARAGRAPH && ReadingPhase(r, feeds, puts)
    ensures ReadingPhase(r.Take(s, width, cells), feeds, puts || Puts(s))
  {
    hide Phase, ByteText.Trimmed, Table.Flush, Table.PushAll, Table.PushBlank, AppendSegment, Reflow.Reflowed, ReadingPhase;
    var text := ByteText.Trimmed(s.text);
    var f := r.Flushed(s.heading, width, cells);
    FlushedPhase(r, s.heading, width, cells, feeds, puts);
    InTable(f, feeds, puts);
    if text == [] {
      PushBlankPhase(f.table, feeds, puts);
      InTable(f.(table := f.table.PushBlank()), feeds, puts);
    } else if s.looks == ContentsTitle {
      WrapPhase(f.table, text, Heading, width, cells, feeds, puts);
      PushBlankPhase(f.table.PushAll(Reflow.Reflowed(text, width, cells), Heading), feeds, true);
      InTable(r.Take(s, width, cells), feeds, true);
    } else if s.looks == Prose && r.contents {
      WrapPhase(f.table, text, Toc, width, cells, feeds, puts);
      InTable(r.Take(s, width, cells), feeds, true);
    } else if s.looks == Prose {
      var g := if |r.paragraph| + |text| + 3 >= Reflow.MAX_PARAGRAPH then f else r;
      AppendedIsText(g.paragraph, text);
      ParagraphPuts(g, g.(paragraph := AppendSegment(g.paragraph, text)), feeds, puts);
    }
  }

  /** With an empty paragraph everything put is in the tables. */
  lemma InTable(r: Reading, feeds: nat, puts: bool)
    requires r.paragraph == [] && Phase(r.table, feeds, puts)
    ensures ReadingPhase(r, feeds, puts)
  {
    hide Phase;
    assert ByteText.Trimmed([]) == [];
  }

  lemma ParagraphPuts(r: Reading, t: Reading, feeds: nat, puts: bool)
    requires ReadingPhase(r, feeds, puts) && t.table == r.table && ByteText.Trimmed(t.paragraph) != []
    ensures ReadingPhase(t, feeds, true)
  {
    hide Phase, ByteText.Trimmed;
  }

  lemma {:induction false} ReadPhase(segments: seq<Segment>, width: nat, cells: nat -> nat)
    ensures ReadingPhase(ReadAll(segments, width, cells), FeedCount(Feeds(segments)), PutsSince(segments))
  {
    hide Phase, ReadingPhase, Reading.Take, Table.Flush, Table.Feed, Puts;
    if segments == [] {
      StartPhase();
      InTable(Reading(NEW_TABLE, [], false), 0, false);
    } else {
      var n := |segments| - 1;
      var init, s := segments[..n], segments[n];
      ReadPhase(init, width, cells);
      assert Feeds(segments)[..n] == Feeds(init);
      var feeds, puts := FeedCount(Feeds(init)), PutsSince(init);
      var r := ReadAll(init, width, cells);
      TakePhase(r, s, width, cells, feeds, puts);
      if s.feed {
        var taken := r.Take(s, width, cells);
        FlushedPhase(taken, s.feedHeading, width, cells, feeds, puts || Puts(s));
        FeedPhase(taken.Flushed(s.feedHeading, width, cells).table, feeds, puts || Puts(s));
        InTable(r.Read(s, width, cells), feeds + 1, false);
      }
    }
  }

  /** The tables that the reading loader leaves. */
  function ReadTable(segments: seq<Segment>, lastHeading: bool, width: nat, cells: nat -> nat, pageTotal: nat): (t: Table) {
    ReadAll(segments, width, cells).Flushed(lastHeading, width, cells).table.End(pageTotal)
  }

  /** Past the limit page numbers ascend if and only if there are as many form feeds as pages, and nothing after the last. */
  lemma ReadingAscendsIff(segments: seq<Segment>, lastHeading: bool, width: nat, cells: nat -> nat, pageTotal: nat)
    requires FeedCount(Feeds(segments)) >= MAX_PAGES
    requires var t := ReadTable(segments, lastHeading, width, cells, pageTotal);
             Within(FeedCount(Feeds(segments)), PutsSince(segments)) ==> Finished(t.lines, t.pages)
    ensures PagesAscend(ReadTable(segments, lastHeading, width, cells, pageTotal).lines)
            <==> Within(FeedCount(Feeds(segments)), PutsSince(segments))
  {
    hide Phase, ReadingPhase, Table.Flush, Table.End, Finished, PagesAscend;
    var feeds, puts := FeedCount(Feeds(segments)), PutsSince(segments);
    ReadPhase(segments, width, cells);
    var r := ReadAll(segments, width, cells);
    FlushedPhase(r, lastHeading, width, cells, feeds, puts);
    EndPhase(r.Flushed(lastHeading, width, cells).table, pageTotal, feeds, puts);
    PhaseDecides(ReadTable(segments, lastHeading, width, cells, pageTotal), feeds, puts);
  }

  // ----- the layout loader -----

  lemma LayoutTakePhase(r: LayingOut, s: LayoutSegment, feeds: nat, puts: bool)
    requires Phase(r.table, feeds, puts)
    ensures Phase(r.Take(s).table, feeds, puts || LayoutPuts(s))
  {
    hide Phase;
    PushPhase(r.table, [], Blank, feeds, puts);
    PushPhase(r.table, s.text, Body, feeds, puts);
  }

  lemma {:induction false} LayoutPhase(segments: seq<LayoutSegment>)
    ensures Phase(LayOutAll(segments).table, FeedCount(LayoutFeeds(segments)), LayoutPutsSince(segments))
  {
    hide Phase, LayingOut.Take, Table.Feed, LayoutPuts;
    if segments == [] {
      StartPhase();
    } else {
      var n := |segments| - 1;
      var init, s := segments[..n], segments[n];
      LayoutPhase(init);
      assert LayoutFeeds(segments)[..n] == LayoutFeeds(init);
      var feeds, puts := FeedCount(LayoutFeeds(init)), LayoutPutsSince(init);
      LayoutTakePhase(LayOutAll(init), s, feeds, puts);
      if s.feed {
        FeedPhase(LayOutAll(init).Take(s).table, feeds, puts || LayoutPuts(s));
      }
    }
  }

  /** The same condition for the loader that keeps the layout. */
  lemma LayoutAscendsIff(segments: seq<LayoutSegment>, pageTotal: nat)
    requires FeedCount(LayoutFeeds(segments)) >= MAX_PAGES
    requires var t := LayOutAll(segments).table.End(pageTotal);
             Within(FeedCount(LayoutFeeds(segments)), LayoutPutsSince(segments)) ==> Finished(t.lines, t.pages)
    ensures PagesAscend(LayOutAll(segments).table.End(pageTotal).lines)
            <==> Within(FeedCount(LayoutFeeds(segments)), LayoutPutsSince(segments))
  {
    hide Phase, Table.End, Finished, PagesAscend;
    var feeds, puts := FeedCount(LayoutFeeds(segments)), LayoutPutsSince(segments);
    LayoutPhase(segments);
    EndPhase(LayOutAll(segments).table, pageTotal, feeds, puts);
    PhaseDecides(LayOutAll(segments).table.End(pageTotal), feeds, puts);
  }

  // ----- documents with too many form feeds -----

  /** A document of nothing but form feeds, for either loader. */
  function OnlyFeeds(n: nat): (segments: seq<Segment>) {
    seq(n, _ => Segment([], Prose, false, false, true, false))
  }

  function OnlyLayoutFeeds(n: nat): (segments: seq<LayoutSegment>) {
    seq(n, _ => LayoutSegment([], false, false, true))
  }

  lemma {:induction false} CountOnlyFeeds(n: nat)
    ensures FeedCount(Feeds(OnlyFeeds(n))) == FeedCount(LayoutFeeds(OnlyLayoutFeeds(n))) == n
  {
    if n > 0 {
      CountOnlyFeeds(n - 1);
      assert Feeds(OnlyFeeds(n))[..n - 1] == Feeds(OnlyFeeds(n - 1));
      assert LayoutFeeds(OnlyLayoutFeeds(n))[..n - 1] == LayoutFeeds(OnlyLayoutFeeds(n - 1));
    }
  }

  /** One form feed more than there are pages: the page numbers decrease, even in a document without text. */
  lemma TooManyFeedsDescend(lastHeading: bool, width: nat, cells: nat -> nat, pageTotal: nat)
    ensures !PagesAscend(ReadTable(OnlyFeeds(MAX_PAGES + 1), lastHeading, width, cells, pageTotal).lines)
    ensures !PagesAscend(LayOutAll(OnlyLayoutFeeds(MAX_PAGES + 1)).table.End(pageTotal).lines)
  {
    hide PagesAscend, Table.End, ReadTable, LayOutAll;
    CountOnlyFeeds(MAX_PAGES + 1);
    ReadingAscendsIff(OnlyFeeds(MAX_PAGES + 1), lastHeading, width, cells, pageTotal);
    LayoutAscendsIff(OnlyLayoutFeeds(MAX_PAGES + 1), pageTotal);
  }
}
