/**
 The page object of the browser: its text, the links and controls anchored in
 it, and the display lines of the last layout. Its methods edit all three in
 place; each is proved against the functions of `Layout` and `PageEdit` that say
 what the page is afterwards.
 */
module BrowserPage {
  import ByteText
  import opened Options
  import opened Utf8
  import opened PageData
  import opened Layout
  import opened PageEdit

  datatype DisplayLine = DisplayLine(span: Span, link: int)

  function Spans(display: seq<DisplayLine>): (spans: seq<Span>)
    ensures |spans| == |display| && forall k :: 0 <= k < |display| ==> spans[k] == display[k].span
  {
    seq(|display|, k requires 0 <= k < |display| => display[k].span)
  }

  /** `link` is the first link anchored on the span, or -1. */
  ghost predicate FirstLink(links: seq<Link>, span: Span, link: int) {
    if link < 0 then link == -1 && forall i :: 0 <= i < |links| ==> !span.Holds(links[i].offset)
    else link < |links| && span.Holds(links[link].offset)
         && forall i :: 0 <= i < link ==> !span.Holds(links[i].offset)
  }

  /** The display lines are those of the text at that width, each with its first link. */
  ghost predicate LaidOut(text: Bytes, links: seq<Link>, display: seq<DisplayLine>, width: nat, cells: nat -> nat) {
    && Spans(display) == DisplayLines(text, width, cells)
    && forall k :: 0 <= k < |display| ==> FirstLink(links, display[k].span, display[k].link)
  }

  ghost predicate GoodLinks(links: seq<Link>) {
    forall i :: 0 <= i < |links| ==> links[i].item.url != [] && links[i].item.caption != []
  }

  ghost predicate GoodControls(controls: seq<Control>) {
    forall i :: 0 <= i < |controls| ==> !controls[i].item.disabled && controls[i].item.caption != []
  }

  lemma LastBlankStep(text: Bytes, first: nat, cursor: nat, end: nat)
    requires first <= cursor < end <= |text|
    ensures var next := cursor + StepUsed(text, cursor, end);
            LastBlank(text, first, next) ==
            if Blank(text[cursor]) then cursor else LastBlank(text, first, cursor)
  {
    var used := StepUsed(text, cursor, end);
    LastBlankSkips(text, first, cursor, cursor + used, end);
  }

  lemma {:induction false} LastBlankSkips(text: Bytes, first: nat, cursor: nat, n: nat, end: nat)
    requires first <= cursor < end <= |text| && cursor < n <= cursor + StepUsed(text, cursor, end)
    ensures LastBlank(text, first, n) == if Blank(text[cursor]) then cursor else LastBlank(text, first, cursor)
    decreases n
  {
    if n > cursor + 1 {
      StepTails(text, cursor, end, n - 1);
      LastBlankSkips(text, first, cursor, n - 1, end);
    }
  }

  /** The loop that fills one display line. */
  method FillLine(text: Bytes, pos: nat, hardEnd: nat, width: nat, cells: nat -> nat)
    returns (cursor: nat, lastSpace: nat)
    requires pos <= hardEnd <= |text|
    ensures cursor == FitEnd(text, pos, pos, hardEnd, 0, width, cells)
    ensures lastSpace == LastBlank(text, pos, cursor)
  {
    hide StepAt;
    cursor, lastSpace := pos, pos;
    var columns: nat := 0;
    while cursor < hardEnd
      invariant pos <= cursor <= hardEnd
      invariant FitEnd(text, pos, cursor, hardEnd, columns, width, cells)
                == FitEnd(text, pos, pos, hardEnd, 0, width, cells)
      invariant lastSpace == LastBlank(text, pos, cursor)
    {
      var step := StepAt(text, cursor, hardEnd, columns, cells);
      if columns + step.cells > width && cursor > pos {
        break;
      }
      LastBlankStep(text, pos, cursor, hardEnd);
      UsedIsUsed(text, cursor, hardEnd, columns, cells);
      if text[cursor] == 32 || text[cursor] == 9 {
        lastSpace := cursor;
      }
      columns := columns + step.cells;
      cursor := cursor + step.used;
    }
  }

  /** The end of the display line that starts at `pos`. */
  method FindLineEnd(text: Bytes, pos: nat, width: nat, cells: nat -> nat) returns (lineEnd: nat)
    requires pos < |text| && text[pos] != 10
    ensures lineEnd == Layout.LineEnd(text, pos, width, cells)
  {
    var hardEnd := pos;
    while hardEnd < |text| && text[hardEnd] != 10
      invariant pos <= hardEnd <= |text|
      invariant ByteText.ParagraphEnd(text, hardEnd) == ByteText.ParagraphEnd(text, pos)
    {
      hardEnd := hardEnd + 1;
    }
    var cursor, lastSpace := FillLine(text, pos, hardEnd, width, cells);
    if cursor == hardEnd {
      lineEnd := hardEnd;
    } else {
      lineEnd := if lastSpace > pos then lastSpace else SafePrefix(text, pos, cursor);
    }
    ghost var break0 := lineEnd;
    while lineEnd > pos && text[lineEnd - 1] == 32
      invariant pos <= lineEnd <= break0
      invariant TrimSpaces(text, pos, lineEnd) == TrimSpaces(text, pos, break0)
    {
      lineEnd := lineEnd - 1;
    }
  }

  /** `utf8_safe_prefix`: back to the start of a character, but never to nothing. */
  function SafePrefix(text: Bytes, pos: nat, cursor: nat): (end: nat)
    requires pos <= cursor < |text|
  {
    SafeEnd(text, pos, cursor)
  }

  /** Exactly the marks outside `start..end` stay, moved down in place. */
  method Compact<T>(a: array<Mark<T>>, n: nat, start: nat, end: nat) returns (m: nat)
    requires n <= a.Length && start <= end
    modifies a
    ensures m <= n && a[..m] == Outside(old(a[..n]), n, start, end)
  {
    m := 0;
    ghost var was := a[..n];
    for i := 0 to n
      invariant m <= i
      invariant a[i..n] == was[i..]
      invariant a[..m] == Outside(was, i, start, end)
    {
      var mark := a[i];
      assert mark == was[i];
      if !(mark.offset >= start && mark.offset < end) {
        if mark.offset >= end {
          mark := Mark(mark.item, mark.offset - (end - start));
        }
        ghost var before, after := a[..m], a[i + 1..n];
        a[m] := mark;
        m := m + 1;
        assert a[..m] == before + [mark] && a[i + 1..n] == after;
      }
    }
  }

  /** `line_range_trim` says whether a line has more than white space. */
  method LineHasText(text: Bytes, start: nat, end: nat) returns (hasText: bool)
    requires start <= end <= |text|
    ensures hasText <==> HasText(text[start..end])
  {
    var line := text[start..end];
    var s, e := 0, |line|;
    while s < e && ByteText.Space(line[s])
      invariant 0 <= s <= e
      invariant forall k :: 0 <= k < s ==> ByteText.Space(line[k])
    {
      s := s + 1;
    }
    while e > s && ByteText.Space(line[e - 1])
      invariant s <= e <= |line|
      invariant s < e ==> !ByteText.Space(line[s])
      invariant s == e ==> forall k :: 0 <= k < s ==> ByteText.Space(line[k])
      invariant forall k :: e <= k < |line| ==> ByteText.Space(line[k])
    {
      e := e - 1;
    }
    hasText := e > s;
  }

  /** The blank line before a retained line. */
  method AppendGap(out: Bytes, pending: bool) returns (line: Bytes)
    ensures line == OpenLine(out, pending)
  {
    line := out;
    if pending && line != [] && line[|line| - 1] != 10 {
      line := line + [10];
    }
    if pending && line != [] && (|line| < 2 || line[|line| - 2] != 10) {
      line := line + [10];
    }
  }

  /** The links of one retained line, appended in order. */
  method AddLinksOfLine(links: array<Link>, n: nat, line: Kept, place: nat, acc: seq<Link>, ghost f: Filter, ghost k: nat)
    returns (r: seq<Link>)
    requires n <= links.Length && GoodLinks(links[..n])
    requires f.InText() && k < |f.lines| && f.lines[k] == line && f.Place(k) == place
    ensures r == acc + f.LinksOn(links[..n], n, k)
  {
    hide Filter.Assembled, Filter.Opened, Filter.Place;
    r := acc;
    ghost var all := links[..n];
    for i := 0 to n
      invariant r == acc + f.LinksOn(all, i, k)
    {
      var off := links[i].offset;
      assert links[i] == all[i];
      if off >= line.start && off < line.end && links[i].item.url != [] {
        r := r + [Mark(links[i].item, place + (off - line.start))];
      }
    }
  }

  /** What is known of the controls after the first `m` retained lines. */
  ghost predicate Marked(f: Filter, controls: seq<Control>, kept: seq<bool>, offsets: seq<nat>, m: nat)
    requires f.InText() && m <= |f.lines|
  {
    && |kept| == |offsets| == |controls|
    && forall i :: 0 <= i < |controls| ==> MarkedAt(f, controls[i], kept[i], offsets[i], m)
  }

  ghost predicate MarkedAt(f: Filter, control: Control, kept: bool, offset: nat, m: nat)
    requires f.InText() && m <= |f.lines|
  {
    && (kept <==> control.item.kind != Hidden && f.NewOffset(control.offset, m).Some?)
    && (kept ==> f.NewOffset(control.offset, m) == Some(offset))
  }

  lemma MarkedStep(f: Filter, control: Control, kept: bool, offset: nat, k: nat)
    requires f.InText() && k < |f.lines| && MarkedAt(f, control, kept, offset, k)
    ensures if control.item.kind != Hidden && f.lines[k].Holds(control.offset)
            then MarkedAt(f, control, true, f.Place(k) + (control.offset - f.lines[k].start), k + 1)
            else MarkedAt(f, control, kept, offset, k + 1)
  {
    hide Filter.Assembled, Filter.Opened, Filter.Place;
  }

  /** The visible controls of one retained line, noted with their new offsets. */
  method MarkControlsOfLine(controls: array<Control>, n: nat, line: Kept, place: nat,
                            kept: array<bool>, offsets: array<nat>, ghost f: Filter, ghost k: nat)
    requires n <= controls.Length && kept.Length == n && offsets.Length == n
    requires controls as object != kept && controls as object != offsets && kept as object != offsets
    requires f.InText() && k < |f.lines| && f.lines[k] == line && f.Place(k) == place
    requires Marked(f, controls[..n], kept[..], offsets[..], k)
    modifies kept, offsets
    ensures Marked(f, controls[..n], kept[..], offsets[..], k + 1)
  {
    hide Filter.Assembled, Filter.Opened, Filter.Place, Filter.NewOffset, MarkedAt;
    for i := 0 to n
      invariant forall j :: i <= j < n ==> kept[j] == old(kept[j]) && offsets[j] == old(offsets[j])
      invariant forall j :: 0 <= j < i ==> MarkedAt(f, controls[j], kept[j], offsets[j], k + 1)
    {
      var off := controls[i].offset;
      assert MarkedAt(f, controls[i], kept[i], offsets[i], k) by {
        assert controls[..n][i] == controls[i] && old(kept[..])[i] == kept[i] && old(offsets[..])[i] == offsets[i];
      }
      MarkedStep(f, controls[i], kept[i], offsets[i], k);
      if controls[i].item.kind != Hidden && off >= line.start && off < line.end {
        kept[i] := true;
        offsets[i] := place + (off - line.start);
      }
    }
  }

  lemma FormAnchorSkips(f: Filter, controls: seq<Control>, form: int, j: nat)
    requires f.InText() && j < |controls|
    requires !(VisibleIn(controls[j], form) && f.NewOffset(controls[j].offset, |f.lines|).Some?)
    ensures f.FormAnchor(controls, form, j) == f.FormAnchor(controls, form, j + 1)
  {
  }

  /** The final pass over the controls: those kept, and hidden ones of a kept form. */
  method SelectControls(controls: array<Control>, n: nat, kept: array<bool>, offsets: array<nat>, ghost f: Filter)
    returns (r: seq<Control>)
    requires n <= controls.Length && kept.Length == n && offsets.Length == n && GoodControls(controls[..n])
    requires f.InText() && Marked(f, controls[..n], kept[..], offsets[..], |f.lines|)
    ensures r == f.Controls(controls[..n], n)
  {
    hide Filter.Assembled, Filter.Opened, Filter.NewOffset;
    r := [];
    ghost var all := controls[..n];
    for i := 0 to n
      invariant r == f.Controls(all, i)
    {
      var keep, at := SurvivorOffset(controls, n, kept, offsets, i, f);
      if keep && !controls[i].item.disabled {
        assert controls[i] == all[i];
        r := r + [Mark(controls[i].item, at)];
      }
    }
  }

  method SurvivorOffset(controls: array<Control>, n: nat, kept: array<bool>, offsets: array<nat>, i: nat, ghost f: Filter)
    returns (keep: bool, at: nat)
    requires i < n <= controls.Length && kept.Length == n && offsets.Length == n && GoodControls(controls[..n])
    requires f.InText() && Marked(f, controls[..n], kept[..], offsets[..], |f.lines|)
    ensures f.Anchor(controls[..n], i) == if keep then Some(at) else None
    ensures !controls[i].item.disabled
  {
    hide Filter.Assembled, Filter.Opened, Filter.NewOffset, Filter.FormAnchor;
    ghost var all := controls[..n];
    assert controls[i] == all[i] && kept[i] == kept[..][i] && offsets[i] == offsets[..][i];
    assert MarkedAt(f, all[i], kept[i], offsets[i], |f.lines|);
    keep, at := kept[i], offsets[i];
    if !keep && controls[i].item.kind == Hidden && controls[i].item.formIndex >= 0 {
      keep, at := SiblingOffset(controls, n, kept, offsets, controls[i].item.formIndex, at, f);
    }
  }

  /** The first kept control of a form. */
  method SiblingOffset(controls: array<Control>, n: nat, kept: array<bool>, offsets: array<nat>, form: int, other: nat,
                       ghost f: Filter)
    returns (found: bool, at: nat)
    requires n <= controls.Length && kept.Length == n && offsets.Length == n
    requires f.InText() && Marked(f, controls[..n], kept[..], offsets[..], |f.lines|)
    ensures f.FormAnchor(controls[..n], form, 0) == if found then Some(at) else None
  {
    hide Filter.Assembled, Filter.Opened, Filter.NewOffset;
    ghost var all := controls[..n];
    for j := 0 to n
      invariant f.FormAnchor(all, form, j) == f.FormAnchor(all, form, 0)
    {
      assert controls[j] == all[j] && kept[j] == kept[..][j] && offsets[j] == offsets[..][j];
      assert MarkedAt(f, all[j], kept[j], offsets[j], |f.lines|);
      if kept[j] && controls[j].item.formIndex == form {
        return true, offsets[j];
      }
      FormAnchorSkips(f, all, form, j);
    }
    return false, other;
  }

  class Page {
    var text: Bytes
    var links: array<Link>
    var linkCount: nat
    var controls: array<Control>
    var controlCount: nat
    var display: seq<DisplayLine>
    var layoutWidth: int
    const cells: nat -> nat

    ghost predicate Valid()
      reads this, links, controls
    {
      && linkCount <= links.Length && controlCount <= controls.Length
      && GoodLinks(Links()) && GoodControls(Controls())
      && (layoutWidth >= 0 ==> layoutWidth >= MIN_WIDTH && LaidOut(text, Links(), display, layoutWidth, cells))
    }

    ghost function Links(): (s: seq<Link>)
      reads this, links
      requires linkCount <= links.Length
    {
      links[..linkCount]
    }

    ghost function Controls(): (s: seq<Control>)
      reads this, controls
      requires controlCount <= controls.Length
    {
      controls[..controlCount]
    }

    constructor (text: Bytes, pageLinks: seq<Link>, pageControls: seq<Control>, cells: nat -> nat)
      requires GoodLinks(pageLinks) && GoodControls(pageControls)
      ensures Valid() && fresh(links) && fresh(controls)
      ensures this.text == text && Links() == pageLinks && Controls() == pageControls && layoutWidth == -1
    {
      this.text, this.cells := text, cells;
      links := new Link[|pageLinks|](i requires 0 <= i < |pageLinks| => pageLinks[i]);
      controls := new Control[|pageControls|](i requires 0 <= i < |pageControls| => pageControls[i]);
      linkCount, controlCount := |pageLinks|, |pageControls|;
      display, layoutWidth := [], -1;
    }

    method AddDisplayLine(start: nat, len: nat) returns (link: int)
      requires linkCount <= links.Length
      modifies this`display
      ensures display == old(display) + [DisplayLine(Span(start, len), link)]
      ensures FirstLink(Links(), Span(start, len), link)
    {
      link := -1;
      for i := 0 to linkCount
        invariant link == -1
        invariant forall k :: 0 <= k < i ==> !Span(start, len).Holds(links[k].offset)
      {
        if links[i].offset >= start && links[i].offset < start + len {
          link := i;
          break;
        }
      }
      display := display + [DisplayLine(Span(start, len), link)];
    }

    /** Lay the page out for a width; a layout for that width is kept. */
    method PageLayout(requested: int)
      requires Valid()
      modifies this`display, this`layoutWidth
      ensures Valid()
      ensures layoutWidth == if requested < MIN_WIDTH then MIN_WIDTH else requested
      ensures old(layoutWidth) == layoutWidth ==> display == old(display)
    {
      hide DisplayLines, Layout.LineEnd, NextStart, Laying, LaidOut, GoodLinks, GoodControls;
      var width: nat := if requested < MIN_WIDTH then MIN_WIDTH else requested;
      if layoutWidth == width {
        return;
      }
      display := [];
      layoutWidth := width;
      LayingStarts(text, Links(), width, cells);
      ghost var all := DisplayLines(text, width, cells);
      if |text| == 0 {
        var link := AddDisplayLine(0, 0);
        LaidOneMore(all, Links(), display, Span(0, 0), link, []);
        LayingEnds(text, Links(), display, width, cells);
        return;
      }
      var pos := 0;
      while pos < |text|
        invariant 0 <= pos <= |text| && layoutWidth == width
        invariant Laying(all, Links(), display, Lay(text, pos, width, cells))
      {
        if text[pos] == 10 {
          var link := AddDisplayLine(pos, 0);
          LaidOneMore(all, Links(), display, Span(pos, 0), link, Lay(text, pos + 1, width, cells));
          pos := pos + 1;
        } else {
          var lineEnd := FindLineEnd(text, pos, width, cells);
          LineAdvances(text, pos, width, cells);
          var next := SkipToNextLine(lineEnd);
          var link := AddDisplayLine(pos, lineEnd - pos);
          LaidOneMore(all, Links(), display, Span(pos, lineEnd - pos), link, Lay(text, next, width, cells));
          pos := next;
        }
      }
      LayingEnds(text, Links(), display, width, cells);
    }

    method SkipToNextLine(lineEnd: nat) returns (pos: nat)
      requires lineEnd <= |text|
      ensures pos == NextStart(text, lineEnd)
    {
      pos := lineEnd;
      while pos < |text| && (text[pos] == 32 || text[pos] == 9)
        invariant lineEnd <= pos <= |text|
        invariant SkipBlanks(text, pos) == SkipBlanks(text, lineEnd)
      {
        pos := pos + 1;
      }
      if pos < |text| && text[pos] == 10 {
        pos := pos + 1;
      }
    }

    /** The display line that holds an offset, found by the first match. */
    method DisplayLineForOffset(offset: nat) returns (found: bool, line: nat)
      requires Valid() && layoutWidth >= 0 && Terminal(cells)
      ensures found <==> OnSomeLine(Spans(display), offset)
      ensures found ==> line < |display| && display[line].span.Holds(offset)
                        && forall k :: 0 <= k < |display| && display[k].span.Holds(offset) ==> k == line
      ensures offset < |text| && !Blank(text[offset]) && text[offset] != 10 ==> found
    {
      hide DisplayLines, AllGood, GoodLinks, GoodControls, Terminal, Chained;
      DisplayLinesAreGood(text, layoutWidth, cells);
      line := 0;
      while line < |display|
        invariant line <= |display|
        invariant forall k :: 0 <= k < line ==> !display[k].span.Holds(offset)
      {
        var span := display[line].span;
        if span.len != 0 && offset >= span.start && offset < span.start + span.len {
          assert Spans(display)[line].Holds(offset);
          LaterLinesMiss(Spans(display), |text|, offset, line);
          return true, line;
        }
        line := line + 1;
      }
      assert forall k :: 0 <= k < |display| ==> Spans(display)[k] == display[k].span;
      found := false;
    }

    /** Delete `start..end` from the text and keep links and controls on their bytes. */
    method RemoveTextRange(start: nat, end: nat)
      requires Valid() && links as object != controls as object
      modifies this, links, controls
      ensures Valid() && links == old(links) && controls == old(controls)
      ensures if start < end <= |old(text)| then
                && text == WithoutRange(old(text), start, end) && layoutWidth == -1
                && Links() == Outside(old(Links()), old(linkCount), start, end)
                && Controls() == Outside(old(Controls()), old(controlCount), start, end)
              else text == old(text) && Links() == old(Links()) && Controls() == old(Controls())
                   && display == old(display) && layoutWidth == old(layoutWidth)
    {
      if start >= end || end > |text| {
        return;
      }
      ghost var linksWere, controlsWere := Links(), Controls();
      text := text[..start] + text[end..];
      var newLinks := Compact(links, linkCount, start, end);
      assert controls[..controlCount] == controlsWere;
      OutsideStaysGood(linksWere, linkCount, start, end);
      linkCount := newLinks;
      assert Links() == Outside(linksWere, |linksWere|, start, end);
      ghost var linksAre := Links();
      var newControls := Compact(controls, controlCount, start, end);
      OutsideControlsStayGood(controlsWere, controlCount, start, end);
      controlCount := newControls;
      assert Links() == linksAre;
      display, layoutWidth := [], -1;
    }

    /** What the filter has produced after the first `m` retained lines. */
    ghost predicate Produced(f: Filter, m: nat, out: Bytes, newLinks: seq<Link>, kept: array<bool>, offsets: array<nat>)
      requires linkCount <= links.Length && controlCount <= controls.Length && f.InText() && m <= |f.lines|
      reads this, links, controls, kept, offsets
    {
      && kept.Length == controlCount && offsets.Length == controlCount
      && out == f.Assembled(m) && newLinks == f.Links(Links(), m)
      && Marked(f, Controls(), kept[..], offsets[..], m)
    }

    /** Append one retained line with its links and controls. */
    method KeepLine(line: Kept, out: Bytes, newLinks: seq<Link>, kept: array<bool>, offsets: array<nat>,
                    ghost f: Filter, ghost m: nat)
      returns (longer: Bytes, moreLinks: seq<Link>)
      requires Valid() && f.InText() && m < |f.lines| && f.lines[m] == line && f.text == text
      requires Produced(f, m, out, newLinks, kept, offsets)
      requires controls as object != kept && controls as object != offsets && kept as object != offsets
      requires links as object != kept && links as object != offsets
      modifies kept, offsets
      ensures Produced(f, m + 1, longer, moreLinks, kept, offsets)
    {
      hide Filter.Assembled, Filter.Opened, Filter.Place, HasText, LaidOut, MarkedAt;
      var open := AppendGap(out, line.gap);
      PlaceIs(f, m, open);
      moreLinks := AddLinksOfLine(links, linkCount, line, |open|, newLinks, f, m);
      MarkControlsOfLine(controls, controlCount, line, |open|, kept, offsets, f, m);
      AssembledStep(f, m);
      longer := open + text[line.start..line.end] + [10];
    }

    /** The loop over the lines: the filtered text, and the links and controls of the retained lines. */
    method FilterLines(header: Bytes, first: nat, v: Verdicts, kept: array<bool>, offsets: array<nat>, ghost f: Filter)
      returns (out: Bytes, newLinks: seq<Link>)
      requires Valid() && first <= |text|
      requires f == Filter(header, text, Retained(text, first, false, header != [], v))
      requires controls as object != kept && controls as object != offsets && kept as object != offsets
      requires links as object != kept && links as object != offsets
      requires Produced(f, 0, header, [], kept, offsets)
      modifies kept, offsets
      ensures Produced(f, |f.lines|, out, newLinks, kept, offsets)
    {
      hide Produced, HasText, LaidOut, StillToKeep, GoodLinks, GoodControls;
      var pos, pending, wrote := first, false, header != [];
      out, newLinks := header, [];
      ghost var m := 0;
      AllToKeep(f, first, v);
      while true
        invariant pos <= |text| && m <= |f.lines|
        invariant StillToKeep(f, m, pos, pending, wrote, v)
        invariant Produced(f, m, out, newLinks, kept, offsets)
        decreases |text| - pos
      {
        var end := ByteText.ParagraphEnd(text, pos);
        var hasText := LineHasText(text, pos, end);
        KeepStep(f, m, pos, end, hasText, pending, wrote, v);
        if hasText && v.stop(pos) {
          break;
        }
        var drop := hasText && v.drop(pos);
        if !drop && hasText {
          out, newLinks := KeepLine(Kept(pos, end, pending), out, newLinks, kept, offsets, f, m);
          m := m + 1;
          pending, wrote := false, true;
        } else if wrote && !drop {
          pending := true;
        }
        if end == |text| {
          break;
        }
        pos := end + 1;
      }
    }

    /** The text, links and controls of the filtered page. */
    method Filtered(title: Bytes, metaLine: Bytes, titleEnd: Option<nat>, v: Verdicts)
      returns (out: Bytes, newLinks: seq<Link>, newControls: seq<Control>)
      requires Valid() && (titleEnd.Some? ==> titleEnd.value <= |text|)
      ensures var f := FilterOf(text, title, metaLine, titleEnd, v);
              out == f.Result() && newLinks == f.Links(Links(), |f.lines|)
              && newControls == f.Controls(Controls(), controlCount)
      ensures GoodLinks(newLinks) && GoodControls(newControls)
    {
      hide Filter.Assembled, Filter.Opened, Retained, LaidOut, Marked, MarkedAt;
      hide Filter.Controls, Filter.Links, ReaderHeader, GoodLinks, GoodControls;
      ghost var f := FilterOf(text, title, metaLine, titleEnd, v);
      var kept := new bool[controlCount](_ => false);
      var offsets := new nat[controlCount](_ => 0);
      NothingMarked(f, Controls(), kept[..], offsets[..]);
      NothingProduced(f, Links());
      var first := 0;
      if title != [] && titleEnd.Some? {
        first := titleEnd.value;
      }
      out, newLinks := FilterLines(ReaderHeader(title, metaLine), first, v, kept, offsets, f);
      newControls := SelectControls(controls, controlCount, kept, offsets, f);
      FilteredLinksGood(f, Links(), |f.lines|);
      FilteredControlsGood(f, Controls(), controlCount);
      ghost var assembled := out;
      while out != [] && (out[|out| - 1] == 10 || out[|out| - 1] == 32)
        invariant CutTail(out) == CutTail(assembled)
        decreases |out|
      {
        out := out[..|out| - 1];
      }
      if out == [] {
        out := text;
      }
    }

    /** Keep the reader's part of the page: some lines of the text, with their links and controls. */
    method ReaderFilter(title: Bytes, metaLine: Bytes, titleEnd: Option<nat>, v: Verdicts)
      requires Valid() && (titleEnd.Some? ==> titleEnd.value <= |text|)
      modifies this
      ensures Valid() && layoutWidth == -1 && fresh(links) && fresh(controls)
      ensures var f := FilterOf(old(text), title, metaLine, titleEnd, v);
              && text == f.Result()
              && Links() == f.Links(old(Links()), |f.lines|)
              && Controls() == f.Controls(old(Controls()), old(controlCount))
    {
      hide FilterOf, Filter.Links, Filter.Controls, Filter.Result, GoodLinks, GoodControls, LaidOut;
      var out, newLinks, newControls := Filtered(title, metaLine, titleEnd, v);
      text := out;
      links := new Link[|newLinks|](i requires 0 <= i < |newLinks| => newLinks[i]);
      controls := new Control[|newControls|](i requires 0 <= i < |newControls| => newControls[i]);
      linkCount, controlCount := |newLinks|, |newControls|;
      assert links[..linkCount] == newLinks;
      assert controls[..controlCount] == newControls;
      display, layoutWidth := [], -1;
    }
  }

  lemma NothingProduced(f: Filter, links: seq<Link>)
    requires f.InText()
    ensures f.Assembled(0) == f.header && f.Links(links, 0) == []
  {
  }

  lemma PlaceIs(f: Filter, k: nat, open: Bytes)
    requires f.InText() && k < |f.lines| && open == OpenLine(f.Assembled(k), f.lines[k].gap)
    ensures open == f.Opened(k) && |open| == f.Place(k)
  {
  }

  /** One line of the source, as the filter treats it. */
  lemma RetainedStep(text: Bytes, pos: nat, end: nat, hasText: bool, pending: bool, wrote: bool, v: Verdicts)
    requires pos <= |text| && end == ByteText.ParagraphEnd(text, pos) && hasText == HasText(text[pos..end])
    ensures hasText && v.stop(pos) ==> Retained(text, pos, pending, wrote, v) == []
    ensures !(hasText && v.stop(pos)) ==>
              var keep := hasText && !v.drop(pos);
              Retained(text, pos, pending, wrote, v) ==
              (if keep then [Kept(pos, end, pending)] else []) +
              if end == |text| then []
              else Retained(text, end + 1, !keep && (pending || (wrote && !hasText)), wrote || keep, v)
  {
    hide HasText;
  }

  /** The lines from the `m`-th on are those the loop has still to keep. */
  ghost predicate StillToKeep(f: Filter, m: nat, pos: nat, pending: bool, wrote: bool, v: Verdicts)
    requires m <= |f.lines| && pos <= |f.text|
  {
    f.lines[m..] == Retained(f.text, pos, pending, wrote, v)
  }

  lemma AllToKeep(f: Filter, first: nat, v: Verdicts)
    requires first <= |f.text| && f.lines == Retained(f.text, first, false, f.header != [], v)
    ensures StillToKeep(f, 0, first, false, f.header != [], v)
  {
    assert f.lines[0..] == f.lines;
  }

  lemma KeepStep(f: Filter, m: nat, pos: nat, end: nat, hasText: bool, pending: bool, wrote: bool, v: Verdicts)
    requires m <= |f.lines| && pos <= |f.text| && StillToKeep(f, m, pos, pending, wrote, v)
    requires end == ByteText.ParagraphEnd(f.text, pos) && hasText == HasText(f.text[pos..end])
    ensures var keep := hasText && !v.drop(pos);
            var next := if keep then m + 1 else m;
            if hasText && v.stop(pos) then m == |f.lines|
            else
              && next <= |f.lines| && (keep ==> f.lines[m] == Kept(pos, end, pending))
              && if end == |f.text| then next == |f.lines|
                 else StillToKeep(f, next, end + 1, !keep && (pending || (wrote && !hasText)), wrote || keep, v)
  {
    hide HasText, Retained;
    RetainedStep(f.text, pos, end, hasText, pending, wrote, v);
    if hasText && !v.drop(pos) && !v.stop(pos) {
      assert f.lines[m + 1..] == f.lines[m..][1..];
      if end < |f.text| {
        var rest := Retained(f.text, end + 1, false, true, v);
        assert ([Kept(pos, end, pending)] + rest)[1..] == rest;
      }
    }
  }

  lemma NothingMarked(f: Filter, controls: seq<Control>, kept: seq<bool>, offsets: seq<nat>)
    requires f.InText() && |kept| == |offsets| == |controls|
    requires forall i :: 0 <= i < |kept| ==> !kept[i]
    ensures Marked(f, controls, kept, offsets, 0)
  {
  }

  lemma {:induction false} FilteredLinksGood(f: Filter, links: seq<Link>, m: nat)
    requires f.InText() && GoodLinks(links) && m <= |f.lines|
    ensures GoodLinks(f.Links(links, m))
  {
    forall at | 0 <= at < |f.Links(links, m)|
      ensures f.Links(links, m)[at].item.url != [] && f.Links(links, m)[at].item.caption != [] {
      LinkItemKept(f, links, m, at);
    }
  }

  lemma LinkItemKept(f: Filter, links: seq<Link>, m: nat, at: nat)
    requires f.InText() && m <= |f.lines| && at < |f.Links(links, m)|
    ensures exists i :: 0 <= i < |links| && f.Links(links, m)[at].item == links[i].item
    decreases m
  {
    hide Filter.Assembled, Filter.Opened, Filter.Place;
    if at < f.CountBefore(links, m - 1) {
      LinkItemKept(f, links, m - 1, at);
    } else {
      LinkOnItemKept(f, links, |links|, m - 1, at - f.CountBefore(links, m - 1));
    }
  }

  lemma {:induction false} LinkOnItemKept(f: Filter, links: seq<Link>, n: nat, k: nat, at: nat)
    requires f.InText() && n <= |links| && k < |f.lines| && at < |f.LinksOn(links, n, k)|
    ensures exists i :: 0 <= i < n && f.LinksOn(links, n, k)[at].item == links[i].item
  {
    hide Filter.Assembled, Filter.Opened, Filter.Place;
    if at < f.CountOn(links, n - 1, k) {
      LinkOnItemKept(f, links, n - 1, k, at);
    } else {
      assert f.LinksOn(links, n, k)[at].item == links[n - 1].item;
    }
  }

  lemma {:induction false} FilteredControlsGood(f: Filter, controls: seq<Control>, n: nat)
    requires f.InText() && GoodControls(controls) && n <= |controls|
    ensures GoodControls(f.Controls(controls, n))
  {
    hide Filter.Assembled, Filter.Opened, Filter.Anchor;
    if n > 0 {
      FilteredControlsGood(f, controls, n - 1);
    }
  }

  /** `all` is what is displayed so far and `rest`. */
  ghost predicate Laying(all: seq<Span>, links: seq<Link>, display: seq<DisplayLine>, rest: seq<Span>) {
    && all == Spans(display) + rest
    && forall k :: 0 <= k < |display| ==> FirstLink(links, display[k].span, display[k].link)
  }

  lemma LaidOneMore(all: seq<Span>, links: seq<Link>, display: seq<DisplayLine>, span: Span, link: int, rest: seq<Span>)
    requires display != [] && display[|display| - 1] == DisplayLine(span, link)
    requires Laying(all, links, display[..|display| - 1], [span] + rest) && FirstLink(links, span, link)
    ensures Laying(all, links, display, rest)
  {
    var before := display[..|display| - 1];
    assert Spans(display) == Spans(before) + [span];
    assert forall k :: 0 <= k < |before| ==> display[k] == before[k];
  }

  lemma LayingStarts(text: Bytes, links: seq<Link>, width: nat, cells: nat -> nat)
    ensures Laying(DisplayLines(text, width, cells), links, [],
                   if text == [] then [Span(0, 0)] + [] else Lay(text, 0, width, cells))
  {
  }

  lemma LayingEnds(text: Bytes, links: seq<Link>, display: seq<DisplayLine>, width: nat, cells: nat -> nat)
    requires Laying(DisplayLines(text, width, cells), links, display, [])
    ensures LaidOut(text, links, display, width, cells)
  {
  }

  lemma LaterLinesMiss(lines: seq<Span>, to: nat, offset: nat, j: nat)
    requires InOrder(lines, 0, to) && j < |lines| && lines[j].Holds(offset)
    ensures forall k :: 0 <= k < |lines| && lines[k].Holds(offset) ==> k == j
  {
  }

  lemma {:induction false} OutsideStaysGood(links: seq<Link>, n: nat, start: nat, end: nat)
    requires GoodLinks(links) && n <= |links| && start <= end
    ensures GoodLinks(Outside(links, n, start, end))
  {
    if n > 0 {
      OutsideStaysGood(links, n - 1, start, end);
    }
  }

  lemma {:induction false} OutsideControlsStayGood(controls: seq<Control>, n: nat, start: nat, end: nat)
    requires GoodControls(controls) && n <= |controls| && start <= end
    ensures GoodControls(Outside(controls, n, start, end))
  {
    if n > 0 {
      OutsideControlsStayGood(controls, n - 1, start, end);
    }
  }
}
