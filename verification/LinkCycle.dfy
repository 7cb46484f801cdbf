/**
 Stepping through the links of a page in the document reader: the next or
 previous link by position, wrapping at the ends of the page.
 */
module LinkCycle {
  import PageTable
  import opened LinkOrder

  const REVISIONS: nat := 0x1_0000_0000

  class Reader {
    var lines: seq<PageTable.Line>
    var pages: seq<PageTable.Page>
    var links: seq<DocLink>
    var selected: int
    var top: int
    var bodyHeight: nat
    var revision: nat

    constructor (lines: seq<PageTable.Line>, pages: seq<PageTable.Page>, links: seq<DocLink>, bodyHeight: nat)
      requires bodyHeight >= 1
      ensures Valid() && selected == -1 && top == 0
      ensures this.lines == lines && this.pages == pages && this.links == links && this.bodyHeight == bodyHeight
    {
      this.lines, this.pages, this.links, this.bodyHeight := lines, pages, links, bodyHeight;
      selected, top, revision := -1, 0, 0;
    }

    predicate Valid()
      reads this
    {
      selected < |links| && bodyHeight >= 1
    }

    /** The page shown: the page of the top line. */
    function Page(): (page: nat)
      reads this
    {
      PageTable.PageForLine(lines, pages, top)
    }

    predicate SelectedOnPage()
      reads this
      requires Valid()
    {
      selected >= 0 && links[selected].sourcePage == Page()
    }

    /** `link_from_viewport`: a link in the window, else one ahead of it, else any; the nearest of its kind. */
    method LinkFromViewport(page: nat, direction: Direction, firstLine: int, lastLine: int) returns (best: int)
      ensures best < 0 ==> forall i :: 0 <= i < |links| ==> !OnPage(links[i], page)
      ensures best >= 0 ==>
                && best < |links| && OnPage(links[best], page)
                && Nearest(links, page, direction, firstLine, lastLine, best)
                && forall i :: 0 <= i < best && OnPage(links[i], page) ==> At(links[i]) != At(links[best])
    {
      best := -1;
      for i := 0 to |links|
        invariant best < i
        invariant best < 0 ==> forall k :: 0 <= k < i ==> !OnPage(links[k], page)
        invariant best >= 0 ==>
                    && OnPage(links[best], page)
                    && forall k :: 0 <= k < i && OnPage(links[k], page) ==>
                         !Nearer(links[k], links[best], direction, firstLine, lastLine)
                         && (k < best ==> Nearer(links[best], links[k], direction, firstLine, lastLine))
      {
        if OnPage(links[i], page) {
          if best < 0 || Nearer(links[i], links[best], direction, firstLine, lastLine) {
            best := i;
          }
        }
      }
      if best >= 0 {
        NearestIs(links, page, direction, firstLine, lastLine, best);
      }
    }

    /** The loop over all links: the outermost one, and the nearest one beyond the selected link. */
    method EdgeAndBest(page: nat, direction: Direction, from: int) returns (edge: int, best: int)
      requires from < |links|
      ensures edge < 0 <==> forall i :: 0 <= i < |links| ==> !OnPage(links[i], page)
      ensures edge >= 0 ==> edge < |links| && OnPage(links[edge], page) && FirstOfAll(links, page, direction, edge)
      ensures best >= 0 ==> best < |links| && from >= 0 && OnPage(links[best], page)
                            && FirstBeyond(links, page, direction, links[from], best)
      ensures best < 0 && from >= 0 ==>
                forall i :: 0 <= i < |links| && OnPage(links[i], page) ==> !Beyond(links[i], links[from], direction)
    {
      edge, best := -1, -1;
      for i := 0 to |links|
        invariant edge < i && best < i
        invariant edge < 0 <==> forall k :: 0 <= k < i ==> !OnPage(links[k], page)
        invariant edge >= 0 ==> OnPage(links[edge], page) && FirstOfAll(links[..i], page, direction, edge)
        invariant best >= 0 ==> from >= 0 && OnPage(links[best], page)
                                && FirstBeyond(links[..i], page, direction, links[from], best)
        invariant best < 0 && from >= 0 ==>
                    forall k :: 0 <= k < i && OnPage(links[k], page) ==> !Beyond(links[k], links[from], direction)
      {
        if !OnPage(links[i], page) {
          continue;
        }
        if edge < 0 || Beyond(links[edge], links[i], direction) {
          edge := i;
        }
        if from >= 0 {
          if !Beyond(links[i], links[from], direction) {
            continue;
          }
          if best < 0 || Beyond(links[best], links[i], direction) {
            best := i;
          }
        }
      }
      assert links[..|links|] == links;
    }

    /**
     `select_link`: the link after or before the selected one, wrapping round; from no selection on this
     page, the nearest link to the window. Nothing but the selection, the top line and the revision changes.
     */
    method SelectLink(direction: Direction) returns (found: bool)
      requires Valid()
      modifies this`selected, this`top, this`revision
      ensures Valid()
      ensures found <==> exists i :: 0 <= i < |links| && links[i].sourcePage == old(Page()) && links[i].line >= 0
      ensures !found ==> selected == (if old(selected) >= 0 then -1 else old(selected)) && top == old(top)
      ensures found ==> selected >= 0 && OnPage(links[selected], old(Page()))
      ensures old(Page()) == PageTable.PageForLine(lines, pages, old(top))
      ensures found && old(selected) >= 0 && links[old(selected)].sourcePage == old(Page()) ==>
                Follows(Positions(links, old(Page())), At(links[old(selected)]), At(links[selected]), direction)
      ensures found && !(old(selected) >= 0 && links[old(selected)].sourcePage == old(Page())) ==>
                Nearest(links, old(Page()), direction, old(top), old(top) + bodyHeight - 1, selected)
      ensures found ==> forall i :: 0 <= i < selected && OnPage(links[i], old(Page())) ==> At(links[i]) != At(links[selected])
      ensures found ==> top == Scrolled(links[selected].line, old(top), bodyHeight)
      ensures revision == if found || old(selected) >= 0 then (old(revision) + 1) % REVISIONS else old(revision)
    {
      hide Nearer, Nearest, Beyond, Follows, Positions;
      var page := Page();
      var best := -1;
      var visibleLast := top + bodyHeight - 1;
      var selectedOnPage := SelectedOnPage();
      if !selectedOnPage {
        best := LinkFromViewport(page, direction, top, visibleLast);
      }
      var edge, beyond := EdgeAndBest(page, direction, if selectedOnPage then selected else -1);
      if selectedOnPage {
        best := beyond;
      }
      if best < 0 {
        best := edge;
      }
      if best < 0 {
        if selected >= 0 {
          selected := -1;
          revision := (revision + 1) % REVISIONS;
        }
        return false;
      }
      if selectedOnPage {
        LoopsGiveFollows(links, page, direction, selected, edge, best, best == beyond);
      }
      selected := best;
      if links[best].line < top || links[best].line >= top + bodyHeight {
        top := links[best].line - bodyHeight / 3;
        if top < 0 {
          top := 0;
        }
      }
      revision := (revision + 1) % REVISIONS;
      found := true;
    }

    /**
     Repeated steps from a link of the page, which end early when another page comes to be shown. The positions
     visited each follow the one before; and as many steps as there are distinct positions, all taken on the page,
     come back to the first position and visit every position once, in order with one wrap.
     */
    method TakeSteps(direction: Direction, n: nat) returns (steps: nat, ghost visited: seq<Pos>)
      requires Valid() && selected >= 0 && links[selected].sourcePage == Page() && links[selected].line >= 0
      modifies this`selected, this`top, this`revision
      ensures Valid() && steps <= n && (steps < n ==> Page() != old(Page()))
      ensures |visited| == steps + 1 && visited[0] == At(links[old(selected)])
      ensures Run(Positions(links, old(Page())), visited, direction)
      ensures selected >= 0 && OnPage(links[selected], old(Page())) && At(links[selected]) == visited[steps]
      ensures steps == |Positions(links, old(Page()))| ==> VisitsEachOnce(Positions(links, old(Page())), visited, direction)
    {
      hide Follows, VisitsEachOnce, Positions, Nearest;
      var page := Page();
      ghost var s := Positions(links, page);
      InPositions(links, page, selected);
      steps, visited := 0, [At(links[selected])];
      while steps < n && Page() == page
        invariant Valid() && steps <= n && selected >= 0 && OnPage(links[selected], page)
        invariant |visited| == steps + 1 && visited[0] == At(links[old(selected)]) && visited[0] in s
        invariant Run(s, visited, direction) && At(links[selected]) == visited[steps]
        decreases n - steps
      {
        ghost var was := selected;
        var found := SelectLink(direction);
        assert OnPage(links[was], page);
        visited := visited + [At(links[selected])];
        steps := steps + 1;
      }
      if steps == |s| {
        StepsVisitEachOnce(s, visited, direction);
      }
    }

    /** A step from a link of the page and, as long as the page is shown, one the other way, back to where it began. */
    method StepThereAndBack(direction: Direction) returns (back: bool)
      requires Valid() && selected >= 0 && links[selected].sourcePage == Page() && links[selected].line >= 0
      modifies this`selected, this`top, this`revision
      ensures Valid() && selected >= 0 && (!back ==> Page() != old(Page()))
      ensures back ==> At(links[selected]) == At(links[old(selected)])
    {
      hide Follows, Positions, Nearest;
      var page := Page();
      ghost var s, p := Positions(links, page), At(links[selected]);
      InPositions(links, page, selected);
      var found := SelectLink(direction);
      ghost var q := At(links[selected]);
      back := Page() == page;
      if back {
        found := SelectLink(Opposite(direction));
        PreviousUndoesNext(s, p, q, At(links[selected]), direction);
      }
    }
  }

  /**
   A step to a link of the page shown keeps the page if and only if the link is in the window already or
   the line a third of a window above it is still on the page, its rule included. Otherwise the view
   scrolls back into an earlier page, and the next step goes through the links of that page.
   */
  lemma StepKeepsPageIff(lines: seq<PageTable.Line>, pages: seq<PageTable.Page>, k: nat, line: nat, top: nat, bodyHeight: nat)
    requires PageTable.Finished(lines, pages) && k < |pages| && pages[k].start <= line < pages[k].end
    requires bodyHeight >= 1 && PageTable.PageForLine(lines, pages, top) == k
    ensures PageTable.PageForLine(lines, pages, Scrolled(line, top, bodyHeight)) == k
            <==> top <= line < top + bodyHeight || pages[k].start <= 1 || line - bodyHeight / 3 >= pages[k].start - 1
  {
    hide PageTable.PageForLine;
    var to := Scrolled(line, top, bodyHeight);
    PageTable.LinesMapToTheirPage(lines, pages, k, line);
    if to >= pages[k].start {
      PageTable.LinesMapToTheirPage(lines, pages, k, to);
    } else if to != top {
      var j := PageTable.LineIsSomewhere(lines, pages, to, k);
      if PageTable.InInterval(pages, j, to) {
        PageTable.LinesMapToTheirPage(lines, pages, j, to);
        if j < k {
          PageTable.IntervalsInOrder(lines, pages, j, k);
        }
      } else {
        PageTable.GapLines(lines, pages, j, to);
        assert PageTable.Gap(lines, pages, j);
        if j + 1 < k {
          PageTable.IntervalsInOrder(lines, pages, j + 1, k);
        }
      }
    }
  }

  /** Page 0 has one line, page 1 has twenty: a step to the first of these scrolls back to page 0. */
  lemma StepLeavesPage()
    ensures var lines := [PageTable.Line([], PageTable.Body, 0), PageTable.Line([], PageTable.Blank, 0), PageTable.Line([], PageTable.PageBreak, 1)]
                         + seq(20, _ => PageTable.Line([], PageTable.Body, 1));
            var pages := [PageTable.Page(0, 1), PageTable.Page(3, 23)];
            && PageTable.Finished(lines, pages) && PageTable.PageForLine(lines, pages, 10) == PageTable.PageForLine(lines, pages, 3) == 1
            && PageTable.PageForLine(lines, pages, Scrolled(3, 10, 6)) == 0
  {
  }
}
