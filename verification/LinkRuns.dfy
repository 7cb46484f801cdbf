/**
 Whole runs of the scan for PDF links: what one page goes through between two
 resets, and where its links come from.
 */
module LinkRuns {
  import opened LinkScan
  import opened Options

  ghost predicate IsRun(run: seq<State>, events: seq<Event>) {
    && |run| == |events| + 1 && run[0] == Fresh(run[0].pageCount)
    && forall k :: 0 <= k < |events| ==> Does(run[k], events[k], run[k + 1])
  }

  ghost predicate NoReset(events: seq<Event>, i: nat, j: nat) {
    forall k :: i <= k < j && k < |events| ==> events[k] != Resetting
  }

  lemma {:induction false} RunHolds(run: seq<State>, events: seq<Event>, k: nat)
    requires IsRun(run, events) && k < |run|
    ensures Inv(run[k])
  {
    hide Inv, Does;
    if k == 0 {
      StartHolds(run[0]);
    } else {
      RunHolds(run, events, k - 1);
      StepKeeps(run[k - 1], events[k - 1], run[k - 1 + 1]);
    }
  }

  lemma StartHolds(s: State)
    requires s == Fresh(s.pageCount)
    ensures Inv(s) && forall p :: 0 <= p < MAX_PAGES ==> s.states[p] == Unscanned
  {
  }

  /** This step takes over the output of a worker that was scanning the page, and the page gets its links from it. */
  ghost predicate TakesOver(s: State, e: Event, t: State, page: nat) {
    && page < |s.states| && page < |t.states|
    && s.states[page] == Scanning && t.states[page] == Ready
    && e.Checking? && e.outcome.Output?
    && s.worker.Some? && s.worker.value.first <= page <= s.worker.value.last
    && Accepted(s.worker.value, s.revision, |s.links|, s.killed || e.late, e.outcome)
    && LinksOfPage(s.links, page) == []
    && LinksOfPage(t.links, page) == LinksOn(page, FoundFor(e.outcome.lines, |e.outcome.lines|, s.worker.value.first, page))
  }

  ghost predicate TakenOverAt(run: seq<State>, events: seq<Event>, k: nat, page: nat) {
    k + 1 < |run| && k < |events| && TakesOver(run[k], events[k], run[k + 1], page)
  }

  /**
   Between resets every step moves a page as `MayMove` allows, a page fails at once only when no worker starts,
   a page becomes ready only by taking over the output of a worker that covers it, and a step that is not such
   a take-over leaves the links of the page as they are.
   */
  lemma PageStep(s: State, e: Event, t: State, page: nat)
    requires Inv(s) && Does(s, e, t) && e != Resetting && page < MAX_PAGES
    ensures Inv(t) && MayMove(s.states[page], t.states[page])
    ensures s.states[page] == Unscanned && t.states[page] == Failed ==> e.Claiming? && !e.starts
    ensures s.states[page] != Ready && t.states[page] == Ready ==> TakesOver(s, e, t, page)
    ensures TakesOver(s, e, t, page) || LinksOfPage(t.links, page) == LinksOfPage(s.links, page)
  {
    StepKeeps(s, e, t);
    match e
    case Claiming(_, _, _) =>
    case Checking(outcome, late, lookup) => CheckStep(s, outcome, late, lookup, page);
    case Selecting =>
    case Remapping(_, lookup) => SameLinksOfPage(t.links, s.links, page);
  }

  lemma CheckStep(s: State, outcome: Outcome, late: bool, lookup: Lookup, page: nat)
    requires Inv(s) && page < MAX_PAGES
    ensures var t := Checked(s, outcome, late, lookup);
            && page < |t.states| && MayMove(s.states[page], t.states[page])
            && (s.states[page] == Unscanned ==> t.states[page] == Unscanned)
            && (s.states[page] != Ready && t.states[page] == Ready ==> TakesOver(s, Checking(outcome, late, lookup), t, page))
            && (TakesOver(s, Checking(outcome, late, lookup), t, page) || LinksOfPage(t.links, page) == LinksOfPage(s.links, page))
  {
    hide LinksOfPage, Parsed, ResolvedAll, LinksOn, FoundFor;
    if s.worker.Some? && !outcome.StillRunning?
       && Accepted(s.worker.value, s.revision, |s.links|, s.killed || late, outcome) {
      var parsed := Parsed(outcome.lines, s.worker.value.first, s.states);
      if s.states[page] == Scanning {
        assert forall i :: 0 <= i < |s.links| ==> s.links[i].sourcePage != page;
        NoLinksOfPage(s.links, page);
        ScanGivesParsedLinks(s.links, parsed, s.pageCount, lookup, page);
        ParsedIs(outcome.lines, s.worker.value.first, s.states, page);
      } else {
        OtherPageKeepsLinks(s.links, ResolvedAll(parsed, s.pageCount, lookup), s.states, page);
      }
    }
  }

  /** Links of pages being scanned leave those of another page alone. */
  lemma OtherPageKeepsLinks(links: seq<Link>, added: seq<Link>, states: seq<PageState>, page: nat)
    requires forall i :: 0 <= i < |added| ==> Claimed(states, added[i].sourcePage)
    requires page < |states| && states[page] != Scanning
    ensures LinksOfPage(links + added, page) == LinksOfPage(links, page)
  {
    LinksOfPageAdds(links, added, page);
    NoLinksOfPage(added, page);
    assert LinksOfPage(links, page) + [] == LinksOfPage(links, page);
  }

  /** Between resets page states only move forward, and a ready page keeps exactly the links it has. */
  lemma {:induction false} RunOnlyMovesForward(run: seq<State>, events: seq<Event>, i: nat, j: nat, page: nat)
    requires IsRun(run, events) && i <= j < |run| && NoReset(events, i, j) && page < MAX_PAGES
    ensures Inv(run[i]) && Inv(run[j])
    ensures run[i].states[page] == Ready || run[i].states[page] == Failed ==> run[j].states[page] == run[i].states[page]
    ensures run[i].states[page] == Scanning ==> run[j].states[page] != Unscanned
    ensures run[i].states[page] == Ready ==> LinksOfPage(run[j].links, page) == LinksOfPage(run[i].links, page)
    decreases j
  {
    hide Inv, Does, TakesOver, LinksOfPage;
    RunHolds(run, events, i);
    if i < j {
      RunOnlyMovesForward(run, events, i, j - 1, page);
      PageStep(run[j - 1], events[j - 1], run[j - 1 + 1], page);
      InvHasPages(run[j - 1]);
      if run[j - 1].states[page] == Ready {
        NoTakeOver(run[j - 1], events[j - 1], run[j], page);
      }
    }
  }

  lemma NoTakeOver(s: State, e: Event, t: State, page: nat)
    requires page < |s.states| && s.states[page] != Scanning
    ensures !TakesOver(s, e, t, page)
  {
  }

  lemma {:induction false} LastReset(events: seq<Event>, j: nat) returns (i: nat)
    requires j <= |events|
    ensures i <= j && NoReset(events, i, j) && (i == 0 || events[i - 1] == Resetting)
  {
    if j == 0 {
      i := 0;
    } else if events[j - 1] == Resetting {
      i := j;
    } else {
      i := LastReset(events, j - 1);
    }
  }

  /** Within a stretch without reset a page that is ready at its end but not at its start was taken over in it. */
  lemma {:induction false} TakenOverIn(run: seq<State>, events: seq<Event>, i: nat, j: nat, page: nat) returns (k: nat)
    requires IsRun(run, events) && i <= j < |run| && NoReset(events, i, j) && page < MAX_PAGES
    requires |run[i].states| == |run[j].states| == MAX_PAGES
    requires run[i].states[page] != Ready && run[j].states[page] == Ready
    ensures i <= k < j && TakenOverAt(run, events, k, page)
    decreases j
  {
    hide Inv, Does, TakesOver;
    RunHolds(run, events, j - 1);
    InvHasPages(run[j - 1]);
    PageStep(run[j - 1], events[j - 1], run[j - 1 + 1], page);
    if run[j - 1].states[page] == Ready {
      k := TakenOverIn(run, events, i, j - 1, page);
    } else {
      k := j - 1;
    }
  }

  lemma InvHasPages(s: State)
    requires Inv(s)
    ensures |s.states| == MAX_PAGES
  {
  }

  /**
   In every run, whenever a page is ready: since the last reset the output of one worker that covers the page,
   and was scanning it, was taken over; the page had no links before, its links are exactly the parsed ones, and
   they have not changed since. No other output was taken over for it, so none of its links was added twice.
   */
  lemma ReadyPageWasScanned(run: seq<State>, events: seq<Event>, j: nat, page: nat) returns (i: nat, k: nat)
    requires IsRun(run, events) && j < |run| && page < MAX_PAGES
    requires page < |run[j].states| && run[j].states[page] == Ready
    ensures i <= k < j && NoReset(events, i, j) && (i == 0 || events[i - 1] == Resetting)
    ensures TakenOverAt(run, events, k, page)
    ensures LinksOfPage(run[j].links, page) == LinksOfPage(run[k + 1].links, page)
    ensures forall m :: i <= m < j && m != k ==> !TakenOverAt(run, events, m, page)
  {
    hide Inv, Does, LinksOfPage;
    i := LastReset(events, j);
    StartsUnscanned(run, events, i, page);
    RunHolds(run, events, j);
    InvHasPages(run[j]);
    k := TakenOverIn(run, events, i, j, page);
    RunOnlyMovesForward(run, events, k + 1, j, page);
    forall m | i <= m < j && m != k ensures !TakenOverAt(run, events, m, page) {
      OnlyOnce(run, events, i, j, k, m, page);
    }
  }

  /** A page taken over once is not taken over again before a reset. */
  lemma OnlyOnce(run: seq<State>, events: seq<Event>, i: nat, j: nat, k: nat, m: nat, page: nat)
    requires IsRun(run, events) && i <= k < j < |run| && i <= m < j && m != k && NoReset(events, i, j) && page < MAX_PAGES
    requires TakenOverAt(run, events, k, page)
    ensures !TakenOverAt(run, events, m, page)
  {
    hide Inv, Does, LinksOfPage;
    RunHolds(run, events, m);
    RunHolds(run, events, m + 1);
    InvHasPages(run[m]);
    InvHasPages(run[m + 1]);
    if k < m {
      RunOnlyMovesForward(run, events, k + 1, m, page);
    } else {
      RunOnlyMovesForward(run, events, m + 1, k, page);
    }
  }

  lemma StartsUnscanned(run: seq<State>, events: seq<Event>, i: nat, page: nat)
    requires IsRun(run, events) && i < |run| && page < MAX_PAGES && (i == 0 || events[i - 1] == Resetting)
    ensures |run[i].states| == MAX_PAGES && run[i].states[page] == Unscanned
  {
    StartHolds(Fresh(run[i].pageCount));
    if i > 0 {
      assert Does(run[i - 1], events[i - 1], run[i - 1 + 1]);
    }
  }

  /** A page is claimed, a link is selected, and the worker ends well: its output is refused and the page has failed. */
  lemma SelectingLosesTheScan(lines: seq<OutputLine>, lookup: Lookup)
    ensures exists run: seq<State> ::
              && |run| == 4 && IsRun(run, [Claiming(0, 0, true), Selecting, Checking(Output(lines, true), false, lookup)])
              && run[0].pageCount == 1 && |run[3].states| > 0 && run[3].states[0] == Failed && run[3].links == []
  {
    var s := Fresh(1);
    var claimed := s.(states := Claim(s.states, 0, 0, Scanning), worker := Some(Worker(0, 0, 0, 0, 1)));
    var selected := claimed.(revision := NextRevision(1));
    var run := [s, claimed, selected, Checked(selected, Output(lines, true), false, lookup)];
    var events := [Claiming(0, 0, true), Selecting, Checking(Output(lines, true), false, lookup)];
    assert AnyUnscanned(s.states, 0, 0) by { assert s.states[0] == Unscanned; }
    assert Does(run[0], events[0], run[1]);
    assert IsRun(run, events);
  }
}
