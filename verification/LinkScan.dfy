/**
 The background scan for links in a PDF: pages are claimed, a worker process
 extracts the links of a page range, and its output is taken over all at once or
 not at all.
 */
module LinkScan {
  import opened Options
  import opened Sequences

  const MAX_PAGES: nat := 20000
  const REVISIONS: nat := 0x1_0000_0000

  /** The state of a page: 0, 3, 1 or 2 in the source. */
  datatype PageState = Unscanned | Scanning | Ready | Failed

  /** Where a link is found on its page, and where it leads; mapped again when the layout changes. */
  datatype Place = Nowhere | Place(line: int, start: int, end: int, targetLine: int, repaired: bool)

  datatype Link = Link(text: string, sourcePage: nat, targetPage: int, place: Place)

  /** A worker process: its page range and the link list when it was started. */
  datatype Worker = Worker(first: nat, last: nat, firstLink: nat, startCount: nat, revision: nat)

  /** A link in the output of the worker. */
  datatype Found = Found(text: string, targetPage: int)

  /** A line of the output: the page it switches to, if any, and the links on it. */
  datatype OutputLine = OutputLine(page: Option<nat>, links: seq<Found>)

  /** What has become of the worker process. */
  datatype Outcome =
    | StillRunning
    | Died
    | Unreadable
    | Output(lines: seq<OutputLine>, closes: bool)

  /** How a link is looked up in the text of the document; a parameter of the model. */
  datatype Lookup = Lookup(locate: Link -> (int, int, int), headingOn: Link -> int, headingAfter: (Link, int) -> int)

  // ----- page states -----

  /**
   The moves of one page: from unscanned to scanning, or to failed at once when no worker can be started, and
   from scanning to ready or failed.
   */
  predicate MayMove(a: PageState, b: PageState) {
    a == b || (a == Unscanned && (b == Scanning || b == Failed)) || (a == Scanning && (b == Ready || b == Failed))
  }

  // ----- taking over the output -----

  function LinksOn(source: nat, found: seq<Found>): (r: seq<Link>)
    ensures |r| == |found| && forall i :: 0 <= i < |r| ==> r[i] == Link(found[i].text, source, found[i].targetPage, Nowhere)
  {
    seq(|found|, i requires 0 <= i < |found| => Link(found[i].text, source, found[i].targetPage, Nowhere))
  }

  function PageAfter(source: nat, line: OutputLine): (page: nat) {
    if line.page.Some? then line.page.value else source
  }

  predicate Claimed(states: seq<PageState>, page: nat) {
    page < |states| && states[page] == Scanning
  }

  /** The links of the output that belong to claimed pages, in order, from a line and its source page on. */
  function ParsedFrom(lines: seq<OutputLine>, i: nat, source: nat, states: seq<PageState>): (r: seq<Link>)
    requires i <= |lines|
    ensures forall k :: 0 <= k < |r| ==> Claimed(states, r[k].sourcePage)
    decreases |lines| - i
  {
    if i == |lines| then []
    else ParsedLine(lines[i], source, states) + ParsedFrom(lines, i + 1, PageAfter(source, lines[i]), states)
  }

  function ParsedLine(line: OutputLine, source: nat, states: seq<PageState>): (r: seq<Link>)
    ensures forall k :: 0 <= k < |r| ==> Claimed(states, r[k].sourcePage)
  {
    var page := PageAfter(source, line);
    if Claimed(states, page) then LinksOn(page, line.links) else []
  }

  function Parsed(lines: seq<OutputLine>, source: nat, states: seq<PageState>): (r: seq<Link>)
    ensures forall k :: 0 <= k < |r| ==> Claimed(states, r[k].sourcePage)
  {
    ParsedFrom(lines, 0, source, states)
  }

  /** Line `i` of the output is for a page: the last line up to it that names a page names this one, or none does. */
  ghost predicate LineIsFor(lines: seq<OutputLine>, i: nat, first: nat, page: nat)
    requires i < |lines|
  {
    || (exists j :: 0 <= j <= i && lines[j].page == Some(page) && forall k :: j < k <= i ==> lines[k].page.None?)
    || (page == first && forall k :: 0 <= k <= i ==> lines[k].page.None?)
  }

  /** What the first `n` lines of the output hold for a page, in order. */
  ghost function FoundFor(lines: seq<OutputLine>, n: nat, first: nat, page: nat): (r: seq<Found>)
    requires n <= |lines|
  {
    if n == 0 then []
    else FoundFor(lines, n - 1, first, page) + if LineIsFor(lines, n - 1, first, page) then lines[n - 1].links else []
  }

  function PageLinks(links: seq<Link>, page: nat): (n: nat) {
    if links == [] then 0
    else PageLinks(links[..|links| - 1], page) + if links[|links| - 1].sourcePage == page then 1 else 0
  }

  function SelfLinks(links: seq<Link>, page: nat): (n: nat) {
    if links == [] then 0
    else SelfLinks(links[..|links| - 1], page)
         + if links[|links| - 1].sourcePage == page && links[|links| - 1].targetPage == page then 1 else 0
  }

  /** A page most of whose links lead to itself has broken targets. */
  predicate BrokenTargets(links: seq<Link>, page: nat) {
    PageLinks(links, page) >= 3 && SelfLinks(links, page) * 4 >= PageLinks(links, page) * 3
  }

  /** A new link found in the text, with its target resolved. */
  function Resolved(link: Link, broken: bool, pageCount: nat, lookup: Lookup): (r: Link)
    ensures r.text == link.text && r.sourcePage == link.sourcePage && r.targetPage == link.targetPage
  {
    var (line, start, end) := lookup.locate(link);
    if link.targetPage < 0 || link.targetPage >= pageCount || (broken && link.targetPage == link.sourcePage)
    then link.(place := Place(line, start, end, lookup.headingAfter(link, line), true))
    else link.(place := Place(line, start, end, lookup.headingOn(link), false))
  }

  /** All new links resolved. */
  function ResolvedAll(links: seq<Link>, pageCount: nat, lookup: Lookup): (r: seq<Link>)
    ensures |r| == |links|
    ensures forall i :: 0 <= i < |r| ==> r[i] == Resolved(links[i], BrokenTargets(links, links[i].sourcePage), pageCount, lookup)
  {
    seq(|links|, i requires 0 <= i < |links| =>
      Resolved(links[i], BrokenTargets(links, links[i].sourcePage), pageCount, lookup))
  }

  /** The text, source and target of the links of one page, in order. */
  function LinksOfPage(links: seq<Link>, page: nat): (r: seq<Link>) {
    if links == [] then []
    else
      var last := links[|links| - 1];
      LinksOfPage(links[..|links| - 1], page) + if last.sourcePage == page then [last.(place := Nowhere)] else []
  }

  lemma {:induction false} LinksOfPageAdds(a: seq<Link>, b: seq<Link>, page: nat)
    ensures LinksOfPage(a + b, page) == LinksOfPage(a, page) + LinksOfPage(b, page)
  {
    if b == [] {
      assert a + b == a;
    } else {
      assert (a + b)[..|a + b| - 1] == a + b[..|b| - 1];
      LinksOfPageAdds(a, b[..|b| - 1], page);
    }
  }

  lemma {:induction false} NoLinksOfPage(links: seq<Link>, page: nat)
    requires forall i :: 0 <= i < |links| ==> links[i].sourcePage != page
    ensures LinksOfPage(links, page) == []
  {
    if links != [] {
      NoLinksOfPage(links[..|links| - 1], page);
    }
  }

  // ----- what the output holds for a page -----

  /** The page that the first `i` lines leave in force. */
  function SourceAt(lines: seq<OutputLine>, i: nat, first: nat): (page: nat)
    requires i <= |lines|
  {
    if i == 0 then first else PageAfter(SourceAt(lines, i - 1, first), lines[i - 1])
  }

  lemma {:induction false} SourceIs(lines: seq<OutputLine>, i: nat, first: nat, page: nat)
    requires i < |lines|
    ensures SourceAt(lines, i + 1, first) == page <==> LineIsFor(lines, i, first, page)
  {
    if i > 0 {
      SourceIs(lines, i - 1, first, page);
    }
    if lines[i].page.None? && LineIsFor(lines, i, first, page) && page != first {
      var j :| 0 <= j <= i && lines[j].page == Some(page) && forall k :: j < k <= i ==> lines[k].page.None?;
      assert j < i;
    }
  }

  lemma {:induction false} AllOfPage(links: seq<Link>, page: nat)
    requires forall i :: 0 <= i < |links| ==> links[i].sourcePage == page && links[i].place == Nowhere
    ensures LinksOfPage(links, page) == links
  {
    if links != [] {
      AllOfPage(links[..|links| - 1], page);
    }
  }

  lemma LineGives(line: OutputLine, source: nat, states: seq<PageState>, page: nat)
    requires Claimed(states, page)
    ensures LinksOfPage(ParsedLine(line, source, states), page)
            == LinksOn(page, if PageAfter(source, line) == page then line.links else [])
  {
    if PageAfter(source, line) == page {
      AllOfPage(LinksOn(page, line.links), page);
    } else {
      NoLinksOfPage(ParsedLine(line, source, states), page);
    }
  }

  lemma LinksOnAdds(page: nat, a: seq<Found>, b: seq<Found>)
    ensures LinksOn(page, a + b) == LinksOn(page, a) + LinksOn(page, b)
  {
  }

  lemma {:induction false} ParsedFromIs(lines: seq<OutputLine>, i: nat, first: nat, states: seq<PageState>, page: nat)
    requires i <= |lines| && Claimed(states, page)
    ensures LinksOn(page, FoundFor(lines, i, first, page)) + LinksOfPage(ParsedFrom(lines, i, SourceAt(lines, i, first), states), page)
            == LinksOn(page, FoundFor(lines, |lines|, first, page))
    decreases |lines| - i
  {
    hide Claimed, ParsedLine, PageAfter, LineIsFor, LinksOn, LinksOfPage;
    var source := SourceAt(lines, i, first);
    if i == |lines| {
      assert LinksOfPage([], page) == [] by { NoLinksOfPage([], page); }
    } else {
      var rest := ParsedFrom(lines, i + 1, SourceAt(lines, i + 1, first), states);
      SourceIs(lines, i, first, page);
      LineGives(lines[i], source, states, page);
      LinksOfPageAdds(ParsedLine(lines[i], source, states), rest, page);
      LinksOnAdds(page, FoundFor(lines, i, first, page), if LineIsFor(lines, i, first, page) then lines[i].links else []);
      ParsedFromIs(lines, i + 1, first, states, page);
    }
  }

  /**
   The links taken from the output for a claimed page are exactly those found on its lines, in order: the
   lines after one that names the page, up to the next that names another, or, for the first page of the
   worker, those before any that names a page. No link is taken for a page that is not claimed.
   */
  lemma ParsedIs(lines: seq<OutputLine>, first: nat, states: seq<PageState>, page: nat)
    ensures LinksOfPage(Parsed(lines, first, states), page)
            == if page < |states| && states[page] == Scanning then LinksOn(page, FoundFor(lines, |lines|, first, page)) else []
  {
    if Claimed(states, page) {
      ParsedFromIs(lines, 0, first, states, page);
    } else {
      NoLinksOfPage(Parsed(lines, first, states), page);
    }
  }

  /** Moving links about leaves what they are. */
  lemma {:induction false} SameLinksOfPage(a: seq<Link>, b: seq<Link>, page: nat)
    requires |a| == |b| && forall i :: 0 <= i < |a| ==> a[i].(place := Nowhere) == b[i].(place := Nowhere)
    ensures LinksOfPage(a, page) == LinksOfPage(b, page)
  {
    if a != [] {
      var n := |a| - 1;
      assert a[n].(place := Nowhere) == b[n].(place := Nowhere);
      SameLinksOfPage(a[..n], b[..n], page);
    }
  }

  // ----- the states after a scan -----

  predicate AnyUnscanned(states: seq<PageState>, first: nat, last: int) {
    exists p :: 0 <= p < |states| && first <= p <= last && states[p] == Unscanned
  }

  /** A worker is given just the stretch from the first unscanned page of a range to the last. */
  ghost predicate Spans(states: seq<PageState>, w: Worker, first: nat, last: int) {
    && first <= w.first <= w.last <= last && w.last < |states|
    && states[w.first] == states[w.last] == Unscanned
    && forall p :: 0 <= p < |states| && first <= p <= last && states[p] == Unscanned ==> w.first <= p <= w.last
  }

  /** The unscanned pages of a range get a state. */
  function Claim(states: seq<PageState>, first: nat, last: int, to: PageState): (r: seq<PageState>)
    ensures |r| == |states|
    ensures forall p :: 0 <= p < |r| ==> r[p] == if first <= p <= last && states[p] == Unscanned then to else states[p]
  {
    seq(|states|, p requires 0 <= p < |states| =>
      if first <= p <= last && states[p] == Unscanned then to else states[p])
  }

  function Settled(states: seq<PageState>, w: Worker, to: PageState): (r: seq<PageState>)
    ensures |r| == |states|
    ensures forall p :: 0 <= p < |r| ==>
              r[p] == if w.first <= p <= w.last && states[p] == Scanning then to else states[p]
  {
    seq(|states|, p requires 0 <= p < |states| =>
      if w.first <= p <= w.last && states[p] == Scanning then to else states[p])
  }

  /** Every page being scanned gets a state. */
  function SettledAll(states: seq<PageState>, to: PageState): (r: seq<PageState>)
    ensures |r| == |states|
    ensures forall p :: 0 <= p < |r| ==> r[p] == if states[p] == Scanning then to else states[p]
  {
    seq(|states|, p requires 0 <= p < |states| => if states[p] == Scanning then to else states[p])
  }

  /** A worker covers every page being scanned, so none is left behind when it ends. */
  lemma AllSettled(states: seq<PageState>, w: Worker, to: PageState)
    requires to == Ready || to == Failed
    requires forall p :: 0 <= p < |states| && states[p] == Scanning ==> w.first <= p <= w.last
    ensures Settled(states, w, to) == SettledAll(states, to) && Scanning !in Settled(states, w, to)
  {
  }

  /** The output is taken over: the worker succeeded and the list it started from is still there. */
  predicate Accepted(w: Worker, revision: nat, linkCount: nat, killed: bool, outcome: Outcome) {
    !killed && outcome.Output? && w.revision == revision && w.startCount == linkCount && outcome.closes
  }

  /** A link looked up again; whether its target was repaired is remembered. */
  function Remapped(link: Link, lookup: Lookup): (r: Link)
    ensures r.(place := Nowhere) == link.(place := Nowhere)
  {
    var (line, start, end) := lookup.locate(link);
    if link.place.Place? && link.place.repaired
    then link.(place := Place(line, start, end, lookup.headingAfter(link, line), true))
    else link.(place := Place(line, start, end, lookup.headingOn(link), false))
  }

  function RemappedAll(links: seq<Link>, lookup: Lookup): (r: seq<Link>)
    ensures |r| == |links| && forall i :: 0 <= i < |r| ==> r[i] == Remapped(links[i], lookup)
  {
    seq(|links|, i requires 0 <= i < |links| => Remapped(links[i], lookup))
  }

  // ----- what each operation does to the whole scanner -----

  datatype State = State(pageCount: nat, states: seq<PageState>, links: seq<Link>,
                         worker: Option<Worker>, killed: bool, revision: nat)

  /** What can happen to the scanner. */
  datatype Event =
    | Claiming(firstPage: int, lastPage: int, starts: bool)
    | Checking(outcome: Outcome, late: bool, lookup: Lookup)
    | Selecting
    | Remapping(newPageCount: nat, lookup: Lookup)
    | Resetting

  function Fresh(pageCount: nat): (s: State) {
    State(pageCount, seq(MAX_PAGES, _ => Unscanned), [], None, false, 1)
  }

  function NextRevision(revision: nat): (r: nat) {
    (revision + 1) % REVISIONS
  }

  function FirstOf(firstPage: int): (first: nat) {
    if firstPage < 0 then 0 else firstPage
  }

  /** The last page of a requested range that exists. */
  function LastOf(lastPage: int, pageCount: nat): (last: int)
    ensures last < MAX_PAGES
  {
    var last := if lastPage >= pageCount then pageCount - 1 else lastPage;
    if last >= MAX_PAGES then MAX_PAGES - 1 else last
  }

  /** The unscanned pages of a range are claimed for a new worker, or fail when none starts. */
  ghost predicate Claims(s: State, first: nat, last: int, starts: bool, t: State) {
    if s.worker.Some? || !AnyUnscanned(s.states, first, last) then t == s
    else if !starts then t == s.(states := Claim(s.states, first, last, Failed))
    else
      && t.worker.Some? && Spans(s.states, t.worker.value, first, last)
      && t.worker.value.firstLink == t.worker.value.startCount == |s.links| && t.worker.value.revision == s.revision
      && t == s.(states := Claim(s.states, first, last, Scanning), worker := t.worker, killed := false)
  }

  /** The worker still runs, or it has ended and its output is taken over whole or not at all. */
  function Checked(s: State, outcome: Outcome, late: bool, lookup: Lookup): (t: State) {
    if s.worker.None? then s
    else if outcome.StillRunning? then s.(killed := s.killed || late)
    else if Accepted(s.worker.value, s.revision, |s.links|, s.killed || late, outcome) then
      s.(states := SettledAll(s.states, Ready),
         links := s.links + ResolvedAll(Parsed(outcome.lines, s.worker.value.first, s.states), s.pageCount, lookup),
         worker := None, killed := false, revision := NextRevision(s.revision))
    else s.(states := SettledAll(s.states, Failed), worker := None, killed := false)
  }

  ghost predicate Does(s: State, e: Event, t: State) {
    match e
    case Claiming(firstPage, lastPage, starts) => Claims(s, FirstOf(firstPage), LastOf(lastPage, s.pageCount), starts, t)
    case Checking(outcome, late, lookup) => t == Checked(s, outcome, late, lookup)
    case Selecting => t == s.(revision := NextRevision(s.revision))
    case Remapping(newPageCount, lookup) =>
      t == s.(pageCount := newPageCount, links := RemappedAll(s.links, lookup), revision := NextRevision(s.revision))
    case Resetting =>
      t == Fresh(s.pageCount).(revision := NextRevision(s.revision))
  }

  /** Links are only on ready pages. */
  ghost predicate Consistent(states: seq<PageState>, links: seq<Link>) {
    forall i :: 0 <= i < |links| ==> links[i].sourcePage < |states| && states[links[i].sourcePage] == Ready
  }

  /** A page is being scanned only while a worker lives whose range covers it. */
  ghost predicate Covered(states: seq<PageState>, worker: Option<Worker>) {
    forall p :: 0 <= p < |states| && states[p] == Scanning ==>
      worker.Some? && worker.value.first <= p <= worker.value.last
  }

  ghost predicate Inv(s: State) {
    && |s.states| == MAX_PAGES
    && (s.worker.Some? ==> s.worker.value.first <= s.worker.value.last < MAX_PAGES
                           && s.worker.value.firstLink == s.worker.value.startCount)
    && Covered(s.states, s.worker) && Consistent(s.states, s.links)
  }

  /** Without a worker no page is being scanned. */
  lemma IdleScansNothing(s: State)
    requires Inv(s) && s.worker.None?
    ensures forall p :: 0 <= p < |s.states| ==> s.states[p] != Scanning
  {
  }

  /** Every operation keeps the invariant. */
  lemma StepKeeps(s: State, e: Event, t: State)
    requires Inv(s) && Does(s, e, t)
    ensures Inv(t)
  {
    hide Resolved, Parsed, Accepted, BrokenTargets, LinksOfPage;
  }

  class Scanner {
    var pageCount: nat
    var links: seq<Link>
    var states: array<PageState>
    var worker: Option<Worker>
    var killed: bool
    var parsed: bool
    var revision: nat

    ghost function Now(): (s: State)
      reads this, states
    {
      State(pageCount, states[..], links, worker, killed, revision)
    }

    ghost predicate Valid()
      reads this, states
    {
      states.Length == MAX_PAGES && !parsed && Inv(Now())
    }

    constructor (pageCount: nat)
      ensures Valid() && fresh(states) && Now() == Fresh(pageCount)
    {
      this.pageCount := pageCount;
      states := new PageState[MAX_PAGES](_ => Unscanned);
      links, worker, killed, parsed, revision := [], None, false, false, 1;
      new;
      assert states[..] == Fresh(pageCount).states;
    }

    /** `ensure_pdf_links_for_range`: claim the unscanned pages of a range and start a worker for them. */
    method EnsureRange(firstPage: int, lastPage: int, starts: bool) returns (done: bool)
      requires Valid()
      modifies this`worker, this`killed, states
      ensures Valid() && Does(old(Now()), Claiming(firstPage, lastPage, starts), Now())
      ensures done <==> old(worker).None? && FirstOf(firstPage) <= LastOf(lastPage, pageCount)
                        && !AnyUnscanned(old(states[..]), FirstOf(firstPage), LastOf(lastPage, pageCount))
    {
      hide Inv;
      ghost var was, e := Now(), Claiming(firstPage, lastPage, starts);
      if pageCount <= 0 {
        return false;
      }
      var first := FirstOf(firstPage);
      var last := LastOf(lastPage, pageCount);
      if first > last {
        return false;
      }
      if worker.Some? {
        return false;
      }
      var scanFirst, scanLast := ClaimPages(first, last);
      if scanFirst < 0 {
        return true;
      }
      IdleScansNothing(was);
      assert Spans(was.states, Worker(scanFirst, scanLast, |links|, |links|, revision), first, last);
      if !starts {
        FailClaimed(scanFirst, scanLast);
        assert states[..] == Claim(was.states, first, last, Failed);
        StepKeeps(was, e, Now());
        return false;
      }
      worker := Some(Worker(scanFirst, scanLast, |links|, |links|, revision));
      killed := false;
      StepKeeps(was, e, Now());
      done := false;
    }

    /** The loop that claims pages, noting the first and the last one claimed. */
    method ClaimPages(first: nat, last: int) returns (scanFirst: int, scanLast: int)
      requires first <= last < MAX_PAGES == states.Length
      modifies states
      ensures states[..] == Claim(old(states[..]), first, last, Scanning)
      ensures scanFirst < 0 <==> !AnyUnscanned(old(states[..]), first, last)
      ensures scanFirst < 0 ==> states[..] == old(states[..])
      ensures scanFirst >= 0 ==> first <= scanFirst <= scanLast <= last
      ensures scanFirst >= 0 ==> forall count: nat, revision: nat ::
                Spans(old(states[..]), Worker(scanFirst, scanLast, count, count, revision), first, last)
    {
      ghost var was := states[..];
      scanFirst, scanLast := -1, -1;
      for page := first to last + 1
        invariant forall p :: 0 <= p < MAX_PAGES ==>
                    states[p] == if first <= p < page && was[p] == Unscanned then Scanning else was[p]
        invariant scanFirst < 0 ==> forall p :: first <= p < page ==> was[p] != Unscanned
        invariant scanFirst >= 0 ==> first <= scanFirst <= scanLast < page && was[scanFirst] == was[scanLast] == Unscanned
        invariant forall p :: first <= p < page && was[p] == Unscanned ==> scanFirst <= p <= scanLast
      {
        if states[page] == Unscanned {
          if scanFirst < 0 {
            scanFirst := page;
          }
          scanLast := page;
          states[page] := Scanning;
        }
      }
    }

    /** No worker could be started: what was claimed has failed. */
    method FailClaimed(scanFirst: int, scanLast: int)
      requires 0 <= scanFirst <= scanLast < MAX_PAGES == states.Length
      modifies states
      ensures forall p :: 0 <= p < MAX_PAGES ==>
                states[p] == if scanFirst <= p <= scanLast && old(states[p]) == Scanning then Failed else old(states[p])
    {
      for page := scanFirst to scanLast + 1
        invariant forall p :: 0 <= p < MAX_PAGES ==>
                    states[p] == if scanFirst <= p < page && old(states[p]) == Scanning then Failed else old(states[p])
      {
        if states[page] == Scanning {
          states[page] := Failed;
        }
      }
    }

    /** The loop that reads the output and appends the links of claimed pages. */
    method ParseOutput(lines: seq<OutputLine>, first: nat)
      modifies this`links
      ensures links == old(links) + Parsed(lines, first, states[..])
    {
      hide ParsedLine;
      var source: nat := first;
      ghost var claims := states[..];
      ghost var all := Parsed(lines, first, claims);
      for i := 0 to |lines|
        invariant states[..] == claims
        invariant links + ParsedFrom(lines, i, source, claims) == old(links) + all
      {
        ghost var before, page := links, source;
        ghost var line, rest := ParsedLine(lines[i], page, claims), ParsedFrom(lines, i + 1, PageAfter(page, lines[i]), claims);
        source := ParseLine(lines[i], source);
        Regroup(before, line, rest);
      }
      assert links + [] == links;
    }

    /** One line of the output: it may switch pages, and its links go to the list if the page is claimed. */
    method ParseLine(line: OutputLine, source: nat) returns (page: nat)
      modifies this`links
      ensures page == PageAfter(source, line)
      ensures links == old(links) + ParsedLine(line, source, states[..])
    {
      page := if line.page.Some? then line.page.value else source;
      if page < states.Length && states[page] == Scanning {
        links := links + LinksOn(page, line.links);
      } else {
        assert links == links + [];
      }
    }

    /** The counting loop over the new links of a page. */
    method CountPage(from: nat, page: nat) returns (pageLinks: nat, selfLinks: nat)
      requires from <= |links|
      ensures pageLinks == PageLinks(links[from..], page) && selfLinks == SelfLinks(links[from..], page)
    {
      pageLinks, selfLinks := 0, 0;
      ghost var added := links[from..];
      for i := from to |links|
        invariant pageLinks == PageLinks(added[..i - from], page) && selfLinks == SelfLinks(added[..i - from], page)
      {
        assert added[..i - from + 1][..i - from] == added[..i - from] && added[i - from] == links[i];
        if links[i].sourcePage == page {
          pageLinks := pageLinks + 1;
          if links[i].targetPage == page {
            selfLinks := selfLinks + 1;
          }
        }
      }
      assert added[..|links| - from] == added;
    }

    /** Resolve the new links of one page. */
    method ResolvePage(from: nat, page: nat, lookup: Lookup)
      requires from <= |links|
      modifies this`links
      ensures |links| == |old(links)|
      ensures forall i :: 0 <= i < |links| ==>
                links[i] == if i >= from && old(links)[i].sourcePage == page
                            then Resolved(old(links)[i], BrokenTargets(old(links)[from..], page), pageCount, lookup)
                            else old(links)[i]
    {
      hide Resolved;
      var pageLinks, selfLinks := CountPage(from, page);
      var broken := pageLinks >= 3 && selfLinks * 4 >= pageLinks * 3;
      ghost var was := links;
      for i := from to |links|
        invariant |links| == |was|
        invariant forall k :: 0 <= k < |links| ==>
                    links[k] == if from <= k < i && was[k].sourcePage == page
                                then Resolved(was[k], broken, pageCount, lookup) else was[k]
      {
        if links[i].sourcePage == page {
          links := links[i := Resolved(links[i], broken, pageCount, lookup)];
        }
      }
    }

    /** `finish_pdf_link_worker_output`: take the whole output over, or refuse it. */
    method FinishOutput(w: Worker, outcome: Outcome, lookup: Lookup) returns (ok: bool)
      requires Valid() && worker == Some(w)
      requires outcome.Output? || outcome.Unreadable?
      modifies this`links, this`parsed, this`revision, states
      ensures ok <==> Accepted(w, old(revision), |old(links)|, false, outcome)
      ensures ok ==> links == old(links) + ResolvedAll(Parsed(outcome.lines, w.first, old(states[..])), pageCount, lookup)
      ensures ok ==> states[..] == Settled(old(states[..]), w, Ready)
      ensures !ok ==> states[..] == old(states[..]) && old(links) <= links && (!parsed ==> links == old(links))
      ensures !ok && parsed ==> w.startCount == |old(links)|
      ensures ok ==> revision == NextRevision(old(revision))
      ensures !ok ==> revision == old(revision)
    {
      hide ResolvedAll, Parsed, Consistent;
      if w.revision != revision || w.startCount != |links| || outcome.Unreadable? {
        return false;
      }
      parsed := true;
      ParseOutput(outcome.lines, w.first);
      if !outcome.closes {
        return false;
      }
      SettleLinks(w.startCount, w, lookup);
      revision := NextRevision(revision);
      ok := true;
    }

    /** The pages of the range become ready one by one, each with its links resolved. */
    method SettleLinks(from: nat, w: Worker, lookup: Lookup)
      requires w.first <= w.last < MAX_PAGES && states.Length == MAX_PAGES && from <= |links|
      requires forall i :: from <= i < |links| ==>
                 w.first <= links[i].sourcePage <= w.last && states[links[i].sourcePage] == Scanning
      modifies this`links, states
      ensures links == old(links)[..from] + ResolvedAll(old(links)[from..], pageCount, lookup)
      ensures states[..] == Settled(old(states[..]), w, Ready)
    {
      hide Resolved, BrokenTargets;
      ghost var was, statesWere := links, states[..];
      for page := w.first to w.last + 1
        invariant |links| == |was|
        invariant forall i :: 0 <= i < |links| ==>
                    links[i] == if i >= from && was[i].sourcePage < page
                                then Resolved(was[i], BrokenTargets(was[from..], was[i].sourcePage), pageCount, lookup)
                                else was[i]
        invariant forall p :: 0 <= p < MAX_PAGES ==>
                    states[p] == if w.first <= p < page && statesWere[p] == Scanning then Ready else statesWere[p]
      {
        if states[page] != Scanning {
          continue;
        }
        ghost var before := links;
        SameCounts(was[from..], before[from..], page);
        ResolvePage(from, page, lookup);
        states[page] := Ready;
      }
    }

    /** `mark_pdf_link_worker_failed`: parsed links go again, and the claimed pages have failed. */
    method MarkFailed(w: Worker)
      requires states.Length == MAX_PAGES && w.first <= w.last < MAX_PAGES
      modifies this`links, states
      ensures links == if parsed && w.firstLink < |old(links)| then old(links)[..w.firstLink] else old(links)
      ensures states[..] == Settled(old(states[..]), w, Failed)
    {
      ghost var was := states[..];
      if parsed {
        var first := if w.firstLink > |links| then |links| else w.firstLink;
        links := links[..first];
      }
      ghost var kept := links;
      for page := w.first to w.last + 1
        invariant links == kept
        invariant forall p :: 0 <= p < MAX_PAGES ==>
                    states[p] == if w.first <= p < page && was[p] == Scanning then Failed else was[p]
      {
        if states[page] == Scanning {
          states[page] := Failed;
        }
      }
      assert states[..] == Settled(was, w, Failed);
    }

    /** A worker that has ended is settled one way or the other. */
    method SettleScan(w: Worker, outcome: Outcome, lookup: Lookup)
      requires Valid() && worker == Some(w) && !outcome.StillRunning?
      modifies this`links, this`parsed, this`revision, states
      ensures var ok := Accepted(w, old(revision), |old(links)|, killed, outcome);
              && (ok ==> links == old(links) + ResolvedAll(Parsed(outcome.lines, w.first, old(states[..])), pageCount, lookup))
              && (!ok ==> links == old(links))
              && states[..] == Settled(old(states[..]), w, if ok then Ready else Failed)
              && revision == if ok then NextRevision(old(revision)) else old(revision)
    {
      hide ResolvedAll, Parsed, Consistent, Covered;
      ghost var was := links;
      var ok := false;
      if !killed && !outcome.Died? {
        ok := FinishOutput(w, outcome, lookup);
      }
      if !ok {
        assert parsed ==> links[..w.firstLink] == was;
        MarkFailed(w);
        assert links == was;
      }
    }

    /**
     `check_pdf_link_worker`: kill a worker that takes too long, and settle one that has ended.
     A scan is atomic: either all its links are added and its pages are ready, or the list is exactly
     as it was and its pages have failed.
     */
    method Check(outcome: Outcome, late: bool, lookup: Lookup) returns (ended: bool)
      requires Valid()
      modifies this`links, this`parsed, this`killed, this`worker, this`revision, states
      ensures Valid() && Does(old(Now()), Checking(outcome, late, lookup), Now())
      ensures ended <==> old(worker).Some? && !outcome.StillRunning?
      ensures ended ==> worker.None? && Scanning !in states[..]
    {
      hide ResolvedAll, Parsed, Settled, Accepted, Consistent;
      ghost var was, e := Now(), Checking(outcome, late, lookup);
      if worker.None? {
        return false;
      }
      var w := worker.value;
      if !killed && late {
        killed := true;
      }
      if outcome.StillRunning? {
        StepKeeps(was, e, Now());
        return false;
      }
      AllSettled(states[..], w, Ready);
      AllSettled(states[..], w, Failed);
      SettleScan(w, outcome, lookup);
      worker, killed, parsed := None, false, false;
      ended := true;
      StepKeeps(was, e, Now());
    }

    /** `select_link` and `clear_link_selection`: another link is selected, and a scan under way will be refused. */
    method SelectionMoves()
      requires Valid()
      modifies this`revision
      ensures Valid() && Does(old(Now()), Selecting, Now())
    {
      revision := NextRevision(revision);
    }

    /** `remap_document_links` after the text was laid out again: every link is looked up, and none comes or goes. */
    method Remap(newPageCount: nat, lookup: Lookup)
      requires Valid()
      modifies this`links, this`revision, this`pageCount
      ensures Valid() && Does(old(Now()), Remapping(newPageCount, lookup), Now())
    {
      hide Inv;
      ghost var before := Now();
      pageCount := newPageCount;
      ghost var was := links;
      for i := 0 to |links|
        invariant pageCount == newPageCount && revision == old(revision) && |links| == |was|
        invariant forall k :: 0 <= k < |links| ==> links[k] == if k < i then Remapped(was[k], lookup) else was[k]
      {
        links := links[i := Remapped(links[i], lookup)];
      }
      revision := NextRevision(revision);
      assert links == RemappedAll(was, lookup);
      StepKeeps(before, Remapping(newPageCount, lookup), Now());
    }

    /** `free_document_links`: cancel the worker and forget every link and every page. */
    method Reset()
      requires Valid()
      modifies this`links, this`parsed, this`killed, this`worker, this`revision, states
      ensures Valid() && Does(old(Now()), Resetting, Now())
    {
      worker, killed, parsed := None, false, false;
      links := [];
      forall p | 0 <= p < states.Length {
        states[p] := Unscanned;
      }
      revision := NextRevision(revision);
      assert states[..] == Fresh(pageCount).states;
    }
  }

  /** What a successful scan leaves for a page it scanned: the parsed links of that page, once and in order. */
  lemma ScanGivesParsedLinks(links: seq<Link>, parsed: seq<Link>, pageCount: nat, lookup: Lookup, page: nat)
    requires forall i :: 0 <= i < |links| ==> links[i].sourcePage != page
    ensures LinksOfPage(links + ResolvedAll(parsed, pageCount, lookup), page) == LinksOfPage(parsed, page)
  {
    var added := ResolvedAll(parsed, pageCount, lookup);
    LinksOfPageAdds(links, added, page);
    NoLinksOfPage(links, page);
    SameLinksOfPage(added, parsed, page);
    assert [] + LinksOfPage(added, page) == LinksOfPage(added, page);
  }

  lemma {:induction false} SameCounts(a: seq<Link>, b: seq<Link>, page: nat)
    requires |a| == |b|
    requires forall i :: 0 <= i < |a| ==> a[i].sourcePage == b[i].sourcePage && a[i].targetPage == b[i].targetPage
    ensures PageLinks(a, page) == PageLinks(b, page) && SelfLinks(a, page) == SelfLinks(b, page)
    ensures BrokenTargets(a, page) == BrokenTargets(b, page)
  {
    if a != [] {
      SameCounts(a[..|a| - 1], b[..|b| - 1], page);
    }
  }

  // ----- what the parts mean -----

  /** The requested pages that exist. */
  lemma RangeIs(firstPage: int, lastPage: int, pageCount: nat, page: nat)
    ensures FirstOf(firstPage) <= page <= LastOf(lastPage, pageCount)
            <==> firstPage <= page <= lastPage && page < pageCount && page < 20000
  {
  }

  ghost predicate IsOn(links: seq<Link>, i: nat, page: nat) {
    i < |links| && links[i].sourcePage == page
  }

  ghost predicate IsToItself(links: seq<Link>, i: nat, page: nat) {
    IsOn(links, i, page) && links[i].targetPage == page
  }

  ghost function OnPage(links: seq<Link>, page: nat): (r: set<nat>) {
    set i: nat | i < |links| && IsOn(links, i, page)
  }

  ghost function ToItself(links: seq<Link>, page: nat): (r: set<nat>) {
    set i: nat | i < |links| && IsToItself(links, i, page)
  }

  lemma OneMoreOnPage(links: seq<Link>, page: nat)
    requires links != []
    ensures var n: nat := |links| - 1;
            && OnPage(links, page) == OnPage(links[..n], page) + (if IsOn(links, n, page) then {n} else {})
            && ToItself(links, page) == ToItself(links[..n], page) + (if IsToItself(links, n, page) then {n} else {})
            && n !in OnPage(links[..n], page) && n !in ToItself(links[..n], page)
  {
    var n: nat := |links| - 1;
    assert forall i: nat :: i < n ==> links[..n][i] == links[i];
    assert forall i: nat :: i < n ==> (IsOn(links[..n], i, page) <==> IsOn(links, i, page));
    assert forall i: nat :: i < n ==> (IsToItself(links[..n], i, page) <==> IsToItself(links, i, page));
  }

  lemma {:induction false} CountsAre(links: seq<Link>, page: nat)
    ensures PageLinks(links, page) == |OnPage(links, page)| && SelfLinks(links, page) == |ToItself(links, page)|
  {
    if links != [] {
      hide OnPage, ToItself;
      CountsAre(links[..|links| - 1], page);
      OneMoreOnPage(links, page);
    }
  }

  /**
   A link needs its target repaired when the target is no page of the document, or when it leads to its own page
   and so do at least three quarters of the links on that page, of which there are three or more.
   */
  ghost predicate NeedsRepair(links: seq<Link>, i: nat, pageCount: nat)
    requires i < |links|
  {
    var link := links[i];
    || !(0 <= link.targetPage < pageCount)
    || (link.targetPage == link.sourcePage && |OnPage(links, link.sourcePage)| >= 3
        && 4 * |ToItself(links, link.sourcePage)| >= 3 * |OnPage(links, link.sourcePage)|)
  }

  /** A link with the place where it is found, and with its target: the page it names, or the heading it must mean. */
  ghost predicate IsPlaced(link: Link, was: Link, repaired: bool, lookup: Lookup) {
    && link.text == was.text && link.sourcePage == was.sourcePage && link.targetPage == was.targetPage
    && link.place.Place? && link.place.repaired == repaired
    && (link.place.line, link.place.start, link.place.end) == lookup.locate(was)
    && link.place.targetLine == if repaired then lookup.headingAfter(was, link.place.line) else lookup.headingOn(was)
  }

  lemma ResolvedIs(links: seq<Link>, i: nat, pageCount: nat, lookup: Lookup)
    requires i < |links|
    ensures IsPlaced(ResolvedAll(links, pageCount, lookup)[i], links[i], NeedsRepair(links, i, pageCount), lookup)
  {
    hide PageLinks, SelfLinks;
    CountsAre(links, links[i].sourcePage);
  }

  /** A new layout finds each link and its target again, the same way as before. */
  lemma RemappedIs(links: seq<Link>, i: nat, lookup: Lookup)
    requires i < |links|
    ensures IsPlaced(RemappedAll(links, lookup)[i], links[i], links[i].place.Place? && links[i].place.repaired, lookup)
  {
  }

  /** A worker has ended well, and neither link list nor revision has changed since it was started. */
  ghost predicate EndsWell(s: State, outcome: Outcome, late: bool) {
    && s.worker.Some? && outcome.Output? && outcome.closes && !s.killed && !late
    && s.worker.value.revision == s.revision && s.worker.value.startCount == |s.links|
  }

  /** The links added are those found for the pages that were being scanned, each looked up and its target resolved. */
  ghost predicate Adds(s: State, lines: seq<OutputLine>, lookup: Lookup, links: seq<Link>)
    requires s.worker.Some?
  {
    && |s.links| <= |links| && links[..|s.links|] == s.links
    && exists found: seq<Link> :: |found| == |links| - |s.links| && AreFound(s, lines, found)
         && forall i :: 0 <= i < |found| ==> IsPlaced(links[|s.links| + i], found[i], NeedsRepair(found, i, s.pageCount), lookup)
  }

  ghost predicate AreFound(s: State, lines: seq<OutputLine>, found: seq<Link>)
    requires s.worker.Some?
  {
    forall page: nat ::
      LinksOfPage(found, page)
      == if page < |s.states| && s.states[page] == Scanning
         then LinksOn(page, FoundFor(lines, |lines|, s.worker.value.first, page)) else []
  }

  /** What a check does to the scanner. */
  lemma CheckIs(s: State, outcome: Outcome, late: bool, lookup: Lookup)
    ensures var t := Checked(s, outcome, late, lookup);
            if s.worker.None? then t == s
            else if outcome.StillRunning? then t == s.(killed := s.killed || late)
            else
              var well := EndsWell(s, outcome, late);
              && t.worker.None? && !t.killed && t.pageCount == s.pageCount && |t.states| == |s.states|
              && (forall p :: 0 <= p < |s.states| ==>
                    t.states[p] == if s.states[p] == Scanning then if well then Ready else Failed else s.states[p])
              && (if well then t.revision == (s.revision + 1) % 0x1_0000_0000 && Adds(s, outcome.lines, lookup, t.links)
                  else t.revision == s.revision && t.links == s.links)
  {
    hide Parsed, ResolvedAll, Adds;
    if EndsWell(s, outcome, late) {
      AddedAre(s, outcome.lines, lookup);
    }
  }

  lemma AddedAre(s: State, lines: seq<OutputLine>, lookup: Lookup)
    requires s.worker.Some?
    ensures Adds(s, lines, lookup, s.links + ResolvedAll(Parsed(lines, s.worker.value.first, s.states), s.pageCount, lookup))
  {
    hide Parsed, ResolvedAll, IsPlaced, NeedsRepair, AreFound;
    var found := Parsed(lines, s.worker.value.first, s.states);
    var added := ResolvedAll(found, s.pageCount, lookup);
    FoundAre(s, lines);
    forall i: nat | i < |found|
      ensures IsPlaced((s.links + added)[|s.links| + i], found[i], NeedsRepair(found, i, s.pageCount), lookup)
    {
      ResolvedIs(found, i, s.pageCount, lookup);
      assert (s.links + added)[|s.links| + i] == added[i];
    }
  }

  lemma FoundAre(s: State, lines: seq<OutputLine>)
    requires s.worker.Some?
    ensures AreFound(s, lines, Parsed(lines, s.worker.value.first, s.states))
  {
    forall page: nat {
      ParsedIs(lines, s.worker.value.first, s.states, page);
    }
  }

  /** A scan that nothing comes between makes every unscanned page of the range ready, with the links found for it. */
  lemma UndisturbedScan(s: State, firstPage: int, lastPage: int, t: State, lines: seq<OutputLine>, lookup: Lookup, page: nat)
    requires Inv(s) && s.worker.None? && page < MAX_PAGES && s.states[page] == Unscanned
    requires firstPage <= page <= lastPage && page < s.pageCount && Does(s, Claiming(firstPage, lastPage, true), t)
    ensures var u := Checked(t, Output(lines, true), false, lookup);
            && t.worker.Some? && |u.states| == MAX_PAGES && u.states[page] == Ready && t.links <= u.links
            && LinksOfPage(u.links, page) == LinksOn(page, FoundFor(lines, |lines|, t.worker.value.first, page))
  {
    hide Parsed, ResolvedAll, LinksOfPage, LinksOn, FoundFor;
    assert AnyUnscanned(s.states, FirstOf(firstPage), LastOf(lastPage, s.pageCount));
    var parsed := Parsed(lines, t.worker.value.first, t.states);
    NoLinksOfPage(t.links, page);
    ScanGivesParsedLinks(t.links, parsed, t.pageCount, lookup, page);
    ParsedIs(lines, t.worker.value.first, t.states, page);
  }
}
