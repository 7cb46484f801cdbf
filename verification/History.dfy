/**
 Back and forward in the browser: two bounded stacks of addresses, and a cache
 of the pages that were left, with their scroll position and selection.
 */
module History {
  import opened Options

  const MAX_HISTORY: nat := 128

  datatype Mode = Replace | Normal | Back | Forward

  /** The page shown: its text if it has one, the scroll position, the selection, and how it was loaded. */
  datatype View<P> = View(page: Option<P>, top: int, selectedLink: int, selectedControl: int, usedWebkit: bool)

  datatype Snapshot<P> = Snapshot(url: string, view: View<P>)

  /** Where the user is: the addresses behind, the current one, and those ahead (the nearest last). */
  datatype Trail = Trail(back: seq<string>, current: string, forward: seq<string>)

  // ----- the stacks -----

  /** `stack_push`: an empty address is ignored, and a full stack drops its oldest entry. */
  function Pushed(stack: seq<string>, url: string): (r: seq<string>)
    ensures |stack| <= MAX_HISTORY ==> |r| <= MAX_HISTORY
    ensures url != "" && |stack| < MAX_HISTORY ==> r == stack + [url]
  {
    if url == "" then stack
    else if |stack| == MAX_HISTORY then stack[1..] + [url]
    else stack + [url]
  }

  /** `stack_pop`. */
  function Popped(stack: seq<string>): (r: seq<string>) {
    if stack == [] then [] else stack[..|stack| - 1]
  }

  /** The stacks after a navigation, and the address it landed on. */
  function Moved(t: Trail, mode: Mode, landing: string): (r: Trail) {
    var leaves := t.current != "" && t.current != landing;
    match mode
    case Replace => Trail(t.back, landing, t.forward)
    case Normal => if leaves then Trail(Pushed(t.back, t.current), landing, []) else Trail(t.back, landing, t.forward)
    case Back => Trail(Popped(t.back), landing, if leaves then Pushed(t.forward, t.current) else t.forward)
    case Forward => Trail(if leaves then Pushed(t.back, t.current) else t.back, landing, Popped(t.forward))
  }

  /** What holds of the stacks in every reachable state. */
  ghost predicate Bounded(t: Trail) {
    && |t.back| + |t.forward| <= MAX_HISTORY
    && (forall i :: 0 <= i < |t.back| ==> t.back[i] != "")
    && forall i :: 0 <= i < |t.forward| ==> t.forward[i] != ""
  }

  /** Back is only taken with something behind, Forward with something ahead. */
  predicate Possible(t: Trail, mode: Mode) {
    (mode.Back? ==> t.back != []) && (mode.Forward? ==> t.forward != [])
  }

  /** No navigation breaks the bound, and Back and Forward never evict: they only move entries across. */
  lemma MovesKeepBound(t: Trail, mode: Mode, landing: string)
    requires Bounded(t) && Possible(t, mode)
    ensures Bounded(Moved(t, mode, landing))
    ensures mode.Back? ==> Moved(t, mode, landing).back + [t.back[|t.back| - 1]] == t.back
                           && t.forward <= Moved(t, mode, landing).forward
    ensures mode.Forward? ==> Moved(t, mode, landing).forward + [t.forward[|t.forward| - 1]] == t.forward
                              && t.back <= Moved(t, mode, landing).back
  {
    match mode
    case Replace =>
    case Normal =>
    case Back => assert t.back[..|t.back| - 1] + [t.back[|t.back| - 1]] == t.back;
    case Forward => assert t.forward[..|t.forward| - 1] + [t.forward[|t.forward| - 1]] == t.forward;
  }

  /**
   A followed link that leads to another address leaves nothing ahead, and the address left behind the others, of
   which the oldest goes when the stack is full; one that leads to the same address changes neither stack. Replacing
   changes neither. Back takes the nearest address behind and puts the address left ahead, and Forward the other
   way round, each unless it lands on the address it left.
   */
  lemma StacksAfter(t: Trail, mode: Mode, landing: string)
    requires Bounded(t) && Possible(t, mode)
    ensures var r := Moved(t, mode, landing);
            var left := if t.current != "" && t.current != landing then [t.current] else [];
            && r.current == landing
            && (mode == Replace ==> r.back == t.back && r.forward == t.forward)
            && (mode == Normal && left == [] ==> r.back == t.back && r.forward == t.forward)
            && (mode == Normal && left != [] ==>
                  r.forward == [] && r.back == (if |t.back| == 128 then t.back[1..] else t.back) + left)
            && (mode == Back ==> r.back == t.back[..|t.back| - 1] && r.forward == t.forward + left)
            && (mode == Forward ==> r.forward == t.forward[..|t.forward| - 1] && r.back == t.back + left)
  {
  }

  /** Back after following a link restores what was behind and the address left; what lies ahead is the link alone. */
  lemma BackAfterLink(t: Trail, landing: string)
    requires Bounded(t) && |t.back| < MAX_HISTORY && t.current != "" && landing != "" && t.current != landing
    ensures StepBack(Moved(t, Normal, landing)) == Trail(t.back, t.current, [landing])
  {
    var r := Moved(t, Normal, landing);
    StacksAfter(t, Normal, landing);
    assert r.back[..|r.back| - 1] == t.back;
    assert [] + [landing] == [landing];
  }

  /** The trails of a run of navigations: each takes a possible mode and lands somewhere. */
  ghost predicate Run(trails: seq<Trail>) {
    && |trails| > 0 && trails[0].back == trails[0].forward == []
    && forall k :: 0 <= k < |trails| - 1 ==>
         exists mode, landing :: Possible(trails[k], mode) && trails[k + 1] == Moved(trails[k], mode, landing)
  }

  /** In every reachable state the two stacks together hold at most `MAX_HISTORY` entries. */
  lemma {:induction false} RunIsBounded(trails: seq<Trail>, k: nat)
    requires Run(trails) && k < |trails|
    ensures Bounded(trails[k])
  {
    if k > 0 {
      RunIsBounded(trails, k - 1);
      var mode, landing :| Possible(trails[k - 1], mode) && trails[k - 1 + 1] == Moved(trails[k - 1], mode, landing);
      MovesKeepBound(trails[k - 1], mode, landing);
    }
  }

  // ----- Back and Forward that land on the address asked for -----

  function StepBack(t: Trail): (r: Trail) {
    if t.back == [] then t else Moved(t, Back, t.back[|t.back| - 1])
  }

  function StepForward(t: Trail): (r: Trail) {
    if t.forward == [] then t else Moved(t, Forward, t.forward[|t.forward| - 1])
  }

  function Backs(t: Trail, k: nat): (r: Trail)
    decreases k
  {
    if k == 0 then t else Backs(StepBack(t), k - 1)
  }

  function Forwards(t: Trail, k: nat): (r: Trail) {
    if k == 0 then t else StepForward(Forwards(t, k - 1))
  }

  /** The last `k` addresses behind and the current one: no two neighbours are the same. */
  predicate NeighboursDiffer(t: Trail, k: nat)
    requires k <= |t.back|
    decreases k
  {
    k == 0 || (t.current != t.back[|t.back| - 1] && NeighboursDiffer(StepBack(t), k - 1))
  }

  function Held(t: Trail): (n: nat) {
    |t.back| + |t.forward|
  }

  /** A step never adds an entry, and Back drops one when it meets the same address twice or leaves no address. */
  lemma OneStep(t: Trail)
    requires Bounded(t)
    ensures Bounded(StepBack(t)) && Held(StepBack(t)) <= Held(t)
    ensures Bounded(StepForward(t)) && Held(StepForward(t)) <= Held(t)
    ensures t.back != [] ==> |StepBack(t).back| == |t.back| - 1
    ensures t.back != [] && (t.current == "" || t.current == t.back[|t.back| - 1]) ==> Held(StepBack(t)) < Held(t)
  {
    if t.back != [] {
      MovesKeepBound(t, Back, t.back[|t.back| - 1]);
    }
    if t.forward != [] {
      MovesKeepBound(t, Forward, t.forward[|t.forward| - 1]);
    }
  }

  lemma {:induction false} StepsOnlyDrop(t: Trail, k: nat)
    requires Bounded(t)
    ensures Bounded(Backs(t, k)) && Held(Backs(t, k)) <= Held(t)
    ensures Bounded(Forwards(t, k)) && Held(Forwards(t, k)) <= Held(t)
    decreases k
  {
    hide Moved, StepBack, StepForward, Bounded, Held;
    if k > 0 {
      OneStep(t);
      StepsOnlyDrop(StepBack(t), k - 1);
      StepsOnlyDrop(t, k - 1);
      OneStep(Forwards(t, k - 1));
    }
  }

  lemma ForwardUndoesBack(t: Trail)
    requires Bounded(t) && t.back != [] && t.current != "" && t.current != t.back[|t.back| - 1]
    ensures StepForward(StepBack(t)) == t && StepBack(t).current != ""
  {
    var b := StepBack(t);
    assert b.forward == t.forward + [t.current];
    assert StepForward(b).back == t.back[..|t.back| - 1] + [t.back[|t.back| - 1]];
  }

  /**
   `k` times Back and `k` times Forward restore the current address and both stacks if and only if there is a
   current address and the addresses passed differ from their neighbours. A reload that was redirected can put
   the same address twice in a row on the trail; Back then forgets one of them.
   */
  lemma {:induction false} BacksThenForwards(t: Trail, k: nat)
    requires Bounded(t) && k <= |t.back|
    ensures Forwards(Backs(t, k), k) == t <==> k == 0 || (t.current != "" && NeighboursDiffer(t, k))
    decreases k
  {
    hide Moved, StepBack, StepForward, Bounded, Held;
    if k > 0 {
      var b := StepBack(t);
      OneStep(t);
      StepsOnlyDrop(b, k - 1);
      StepsOnlyDrop(Backs(b, k - 1), k);
      if t.current != "" && t.current != t.back[|t.back| - 1] {
        ForwardUndoesBack(t);
        BacksThenForwards(b, k - 1);
        if !NeighboursDiffer(b, k - 1) {
          SomethingIsLost(b, k - 1);
        }
      }
    }
  }

  lemma {:induction false} SomethingIsLost(t: Trail, k: nat)
    requires Bounded(t) && k <= |t.back| && !NeighboursDiffer(t, k)
    ensures Held(Backs(t, k)) < Held(t)
    decreases k
  {
    hide Moved, StepBack, StepForward, Bounded, Held;
    OneStep(t);
    var b := StepBack(t);
    if t.current == t.back[|t.back| - 1] {
      StepsOnlyDrop(b, k - 1);
    } else {
      SomethingIsLost(b, k - 1);
    }
  }

  /** A reload redirected to the address before it: one Back and one Forward do not restore the stacks. */
  lemma RedirectedReloadLosesAnEntry()
    ensures exists t0: Trail, t1: Trail, t2: Trail :: Run([t0, t1, t2]) && t2.back != [] && t2.current != ""
                                                      && Forwards(Backs(t2, 1), 1) != t2
  {
    var t0 := Trail([], "a", []);
    var t1 := Moved(t0, Normal, "b");
    var t2 := Moved(t1, Replace, "a");
    var trails := [t0, t1, t2];
    assert trails[1] == Moved(trails[0], Normal, "b") && Possible(trails[0], Normal);
    assert trails[2] == Moved(trails[1], Replace, "a") && Possible(trails[1], Replace);
    assert Run(trails);
    assert t2 == Trail(["a"], "a", []);
    assert Backs(t2, 1) == StepBack(t2) == Trail([], "a", []);
    assert Forwards(StepBack(t2), 1) == StepForward(Forwards(StepBack(t2), 0)) == StepBack(t2);
  }

  /** Loading an address of the trail lands on that address. */
  ghost predicate Settled(t: Trail, normalize: string -> string) {
    && (forall u :: u in t.back || u in t.forward ==> normalize(u) == u)
    && (t.current != "" ==> normalize(t.current) == t.current)
  }

  /** Back and Forward bring up no new addresses. */
  lemma StepsStaySettled(t: Trail, normalize: string -> string)
    requires Settled(t, normalize)
    ensures Settled(StepBack(t), normalize) && Settled(StepForward(t), normalize)
  {
  }

  // ----- the cache of pages left -----

  ghost predicate UrlsDiffer<P>(cache: seq<Snapshot<P>>) {
    forall i, j :: 0 <= i < j < |cache| ==> cache[i].url != cache[j].url
  }

  function Urls<P>(cache: seq<Snapshot<P>>): (r: seq<string>)
    ensures |r| == |cache| && forall i :: 0 <= i < |r| ==> r[i] == cache[i].url
  {
    seq(|cache|, i requires 0 <= i < |cache| => cache[i].url)
  }

  /** Every entry of the cache is the view held when its address was last left. */
  ghost predicate Faithful<P>(cache: seq<Snapshot<P>>, lastLeft: map<string, View<P>>) {
    forall i :: 0 <= i < |cache| ==> cache[i].url in lastLeft && lastLeft[cache[i].url] == cache[i].view
  }

  /** The entries of other addresses that are in `now` were in `was`, and all of them from `first` on still are. */
  ghost predicate OthersStay<P(!new)>(was: seq<Snapshot<P>>, now: seq<Snapshot<P>>, url: string, first: nat) {
    && (forall i :: 0 <= i < |now| && now[i].url != url ==> now[i] in was)
    && forall i :: first <= i < |was| && was[i].url != url ==> was[i] in now
  }

  lemma ReplacedEntry<P(!new)>(cache: seq<Snapshot<P>>, lastLeft: map<string, View<P>>, index: nat, s: Snapshot<P>)
    requires UrlsDiffer(cache) && Faithful(cache, lastLeft) && index < |cache| && cache[index].url == s.url
    ensures UrlsDiffer(cache[index := s]) && Faithful(cache[index := s], lastLeft[s.url := s.view])
    ensures s.url in Urls(cache[index := s]) && OthersStay(cache, cache[index := s], s.url, 0)
  {
    var now := cache[index := s];
    assert Urls(now)[index] == s.url;
    forall i | 0 <= i < |cache| && i != index ensures cache[i] in now && now[i] in cache {
      assert now[i] == cache[i];
    }
  }

  lemma AddedEntry<P(!new)>(cache: seq<Snapshot<P>>, lastLeft: map<string, View<P>>, first: nat, s: Snapshot<P>)
    requires UrlsDiffer(cache) && Faithful(cache, lastLeft) && first <= |cache| && s.url !in Urls(cache)
    ensures var now := cache[first..] + [s];
            && UrlsDiffer(now) && Faithful(now, lastLeft[s.url := s.view])
            && s.url in Urls(now) && OthersStay(cache, now, s.url, first)
  {
    var now := cache[first..] + [s];
    assert forall i :: 0 <= i < |cache| ==> Urls(cache)[i] != s.url;
    assert Urls(now)[|now| - 1] == s.url;
    forall i | first <= i < |cache| ensures cache[i] in now {
      assert now[i - first] == cache[i];
    }
  }

  class Browser<P(==,!new)> {
    const normalize: string -> string
    var current: string
    var back: seq<string>
    var forward: seq<string>
    var cache: seq<Snapshot<P>>
    var view: View<P>
    /** The view that each address had when it was last left showing a page with text. */
    ghost var lastLeft: map<string, View<P>>

    ghost function Where(): (t: Trail)
      reads this
    {
      Trail(back, current, forward)
    }

    ghost predicate Valid()
      reads this
    {
      Bounded(Where()) && |cache| <= MAX_HISTORY && UrlsDiffer(cache) && Faithful(cache, lastLeft)
    }

    constructor (normalize: string -> string, view: View<P>)
      ensures Valid() && Where() == Trail([], "", []) && cache == []
    {
      this.normalize, this.view := normalize, view;
      current, back, forward, cache, lastLeft := "", [], [], [], map[];
    }

    /** `page_cache_find`. */
    method Find(url: string) returns (index: int)
      ensures index >= 0 <==> url != "" && url in Urls(cache)
      ensures index >= 0 ==> index < |cache| && cache[index].url == url
    {
      if url == "" {
        return -1;
      }
      for i := 0 to |cache|
        invariant forall k :: 0 <= k < i ==> cache[k].url != url
      {
        if cache[i].url == url {
          assert Urls(cache)[i] == url;
          return i;
        }
      }
      return -1;
    }

    /** How many entries, the oldest, have to go for what is shown to be stored. */
    ghost function Evicted(url: string): (n: nat)
      reads this
    {
      if |cache| == MAX_HISTORY && url != "" && view.page.Some? && url !in Urls(cache) then 1 else 0
    }

    /**
     `page_cache_store_current`: what is shown replaces the entry of the address left, or is added, in place of
     the oldest entry when the cache is full.
     */
    method StoreCurrent(url: string)
      requires |cache| <= MAX_HISTORY && UrlsDiffer(cache) && Faithful(cache, lastLeft)
      modifies this`cache, this`lastLeft
      ensures |cache| <= MAX_HISTORY && UrlsDiffer(cache) && Faithful(cache, lastLeft)
      ensures url == "" || view.page.None? ==> cache == old(cache) && lastLeft == old(lastLeft)
      ensures url != "" && view.page.Some? ==> lastLeft == old(lastLeft)[url := view] && url in Urls(cache)
      ensures OthersStay(old(cache), cache, url, old(Evicted(url)))
    {
      if url == "" || view.page.None? {
        return;
      }
      hide UrlsDiffer, Faithful;
      var index := Find(url);
      if index >= 0 {
        ReplacedEntry(cache, lastLeft, index, Snapshot(url, view));
        cache := cache[index := Snapshot(url, view)];
      } else {
        var first := if |cache| == MAX_HISTORY then 1 else 0;
        AddedEntry(cache, lastLeft, first, Snapshot(url, view));
        cache := cache[first..] + [Snapshot(url, view)];
      }
      lastLeft := lastLeft[url := view];
    }

    /** What is remembered when the page shown is left: a page without text, or without an address, is not. */
    ghost function LeftNow(): (r: map<string, View<P>>)
      reads this
    {
      if current != "" && view.page.Some? then lastLeft[current := view] else lastLeft
    }

    /** `finish_navigation`: the page left goes to the cache, and its address to a stack. */
    method FinishNavigation(mode: Mode, landing: string)
      requires Valid() && Possible(Where(), mode)
      modifies this`back, this`forward, this`cache, this`lastLeft
      ensures |cache| <= MAX_HISTORY && UrlsDiffer(cache) && Faithful(cache, lastLeft)
      ensures Trail(back, landing, forward) == Moved(old(Where()), mode, landing)
      ensures lastLeft == old(LeftNow())
      ensures current != "" && view.page.Some? ==> current in Urls(cache)
      ensures current == "" || view.page.None? ==> cache == old(cache)
      ensures OthersStay(old(cache), cache, current, old(Evicted(current)))
    {
      var same := current != "" && current == landing;
      if current != "" {
        StoreCurrent(current);
      }
      if mode == Normal {
        if current != "" && !same {
          back := Pushed(back, current);
          forward := [];
        }
      } else if mode == Back {
        back := Popped(back);
        if current != "" && !same {
          forward := Pushed(forward, current);
        }
      } else if mode == Forward {
        forward := Popped(forward);
        if current != "" && !same {
          back := Pushed(back, current);
        }
      }
    }

    /** A page left without WebKit is in the cache. */
    predicate Hit(url: string)
      reads this
    {
      url != "" && exists i :: 0 <= i < |cache| && cache[i].url == url && !cache[i].view.usedWebkit
    }

    /** `page_cache_restore`: show a page from the cache exactly as it was when it was last left. */
    method Restore(url: string, mode: Mode) returns (hit: bool)
      requires Valid() && Possible(Where(), mode)
      modifies this`current, this`back, this`forward, this`cache, this`view, this`lastLeft
      ensures Valid() && hit == old(Hit(url))
      ensures hit ==> url in old(lastLeft) && view == old(lastLeft)[url] && Where() == Moved(old(Where()), mode, url)
                      && lastLeft == old(LeftNow())
      ensures hit && old(current) != "" && old(view).page.Some? ==> old(current) in Urls(cache)
      ensures !hit ==> Where() == old(Where()) && view == old(view) && cache == old(cache) && lastLeft == old(lastLeft)
    {
      var index := Find(url);
      if index < 0 {
        assert forall i :: 0 <= i < |cache| ==> url == "" || Urls(cache)[i] != url;
        return false;
      }
      if cache[index].view.usedWebkit {
        return false;
      }
      var restored := cache[index].view;
      MovesKeepBound(Where(), mode, url);
      FinishNavigation(mode, url);
      view := restored;
      current := url;
      hit := true;
    }

    /**
     `load_url_mode`: Back and Forward look in the cache first; otherwise the page is loaded, perhaps after a
     redirection to `effective`.
     */
    method Load(input: string, mode: Mode, forceJs: bool, effective: string, loaded: View<P>) returns (ok: bool)
      requires Valid() && Possible(Where(), mode)
      modifies this`current, this`back, this`forward, this`cache, this`view, this`lastLeft
      ensures Valid() && ok == (normalize(input) != "")
      ensures !ok ==> Where() == old(Where()) && view == old(view) && cache == old(cache) && lastLeft == old(lastLeft)
      ensures ok ==>
                var url := normalize(input);
                var hit := !forceJs && (mode.Back? || mode.Forward?) && old(Hit(url));
                && Where() == Moved(old(Where()), mode, if hit || effective == "" then url else effective)
                && (hit ==> url in old(lastLeft) && view == old(lastLeft)[url])
                && (!hit ==> view == loaded)
                && lastLeft == old(LeftNow())
                && (old(current) != "" && old(view).page.Some? ==> old(current) in Urls(cache))
    {
      var url := normalize(input);
      if url == "" {
        return false;
      }
      if !forceJs && (mode == Back || mode == Forward) {
        var hit := Restore(url, mode);
        if hit {
          return true;
        }
      }
      var landing := if effective == "" then url else effective;
      MovesKeepBound(Where(), mode, landing);
      FinishNavigation(mode, landing);
      view := loaded;
      current := landing;
      ok := true;
    }

    /** `go_back`. */
    method GoBack(forceJs: bool, effective: string, loaded: View<P>)
      requires Valid()
      modifies this`current, this`back, this`forward, this`cache, this`view, this`lastLeft
      ensures Valid()
      ensures old(back) == [] ==> Where() == old(Where()) && view == old(view)
      ensures old(back) != [] ==>
                var url := normalize(old(back)[|old(back)| - 1]);
                var hit := !forceJs && old(Hit(url));
                var landing := if hit || effective == "" then url else effective;
                if url == "" then Where() == old(Where()) && view == old(view)
                else
                  && Where() == Moved(old(Where()), Back, landing)
                  && (landing == old(back)[|old(back)| - 1] ==> Where() == StepBack(old(Where())))
                  && if hit then url in old(lastLeft) && view == old(lastLeft)[url] else view == loaded
    {
      if back == [] {
        return;
      }
      var _ := Load(back[|back| - 1], Back, forceJs, effective, loaded);
    }

    /** `go_forward`. */
    method GoForward(forceJs: bool, effective: string, loaded: View<P>)
      requires Valid()
      modifies this`current, this`back, this`forward, this`cache, this`view, this`lastLeft
      ensures Valid()
      ensures old(forward) == [] ==> Where() == old(Where()) && view == old(view)
      ensures old(forward) != [] ==>
                var url := normalize(old(forward)[|old(forward)| - 1]);
                var hit := !forceJs && old(Hit(url));
                var landing := if hit || effective == "" then url else effective;
                if url == "" then Where() == old(Where()) && view == old(view)
                else
                  && Where() == Moved(old(Where()), Forward, landing)
                  && (landing == old(forward)[|old(forward)| - 1] ==> Where() == StepForward(old(Where())))
                  && if hit then url in old(lastLeft) && view == old(lastLeft)[url] else view == loaded
    {
      if forward == [] {
        return;
      }
      var _ := Load(forward[|forward| - 1], Forward, forceJs, effective, loaded);
    }

    /**
     A page with text is left by a link to another address, and Back shows it again exactly as it was, with what
     was behind it behind it again and the page the link led to ahead. A page that WebKit had loaded is loaded again.
     */
    method FollowAndReturn(link: string, forceJs: bool, effective: string, linked: View<P>, redirected: string, loaded: View<P>)
      requires Valid() && current != "" && normalize(current) == current && view.page.Some?
      requires var landing := if effective == "" then normalize(link) else effective;
               normalize(link) != "" && landing != current
      modifies this`current, this`back, this`forward, this`cache, this`view, this`lastLeft
      ensures Valid()
      ensures old(view).usedWebkit ==> view == loaded
      ensures !old(view).usedWebkit ==>
                && view == old(view) && current == old(current)
                && back == (if |old(back)| == MAX_HISTORY then old(back)[1..] else old(back))
                && forward == [if effective == "" then normalize(link) else effective]
    {
      hide Moved, StepBack;
      ghost var was := Where();
      var landing := if effective == "" then normalize(link) else effective;
      var _ := Load(link, Normal, forceJs, effective, linked);
      StacksAfter(was, Normal, landing);
      ghost var left := Where();
      assert left.back[..|left.back| - 1] == if |was.back| == MAX_HISTORY then was.back[1..] else was.back;
      GoBack(false, redirected, loaded);
      StacksAfter(left, Back, was.current);
    }

    /** One step that is not redirected is a step of the trail. */
    method StepOnce(mode: Mode, forceJs: bool, loaded: View<P>)
      requires Valid() && Settled(Where(), normalize) && (mode == Back || mode == Forward)
      modifies this`current, this`back, this`forward, this`cache, this`view, this`lastLeft
      ensures Valid() && Settled(Where(), normalize)
      ensures Where() == if mode == Back then StepBack(old(Where())) else StepForward(old(Where()))
    {
      hide UrlsDiffer, Faithful, Moved;
      StepsStaySettled(Where(), normalize);
      if mode == Back {
        GoBack(forceJs, "", loaded);
      } else {
        GoForward(forceJs, "", loaded);
      }
    }

    /**
     `k` times Back and `k` times Forward, none of them redirected, restore the address and both stacks if and only
     if there was a current address and the addresses passed differ from their neighbours.
     */
    method GoBackAndForth(k: nat, forceJs: bool, loaded: nat -> View<P>)
      requires Valid() && Settled(Where(), normalize) && k <= |back|
      modifies this`current, this`back, this`forward, this`cache, this`view, this`lastLeft
      ensures Valid() && Where() == Forwards(Backs(old(Where()), k), k)
      ensures Where() == old(Where()) <==> k == 0 || (old(current) != "" && NeighboursDiffer(old(Where()), k))
    {
      hide Settled, UrlsDiffer, Faithful, NeighboursDiffer, StepBack, StepForward;
      ghost var t := Where();
      for i := 0 to k
        invariant Valid() && Settled(Where(), normalize) && Backs(Where(), k - i) == Backs(t, k)
      {
        StepOnce(Back, forceJs, loaded(i));
      }
      for i := 0 to k
        invariant Valid() && Settled(Where(), normalize) && Where() == Forwards(Backs(t, k), i)
      {
        StepOnce(Forward, forceJs, loaded(k + i));
      }
      BacksThenForwards(t, k);
    }

    /** `page_cache_clear`. */
    method ClearCache()
      requires Valid()
      modifies this`cache
      ensures Valid() && cache == []
    {
      cache := [];
    }

    /** Scrolling, selecting or laying out again changes only what is shown. */
    method Browse(shown: View<P>)
      requires Valid()
      modifies this`view
      ensures Valid() && view == shown
    {
      view := shown;
    }
  }
}
