/** Positions of links and their cyclic order. */
module LinkOrder {

  datatype Direction = Next | Previous

  /** A link: the page it belongs to, and the line (negative when it was not found) and byte where it starts. */
  datatype DocLink = DocLink(sourcePage: int, line: int, startByte: int)

  datatype Pos = Pos(line: int, byte: int)

  function At(link: DocLink): (p: Pos) {
    Pos(link.line, link.startByte)
  }

  /** `link_position_after` on positions. */
  predicate PosAfter(a: Pos, b: Pos) {
    if a.line != b.line then a.line > b.line else a.byte > b.byte
  }

  predicate PosBeyond(a: Pos, b: Pos, direction: Direction) {
    if direction.Next? then PosAfter(a, b) else PosAfter(b, a)
  }

  predicate Beyond(a: DocLink, b: DocLink, direction: Direction) {
    PosBeyond(At(a), At(b), direction)
  }

  predicate OnPage(link: DocLink, page: nat) {
    link.sourcePage == page && link.line >= 0
  }

  /** In the window, ahead of it, or behind it. */
  function Tier(link: DocLink, direction: Direction, firstLine: int, lastLine: int): (tier: nat) {
    if firstLine <= link.line <= lastLine then 0
    else if (direction.Next? && link.line > lastLine) || (direction.Previous? && link.line < firstLine) then 1
    else 2
  }

  predicate Nearer(a: DocLink, b: DocLink, direction: Direction, firstLine: int, lastLine: int) {
    var tierA, tierB := Tier(a, direction, firstLine, lastLine), Tier(b, direction, firstLine, lastLine);
    tierA < tierB || (tierA == tierB && Beyond(b, a, direction))
  }

  /** In reading order for Next, against it for Previous. */
  ghost predicate Earlier(a: DocLink, b: DocLink, direction: Direction) {
    match direction
    case Next => a.line < b.line || (a.line == b.line && a.startByte < b.startByte)
    case Previous => a.line > b.line || (a.line == b.line && a.startByte > b.startByte)
  }

  lemma BeyondIs(a: DocLink, b: DocLink, direction: Direction)
    ensures Beyond(a, b, direction) <==> Earlier(b, a, direction)
    ensures At(a) == At(b) <==> a.line == b.line && a.startByte == b.startByte
  {
  }

  ghost predicate InWindow(link: DocLink, firstLine: int, lastLine: int) {
    firstLine <= link.line <= lastLine
  }

  ghost predicate Ahead(link: DocLink, direction: Direction, firstLine: int, lastLine: int) {
    match direction
    case Next => link.line > lastLine
    case Previous => link.line < firstLine
  }

  /** The earliest link in the window; without one, the earliest ahead of it; without that, the earliest of the page. */
  ghost predicate Nearest(links: seq<DocLink>, page: nat, direction: Direction, firstLine: int, lastLine: int, best: nat)
    requires best < |links|
  {
    && links[best].sourcePage == page && links[best].line >= 0
    && forall i :: 0 <= i < |links| && links[i].sourcePage == page && links[i].line >= 0 ==>
         if InWindow(links[best], firstLine, lastLine) then
           InWindow(links[i], firstLine, lastLine) ==> !Earlier(links[i], links[best], direction)
         else
           && !InWindow(links[i], firstLine, lastLine)
           && if Ahead(links[best], direction, firstLine, lastLine) then
                Ahead(links[i], direction, firstLine, lastLine) ==> !Earlier(links[i], links[best], direction)
              else !Ahead(links[i], direction, firstLine, lastLine) && !Earlier(links[i], links[best], direction)
  }

  lemma NearestIs(links: seq<DocLink>, page: nat, direction: Direction, firstLine: int, lastLine: int, best: nat)
    requires best < |links| && OnPage(links[best], page)
    requires forall i :: 0 <= i < |links| && OnPage(links[i], page) ==>
               !Nearer(links[i], links[best], direction, firstLine, lastLine)
    ensures Nearest(links, page, direction, firstLine, lastLine, best)
  {
  }

  /** The outermost link of the page, and the first in the list at its position. */
  ghost predicate FirstOfAll(links: seq<DocLink>, page: nat, direction: Direction, edge: int) {
    && 0 <= edge < |links|
    && forall i :: 0 <= i < |links| && OnPage(links[i], page) ==>
         !Beyond(links[edge], links[i], direction) && (i < edge ==> At(links[i]) != At(links[edge]))
  }

  /** The nearest link of the page beyond another one, and the first in the list at its position. */
  ghost predicate FirstBeyond(links: seq<DocLink>, page: nat, direction: Direction, from: DocLink, best: int) {
    && 0 <= best < |links| && Beyond(links[best], from, direction)
    && forall i :: 0 <= i < |links| && OnPage(links[i], page) && Beyond(links[i], from, direction) ==>
         !Beyond(links[best], links[i], direction) && (i < best ==> At(links[i]) != At(links[best]))
  }

  /** The line shown at the top so that a line is in view. */
  function Scrolled(line: int, top: int, bodyHeight: nat): (r: int)
    requires line >= 0 && bodyHeight >= 1
    ensures r <= line < r + bodyHeight
    ensures top <= line < top + bodyHeight ==> r == top
  {
    if top <= line < top + bodyHeight then top
    else if line - bodyHeight / 3 < 0 then 0 else line - bodyHeight / 3
  }

  /** A line out of view is shown a third of the way down the window, or as near to that as the first line allows. */
  lemma ScrolledIs(line: int, top: int, bodyHeight: nat)
    requires line >= 0 && bodyHeight >= 1
    ensures var third, r := bodyHeight / 3, Scrolled(line, top, bodyHeight);
            if 0 <= line - top < bodyHeight then r == top
            else (line >= third ==> line - r == third) && (line <= third ==> r == 0)
  {
  }

  /** The distinct positions of the links of a page. */
  ghost function Positions(links: seq<DocLink>, page: nat): (s: set<Pos>) {
    set i | 0 <= i < |links| && OnPage(links[i], page) :: At(links[i])
  }

  /** The nearest position beyond `p`, or the outermost one when there is none. */
  ghost predicate Follows(s: set<Pos>, p: Pos, q: Pos, direction: Direction) {
    && q in s
    && if exists r :: r in s && PosBeyond(r, p, direction)
       then PosBeyond(q, p, direction) && forall r :: r in s && PosBeyond(r, p, direction) ==> !PosBeyond(q, r, direction)
       else forall r :: r in s ==> !PosBeyond(q, r, direction)
  }

  lemma LoopsGiveFollows(links: seq<DocLink>, page: nat, direction: Direction, selected: nat, edge: int, best: int, found: bool)
    requires selected < |links| && 0 <= best < |links| && OnPage(links[best], page)
    requires found ==> FirstBeyond(links, page, direction, links[selected], best)
    requires !found ==> best == edge && FirstOfAll(links, page, direction, edge)
    requires !found ==> forall i :: 0 <= i < |links| && OnPage(links[i], page) ==> !Beyond(links[i], links[selected], direction)
    ensures Follows(Positions(links, page), At(links[selected]), At(links[best]), direction)
  {
    var s := Positions(links, page);
    assert At(links[best]) in s;
    if found {
      assert PosBeyond(At(links[best]), At(links[selected]), direction);
      forall r | r in s && PosBeyond(r, At(links[selected]), direction) ensures !PosBeyond(At(links[best]), r, direction) {
        var i :| 0 <= i < |links| && OnPage(links[i], page) && At(links[i]) == r;
        assert Beyond(links[i], links[selected], direction);
      }
    } else {
      forall r | r in s ensures !PosBeyond(At(links[best]), r, direction) && !PosBeyond(r, At(links[selected]), direction) {
        var i :| 0 <= i < |links| && OnPage(links[i], page) && At(links[i]) == r;
        assert !Beyond(links[i], links[selected], direction);
      }
    }
  }

  // ----- the positions in order -----

  function Opposite(direction: Direction): (r: Direction) {
    if direction.Next? then Previous else Next
  }

  /** Each position lies beyond the ones before it: (line, byte) order for Next, its reverse for Previous. */
  ghost predicate Ordered(order: seq<Pos>, direction: Direction) {
    forall i, j :: 0 <= i < j < |order| ==> PosBeyond(order[j], order[i], direction)
  }

  ghost predicate Lists(order: seq<Pos>, s: set<Pos>, direction: Direction) {
    Ordered(order, direction) && forall p :: p in s <==> p in order
  }

  lemma {:induction false} HasFirst(s: set<Pos>, direction: Direction) returns (m: Pos)
    requires s != {}
    ensures m in s && forall p :: p in s ==> !PosBeyond(m, p, direction)
    decreases |s|
  {
    var x :| x in s;
    var rest := s - {x};
    m := x;
    if rest != {} {
      var y := HasFirst(rest, direction);
      m := if PosBeyond(y, x, direction) then x else y;
    }
    forall p | p in s ensures !PosBeyond(m, p, direction) {
      assert p == x || p in rest;
    }
  }

  /** Every set of positions can be listed in order. */
  lemma {:induction false} CanBeListed(s: set<Pos>, direction: Direction) returns (order: seq<Pos>)
    ensures Lists(order, s, direction) && |order| == |s|
    decreases |s|
  {
    hide PosBeyond;
    if s == {} {
      order := [];
    } else {
      var m := HasFirst(s, direction);
      var rest := CanBeListed(s - {m}, direction);
      order := [m] + rest;
      forall j | 0 <= j < |rest| ensures PosBeyond(rest[j], m, direction) {
        assert rest[j] in s - {m};
        Trichotomy(rest[j], m, direction);
      }
      forall p ensures p in s <==> p in order {
        assert p in s <==> p == m || p in s - {m};
      }
    }
  }

  lemma Trichotomy(p: Pos, q: Pos, direction: Direction)
    ensures p == q || PosBeyond(p, q, direction) || PosBeyond(q, p, direction)
    ensures !(PosBeyond(p, q, direction) && PosBeyond(q, p, direction))
    ensures PosBeyond(p, q, direction) <==> PosBeyond(q, p, Opposite(direction))
  {
  }

  function Successor(i: nat, n: nat): (j: nat)
    requires i < n
    ensures j < n
  {
    if i + 1 < n then i + 1 else 0
  }

  function Predecessor(i: nat, n: nat): (j: nat)
    requires i < n
    ensures j < n && Successor(j, n) == i
  {
    if i > 0 then i - 1 else n - 1
  }

  lemma Outranked(s: set<Pos>, order: seq<Pos>, j: nat, to: nat, direction: Direction)
    requires Lists(order, s, direction) && j < |order| && to < |order|
    ensures j < to ==> PosBeyond(order[to], order[j], direction) && !PosBeyond(order[j], order[to], direction)
    ensures j == to ==> !PosBeyond(order[to], order[j], direction)
  {
  }

  /** One step goes to the neighbour in the list, and wraps at its end. */
  lemma StepIsSuccessor(s: set<Pos>, order: seq<Pos>, i: nat, q: Pos, direction: Direction)
    requires Lists(order, s, direction) && i < |order| && Follows(s, order[i], q, direction)
    ensures q == order[Successor(i, |order|)]
  {
    hide PosBeyond;
    var j :| 0 <= j < |order| && order[j] == q;
    var to := Successor(i, |order|);
    assert order[to] in s;
    Outranked(s, order, i, to, direction);
    Outranked(s, order, to, j, direction);
    Outranked(s, order, j, i, direction);
    if i + 1 < |order| {
      assert PosBeyond(order[to], order[i], direction);
      assert !PosBeyond(order[j], order[to], direction);
    } else {
      forall r | r in s ensures !PosBeyond(r, order[i], direction) {
        var k :| 0 <= k < |order| && order[k] == r;
        Outranked(s, order, k, i, direction);
      }
      assert !PosBeyond(order[j], order[to], direction);
    }
  }

  /** A step the other way goes to the neighbour before it. */
  lemma StepBackIsPredecessor(s: set<Pos>, order: seq<Pos>, i: nat, q: Pos, direction: Direction)
    requires Lists(order, s, direction) && i < |order| && Follows(s, order[i], q, Opposite(direction))
    ensures q == order[Predecessor(i, |order|)]
  {
    hide PosBeyond;
    assert q in order;
    var j :| 0 <= j < |order| && order[j] == q;
    var to := Predecessor(i, |order|);
    forall a: Pos, b: Pos ensures PosBeyond(a, b, Opposite(direction)) <==> PosBeyond(b, a, direction) {
      Trichotomy(b, a, direction);
    }
    Outranked(s, order, to, i, direction);
    Outranked(s, order, j, to, direction);
    Outranked(s, order, i, j, direction);
    assert order[to] in s;
    if i > 0 {
      assert PosBeyond(order[to], order[i], Opposite(direction));
    } else {
      forall r | r in s ensures !PosBeyond(r, order[i], Opposite(direction)) {
        assert r in order;
        var k :| 0 <= k < |order| && order[k] == r;
        Outranked(s, order, i, k, direction);
      }
    }
    assert !PosBeyond(order[j], order[to], Opposite(direction));
  }

  // ----- runs of steps on one page -----

  /** Every step of a run goes to the following position, while the page and its links stay as they are. */
  ghost predicate Run(s: set<Pos>, run: seq<Pos>, direction: Direction) {
    forall k :: 0 <= k < |run| - 1 ==> Follows(s, run[k], run[k + 1], direction)
  }

  lemma InPositions(links: seq<DocLink>, page: nat, i: nat)
    requires i < |links| && OnPage(links[i], page)
    ensures At(links[i]) in Positions(links, page)
  {
  }

  /** The place in the list after `k` steps of a round. */
  function Around(i: nat, k: nat, n: nat): (j: nat)
    requires i < n && k <= n
    ensures j < n
  {
    if i + k < n then i + k else i + k - n
  }

  lemma {:induction false} RunWalksTheList(s: set<Pos>, order: seq<Pos>, run: seq<Pos>, i: nat, k: nat, direction: Direction)
    requires Lists(order, s, direction) && i < |order| && k < |run| && k <= |order|
    requires run[0] == order[i] && Run(s, run, direction)
    ensures run[k] == order[Around(i, k, |order|)]
  {
    hide Follows, Lists;
    if k > 0 {
      RunWalksTheList(s, order, run, i, k - 1, direction);
      assert Follows(s, run[k - 1], run[k], direction);
      StepIsSuccessor(s, order, Around(i, k - 1, |order|), run[k], direction);
    }
  }

  /** All positions are visited once, in order with one wrap, and then the first one again. */
  ghost predicate VisitsEachOnce(s: set<Pos>, run: seq<Pos>, direction: Direction) {
    && |run| == |s| + 1 && run[|s|] == run[0]
    && (forall p :: p in s ==> exists k :: 0 <= k < |s| && run[k] == p)
    && (forall j, k :: 0 <= j < k < |s| ==> run[j] != run[k])
    && exists w :: 0 < w <= |s| && WrapsAt(run[..|s|], w, direction)
  }

  /**
   Starting on a link of the page, as many steps as there are distinct positions visit each of them
   once, come back to the start, and go through them in order with one wrap.
   */
  lemma StepsVisitEachOnce(s: set<Pos>, run: seq<Pos>, direction: Direction)
    requires |run| == |s| + 1 && run[0] in s && Run(s, run, direction)
    ensures VisitsEachOnce(s, run, direction)
  {
    hide Follows, Run, PosBeyond;
    var order := CanBeListed(s, direction);
    var n := |order|;
    var i :| 0 <= i < n && order[i] == run[0];
    forall k | 0 <= k <= n ensures run[k] == order[Around(i, k, n)] {
      RunWalksTheList(s, order, run, i, k, direction);
    }
    forall p | p in s ensures exists k :: 0 <= k < |s| && run[k] == p {
      var j :| 0 <= j < n && order[j] == p;
      var k := if j >= i then j - i else j - i + n;
      assert Around(i, k, n) == j && run[k] == p;
    }
    forall j, k | 0 <= j < k < n ensures run[j] != run[k] {
      var a, b := Around(i, j, n), Around(i, k, n);
      Outranked(s, order, a, b, direction);
      Outranked(s, order, b, a, direction);
    }
    RotationWraps(s, order, run[..n], i, direction);
  }

  /** In order up to the wrap and from it on, with everything after the wrap before everything up to it. */
  ghost predicate WrapsAt(run: seq<Pos>, w: nat, direction: Direction)
    requires w <= |run|
  {
    && Ordered(run[..w], direction) && Ordered(run[w..], direction)
    && forall j, k :: 0 <= j < w <= k < |run| ==> PosBeyond(run[j], run[k], direction)
  }

  lemma RotationWraps(s: set<Pos>, order: seq<Pos>, run: seq<Pos>, i: nat, direction: Direction)
    requires Lists(order, s, direction) && |run| == |order| && i < |order|
    requires forall k :: 0 <= k < |run| ==> run[k] == order[Around(i, k, |order|)]
    ensures WrapsAt(run, |order| - i, direction)
  {
    hide PosBeyond;
  }

  /** A step and a step the other way come back to the same position. */
  lemma PreviousUndoesNext(s: set<Pos>, p: Pos, q: Pos, r: Pos, direction: Direction)
    requires p in s && Follows(s, p, q, direction) && Follows(s, q, r, Opposite(direction))
    ensures r == p
  {
    hide Follows;
    var order := CanBeListed(s, direction);
    var i :| 0 <= i < |order| && order[i] == p;
    StepIsSuccessor(s, order, i, q, direction);
    StepBackIsPredecessor(s, order, Successor(i, |order|), r, direction);
  }
}
