/** A value-level reference model of `astar`: one iteration of its main loop
    as functions on the pair (open list, closed list), the loop itself run for
    at most `fuel` iterations, and what can be proved about both. */
module Search {
  import opened Grid
  import opened Nodes

  /** The two lists of the search. */
  datatype State = State(open: seq<Node>, closed: seq<Node>)

  /** What the search returns: the path it built (empty when the open list
      ran out), or OutOfFuel when it was still running after `fuel` iterations. */
  datatype Outcome = Done(path: seq<Pos>) | OutOfFuel

  /** The open list holds the start node alone (g = h = f = 0); the closed list is empty. */
  function Initial(start: Pos): State {
    State([NewNode(None, start)], [])
  }

  /** `open[i]` has the smallest `f` of the list, and no entry before it has
      that `f`: the first minimum. */
  predicate IsFirstMin(open: seq<Node>, i: int) {
    && 0 <= i < |open|
    && (forall j :: 0 <= j < |open| ==> open[i].f <= open[j].f)
    && (forall j :: 0 <= j < i ==> open[j].f > open[i].f)
  }

  /** The entry the linear scan of the search picks: starting from the first
      entry, a later one replaces the current pick only if its `f` is strictly
      smaller. */
  function FirstMinIndex(open: seq<Node>): (i: nat)
    requires |open| > 0
    ensures i < |open|
  {
    if |open| == 1 then 0
    else
      var k := FirstMinIndex(open[..|open| - 1]);
      if open[|open| - 1].f < open[k].f then |open| - 1 else k
  }

  /** The scan picks the first entry of least `f`. */
  lemma {:induction false} FirstMinIndexIsFirstMin(open: seq<Node>)
    requires |open| > 0
    ensures IsFirstMin(open, FirstMinIndex(open))
  {
    if |open| > 1 {
      FirstMinIndexIsFirstMin(open[..|open| - 1]);
    }
  }

  /** The list without its `i`-th entry (the `pop(i)` of the search). */
  function RemoveAt(s: seq<Node>, i: nat): (r: seq<Node>)
    requires i < |s|
    ensures |r| == |s| - 1
  {
    s[..i] + s[i + 1..]
  }

  /** `pop(i)` takes out exactly the `i`-th entry and keeps the others in order. */
  lemma RemoveAtKeepsOrder(s: seq<Node>, i: nat)
    requires i < |s|
    ensures forall j :: 0 <= j < i ==> RemoveAt(s, i)[j] == s[j]
    ensures forall j :: i <= j < |s| - 1 ==> RemoveAt(s, i)[j] == s[j + 1]
    ensures multiset(RemoveAt(s, i)) + multiset{s[i]} == multiset(s)
  {
    assert s == s[..i] + [s[i]] + s[i + 1..];
  }

  /** The open entries have parents in the closed list, and the closed list
      is an arena whose parent links point backwards. */
  predicate ArenaOk(st: State) {
    && ParentsBelow(st.closed)
    && forall j :: 0 <= j < |st.open| ==> ParentBelow(st.open[j], |st.closed|)
  }

  /** The first part of an iteration: the first minimum is taken off the
      open list and appended to the closed list. */
  function PopMin(st: State): (r: State)
    requires |st.open| > 0
    ensures ArenaOk(st) ==> ArenaOk(r)
  {
    var i := FirstMinIndex(st.open);
    State(RemoveAt(st.open, i), st.closed + [st.open[i]])
  }

  /** A child of `current`, which sits at `index` in the closed list: one
      more step than its parent, the squared distance to `end` as heuristic,
      and their sum as priority. */
  function Costed(child: Node, current: Node, end: Pos): Node {
    var g := current.g + 1;
    var h := SqDist(child.pos, end);
    child.(g := g, h := h, f := g + h)
  }

  /** The children of `current`, in the order they are appended. */
  function Children(maze: Maze, current: Node, index: nat, end: Pos): seq<Node>
    requires Rectangular(maze)
  {
    var cells := NeighbourCells(maze, current.pos);
    seq(|cells|, j requires 0 <= j < |cells| => Costed(NewNode(Some(index), cells[j]), current, end))
  }

  /** The second part of an iteration that did not reach the goal: every
      child of the node just closed is appended to the open list. Neither a
      closed entry nor an open entry at the same cell keeps a child out. */
  function Grow(maze: Maze, end: Pos, s: State): (r: State)
    requires Rectangular(maze)
    requires |s.closed| > 0
    ensures ArenaOk(s) ==> ArenaOk(r)
  {
    var k := |s.closed| - 1;
    State(s.open + Children(maze, s.closed[k], k, end), s.closed)
  }

  /** One less than a positive count of iterations. */
  function Prev(n: nat): (m: nat)
    requires n > 0
    ensures m + 1 == n
  {
    n - 1
  }

  /** The main loop of the search, for at most `fuel` iterations. */
  function Run(maze: Maze, end: Pos, st: State, fuel: nat): Outcome
    requires Rectangular(maze)
    requires ArenaOk(st)
    decreases fuel
  {
    if |st.open| == 0 then Done([])
    else if fuel == 0 then OutOfFuel
    else
      var s := PopMin(st);
      var k := |s.closed| - 1;
      if s.closed[k].pos == end then Done(PathTo(s.closed, k))
      else Run(maze, end, Grow(maze, end, s), Prev(fuel))
  }

  /** One unfolding of Run for an iteration that does not close the goal. */
  lemma RunUnfolds(maze: Maze, end: Pos, st: State, fuel: nat, next: State)
    requires Rectangular(maze)
    requires ArenaOk(st)
    requires |st.open| > 0 && fuel > 0
    requires PopMin(st).closed[|PopMin(st).closed| - 1].pos != end
    requires next == Grow(maze, end, PopMin(st))
    ensures ArenaOk(next)
    ensures Run(maze, end, st, fuel) == Run(maze, end, next, Prev(fuel))
  {
  }

  /** One unfolding of Run for an iteration that does not close the goal,
      with the fuel left afterwards given as `nextFuel`. */
  lemma RunContinues(maze: Maze, end: Pos, st: State, fuel: nat, next: State, nextFuel: nat)
    requires Rectangular(maze)
    requires ArenaOk(st)
    requires |st.open| > 0 && fuel == nextFuel + 1
    requires PopMin(st).closed[|PopMin(st).closed| - 1].pos != end
    requires next == Grow(maze, end, PopMin(st))
    ensures ArenaOk(next)
    ensures Run(maze, end, st, fuel) == Run(maze, end, next, nextFuel)
  {
    RunUnfolds(maze, end, st, fuel, next);
    assert Prev(fuel) == nextFuel;
  }

  /** One unfolding of Run for an iteration that closes the goal. */
  lemma RunStops(maze: Maze, end: Pos, st: State, fuel: nat)
    requires Rectangular(maze)
    requires ArenaOk(st)
    requires |st.open| > 0 && fuel > 0
    requires PopMin(st).closed[|PopMin(st).closed| - 1].pos == end
    ensures ParentsBelow(PopMin(st).closed)
    ensures Run(maze, end, st, fuel) == Done(PathTo(PopMin(st).closed, |PopMin(st).closed| - 1))
  {
  }

  // ---------------------------------------------------------------------
  // The invariant of the search

  /** What holds of every node `n` whose parent, if any, sits in `arena`:
      a node without parent is the start node with zero costs; any other
      node stands on a walkable cell adjacent to its parent's, costs one step
      more than its parent, and has the squared distance to `end` as `h` and
      `g + h` as `f`. */
  predicate NodeFacts(maze: Maze, start: Pos, end: Pos, arena: seq<Node>, n: Node)
    requires Rectangular(maze)
  {
    match n.parent
    case None => n.pos == start && n.g == 0 && n.h == 0 && n.f == 0
    case Some(p) =>
      && p < |arena|
      && Adjacent(arena[p].pos, n.pos)
      && Walkable(maze, n.pos)
      && n.g == arena[p].g + 1
      && n.h == SqDist(n.pos, end)
      && n.f == n.g + n.h
  }

  predicate Consistent(maze: Maze, start: Pos, end: Pos, st: State)
    requires Rectangular(maze)
  {
    && ArenaOk(st)
    && (forall i :: 0 <= i < |st.closed| ==> NodeFacts(maze, start, end, st.closed, st.closed[i]))
    && (forall j :: 0 <= j < |st.open| ==> NodeFacts(maze, start, end, st.closed, st.open[j]))
  }

  /** A path from `start` to `goal`: it starts at `start`, ends at `goal`,
      and every later cell is walkable and adjacent to the one before. The
      first cell is not required to be walkable: the search never checks it. */
  predicate ValidPath(maze: Maze, start: Pos, goal: Pos, path: seq<Pos>)
    requires Rectangular(maze)
  {
    && |path| > 0
    && path[0] == start
    && path[|path| - 1] == goal
    && forall i :: 0 < i < |path| ==> Adjacent(path[i - 1], path[i]) && Walkable(maze, path[i])
  }

  lemma InitialConsistent(maze: Maze, start: Pos, end: Pos)
    requires Rectangular(maze)
    ensures Consistent(maze, start, end, Initial(start))
  {
  }

  /** Taking the first minimum off the open list keeps the invariant. */
  lemma PopMinConsistent(maze: Maze, start: Pos, end: Pos, st: State)
    requires Rectangular(maze)
    requires Consistent(maze, start, end, st)
    requires |st.open| > 0
    ensures Consistent(maze, start, end, PopMin(st))
  {
    var r := PopMin(st);
    var i := FirstMinIndex(st.open);
    forall n | n in st.open
      ensures NodeFacts(maze, start, end, r.closed, n)
    {
      var j :| 0 <= j < |st.open| && st.open[j] == n;
      assert NodeFacts(maze, start, end, st.closed, st.open[j]);
    }
    forall i | 0 <= i < |r.closed|
      ensures NodeFacts(maze, start, end, r.closed, r.closed[i])
    {
      if i < |st.closed| {
        assert NodeFacts(maze, start, end, st.closed, st.closed[i]);
      }
    }
    forall j | 0 <= j < |r.open|
      ensures NodeFacts(maze, start, end, r.closed, r.open[j])
    {
      assert r.open[j] in st.open by {
        if j < i { assert r.open[j] == st.open[j]; } else { assert r.open[j] == st.open[j + 1]; }
      }
    }
  }

  /** Appending the children of the node just closed keeps the invariant. */
  lemma GrowConsistent(maze: Maze, start: Pos, end: Pos, s: State)
    requires Rectangular(maze)
    requires Consistent(maze, start, end, s)
    requires |s.closed| > 0
    ensures Consistent(maze, start, end, Grow(maze, end, s))
  {
    var k := |s.closed| - 1;
    var current := s.closed[k];
    var cells := NeighbourCells(maze, current.pos);
    var kids := Children(maze, current, k, end);
    var next := Grow(maze, end, s);
    NeighbourCellsSound(maze, current.pos);
    forall j | 0 <= j < |next.open|
      ensures NodeFacts(maze, start, end, s.closed, next.open[j])
    {
      if j < |s.open| {
        assert next.open[j] == s.open[j];
      } else {
        assert next.open[j] == kids[j - |s.open|];
        assert Adjacent(current.pos, cells[j - |s.open|]);
      }
    }
  }

  /** Following parent links from any closed node gives a path from the start
      to that node, with one cell more than the node's `g`: `g` counts the
      parent links back to the start node. */
  lemma {:induction false} PathToValid(maze: Maze, start: Pos, end: Pos, closed: seq<Node>, k: nat)
    requires Rectangular(maze)
    requires ParentsBelow(closed)
    requires forall i :: 0 <= i < |closed| ==> NodeFacts(maze, start, end, closed, closed[i])
    requires k < |closed|
    ensures ValidPath(maze, start, closed[k].pos, PathTo(closed, k))
    ensures |PathTo(closed, k)| == closed[k].g + 1
    decreases k
  {
    assert NodeFacts(maze, start, end, closed, closed[k]);
    match closed[k].parent
    case None =>
    case Some(p) =>
      PathToValid(maze, start, end, closed, p);
      var prefix := PathTo(closed, p);
      var path := PathTo(closed, k);
      assert path == prefix + [closed[k].pos];
      forall i | 0 < i < |path|
        ensures Adjacent(path[i - 1], path[i]) && Walkable(maze, path[i])
      {
        if i < |prefix| {
          assert path[i - 1] == prefix[i - 1] && path[i] == prefix[i];
        }
      }
  }

  /** Every non-empty result of the search is a path from `start` to `end`. */
  lemma {:induction false} RunSound(maze: Maze, start: Pos, end: Pos, st: State, fuel: nat)
    requires Rectangular(maze)
    requires Consistent(maze, start, end, st)
    ensures Run(maze, end, st, fuel).Done? && Run(maze, end, st, fuel).path != [] ==>
      ValidPath(maze, start, end, Run(maze, end, st, fuel).path)
    decreases fuel
  {
    if |st.open| > 0 && fuel > 0 {
      var s := PopMin(st);
      var k := |s.closed| - 1;
      PopMinConsistent(maze, start, end, st);
      if s.closed[k].pos == end {
        PathToValid(maze, start, end, s.closed, k);
      } else {
        GrowConsistent(maze, start, end, s);
        RunSound(maze, start, end, Grow(maze, end, s), Prev(fuel));
      }
    }
  }

  /** After exactly `n` iterations from `st`, none of which closed a node on
      `end`, the open list is empty. */
  predicate ExhaustedAfter(maze: Maze, end: Pos, st: State, n: nat)
    requires Rectangular(maze)
    requires ArenaOk(st)
    decreases n
  {
    if n == 0 then |st.open| == 0
    else
      && |st.open| > 0
      && PopMin(st).closed[|PopMin(st).closed| - 1].pos != end
      && ExhaustedAfter(maze, end, Grow(maze, end, PopMin(st)), Prev(n))
  }

  /** If the open list runs out within `fuel` iterations, the search returns []. */
  lemma {:induction false} ExhaustedGivesEmpty(maze: Maze, end: Pos, st: State, fuel: nat, n: nat)
    requires Rectangular(maze)
    requires ArenaOk(st)
    ensures n <= fuel && ExhaustedAfter(maze, end, st, n) ==>
      Run(maze, end, st, fuel).Done? && |Run(maze, end, st, fuel).path| == 0
    decreases n
  {
    if n > 0 && |st.open| > 0 && fuel > 0 {
      var s := PopMin(st);
      if s.closed[|s.closed| - 1].pos != end {
        ExhaustedGivesEmpty(maze, end, Grow(maze, end, s), Prev(fuel), Prev(n));
      }
    }
  }

  /** If the search returns [], the open list ran out within `fuel` iterations. */
  lemma {:induction false} EmptyMeansExhausted(maze: Maze, end: Pos, st: State, fuel: nat)
    requires Rectangular(maze)
    requires ArenaOk(st)
    ensures Run(maze, end, st, fuel).Done? && |Run(maze, end, st, fuel).path| == 0 ==>
      exists n :: 0 <= n <= fuel && ExhaustedAfter(maze, end, st, n)
    decreases fuel
  {
    if |st.open| == 0 {
      assert ExhaustedAfter(maze, end, st, 0);
    } else if fuel > 0 {
      var s := PopMin(st);
      if s.closed[|s.closed| - 1].pos != end {
        var next := Grow(maze, end, s);
        EmptyMeansExhausted(maze, end, next, Prev(fuel));
        if Run(maze, end, next, Prev(fuel)).Done? && |Run(maze, end, next, Prev(fuel)).path| == 0 {
          var m :| 0 <= m <= Prev(fuel) && ExhaustedAfter(maze, end, next, m);
          var n := m + 1;
          assert Prev(n) == m;
          assert ExhaustedAfter(maze, end, st, n);
        }
      }
    }
  }

  /** An unreachable goal is not an error: the search returns [] exactly
      when, within the iterations it may run, the open list becomes empty
      without the goal ever being closed. */
  lemma EmptyResultExactly(maze: Maze, end: Pos, st: State, fuel: nat)
    requires Rectangular(maze)
    requires ArenaOk(st)
    ensures Run(maze, end, st, fuel).Done? && |Run(maze, end, st, fuel).path| == 0
        <==> exists n :: 0 <= n <= fuel && ExhaustedAfter(maze, end, st, n)
  {
    if Run(maze, end, st, fuel).Done? && |Run(maze, end, st, fuel).path| == 0 {
      EmptyMeansExhausted(maze, end, st, fuel);
    }
    forall n | 0 <= n <= fuel && ExhaustedAfter(maze, end, st, n)
      ensures Run(maze, end, st, fuel).Done? && |Run(maze, end, st, fuel).path| == 0
    {
      ExhaustedGivesEmpty(maze, end, st, fuel, n);
    }
  }

  /** One iteration that does not reach the goal: exactly the first minimum
      leaves the open list, the others keep their order, it is appended to
      the closed list, and the open list then grows by exactly one entry per
      walkable neighbour of its cell, in the order of the moves, whatever
      the two lists already hold. */
  lemma IterationShape(maze: Maze, end: Pos, st: State)
    requires Rectangular(maze)
    requires |st.open| > 0
    ensures var i := FirstMinIndex(st.open);
            var next := Grow(maze, end, PopMin(st));
            var cells := NeighbourCells(maze, st.open[i].pos);
            && next.closed == st.closed + [st.open[i]]
            && |next.open| == |st.open| - 1 + |cells|
            && next.open[..|st.open| - 1] == RemoveAt(st.open, i)
            && forall j :: 0 <= j < |cells| ==>
                 next.open[|st.open| - 1 + j].pos == cells[j]
                 && next.open[|st.open| - 1 + j].parent == Some(|st.closed|)
  {
  }

  /** When the start is the goal, the first iteration returns the one-cell
      path, whether or not the start cell is in range or walkable. */
  lemma StartIsGoal(maze: Maze, start: Pos, fuel: nat)
    requires Rectangular(maze)
    requires fuel > 0
    ensures Run(maze, start, Initial(start), fuel) == Done([start])
  {
    var s := PopMin(Initial(start));
    assert s.closed == [NewNode(None, start)];
  }

  /** A start other than the goal with no walkable neighbour: the open list
      runs out after the first iteration and the search returns []. */
  lemma IsolatedStart(maze: Maze, start: Pos, end: Pos, fuel: nat)
    requires Rectangular(maze)
    requires start != end
    requires NeighbourCells(maze, start) == []
    requires fuel > 0
    ensures Run(maze, end, Initial(start), fuel) == Done([])
  {
    var s := PopMin(Initial(start));
    assert s == State([], [NewNode(None, start)]);
    assert Grow(maze, end, s).open == [];
  }

  /** Every walkable cell has a walkable neighbour. */
  ghost predicate NoDeadEnds(maze: Maze)
    requires Rectangular(maze)
  {
    forall p {:trigger NeighbourCells(maze, p)} :: Walkable(maze, p) ==> NeighbourCells(maze, p) != []
  }

  /** Every entry of `nodes` stands on a walkable cell. */
  predicate OnWalkableCells(maze: Maze, nodes: seq<Node>)
    requires Rectangular(maze)
  {
    forall j :: 0 <= j < |nodes| ==> Walkable(maze, nodes[j].pos)
  }

  /** An iteration that closes a walkable cell of a maze without dead ends
      leaves a non-empty open list whose entries all stand on walkable cells. */
  lemma GrowKeepsWalkable(maze: Maze, end: Pos, st: State)
    requires Rectangular(maze)
    requires NoDeadEnds(maze)
    requires |st.open| > 0
    requires OnWalkableCells(maze, st.open)
    ensures |Grow(maze, end, PopMin(st)).open| > 0
    ensures OnWalkableCells(maze, Grow(maze, end, PopMin(st)).open)
  {
    var s := PopMin(st);
    var i := FirstMinIndex(st.open);
    var next := Grow(maze, end, s);
    var cells := NeighbourCells(maze, st.open[i].pos);
    NeighbourCellsExact(maze, st.open[i].pos);
    assert Walkable(maze, st.open[i].pos);
    assert cells[0] in cells;
    forall j | 0 <= j < |next.open|
      ensures Walkable(maze, next.open[j].pos)
    {
      if j < |s.open| {
        if j < i { assert s.open[j] == st.open[j]; } else { assert s.open[j] == st.open[j + 1]; }
      } else {
        assert next.open[j].pos == cells[j - |s.open|];
        assert cells[j - |s.open|] in cells;
      }
    }
  }

  /** In a maze without dead ends, once every open entry stands on a walkable
      cell the open list never runs out: every closed node puts at least one
      child back. So the search never returns [], and with an unreachable
      goal it runs for ever (OutOfFuel for every fuel). */
  lemma {:induction false} NeverExhausted(maze: Maze, end: Pos, st: State, fuel: nat)
    requires Rectangular(maze)
    requires ArenaOk(st)
    requires NoDeadEnds(maze)
    requires |st.open| > 0
    requires OnWalkableCells(maze, st.open)
    ensures Run(maze, end, st, fuel).Done? ==> |Run(maze, end, st, fuel).path| > 0
    decreases fuel
  {
    if fuel > 0 {
      var s := PopMin(st);
      if s.closed[|s.closed| - 1].pos != end {
        GrowKeepsWalkable(maze, end, st);
        NeverExhausted(maze, end, Grow(maze, end, s), Prev(fuel));
      }
    }
  }

  /** The search started on a walkable cell of a maze without dead ends
      never returns []. */
  lemma NoEmptyResultWithoutDeadEnds(maze: Maze, start: Pos, end: Pos, fuel: nat)
    requires Rectangular(maze)
    requires NoDeadEnds(maze)
    requires Walkable(maze, start)
    ensures Run(maze, end, Initial(start), fuel).Done? ==> |Run(maze, end, Initial(start), fuel).path| > 0
  {
    NeverExhausted(maze, end, Initial(start), fuel);
  }
}
