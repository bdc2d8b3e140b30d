/** The search `astar` as the source runs it: lists updated step by step,
    a linear scan for the next node, children built in a loop, and a path
    rebuilt by walking parent links. Each method is proved to compute what
    the reference model in module Search says. */
module AStar {
  import opened Grid
  import opened Nodes
  import opened Search

  /** The linear scan for the next node: the first entry whose `f` is
      smaller than that of every earlier entry and no larger than any later one. */
  method SelectMin(open: seq<Node>) returns (currentIndex: nat)
    requires |open| > 0
    ensures currentIndex == FirstMinIndex(open)
    ensures IsFirstMin(open, currentIndex)
  {
    var current := open[0];
    currentIndex := 0;
    for index := 0 to |open|
      invariant currentIndex < |open| && current == open[currentIndex]
      invariant index == 0 ==> currentIndex == 0
      invariant index > 0 ==> currentIndex == FirstMinIndex(open[..index])
    {
      if open[index].f < current.f {
        current := open[index];
        currentIndex := index;
      }
      assert open[..index + 1][..index] == open[..index];
    }
    assert open[..|open|] == open;
    FirstMinIndexIsFirstMin(open);
  }

  /** The children of `current` (closed at `parentIndex`) with their costs
      still 0: one per move, in the order of Offsets, skipping targets out of
      range and targets that are not 0 in the maze. */
  method GenerateChildren(maze: Maze, current: Node, parentIndex: nat) returns (children: seq<Node>)
    requires Rectangular(maze)
    ensures |children| == |NeighbourCells(maze, current.pos)|
    ensures forall j :: 0 <= j < |children| ==>
      children[j] == NewNode(Some(parentIndex), NeighbourCells(maze, current.pos)[j])
  {
    children := [];
    for k := 0 to |Offsets|
      invariant |children| == |Directions(maze, current.pos, k)|
      invariant forall j :: 0 <= j < |children| ==>
        children[j] == NewNode(Some(parentIndex), Shift(current.pos, Directions(maze, current.pos, k)[j]))
    {
      DirectionsNext(maze, current.pos, k);
      var nodePosition := Pos(current.pos.row + Offsets[k].0, current.pos.col + Offsets[k].1);
      assert nodePosition == Shift(current.pos, k);
      if nodePosition.row > |maze| - 1 || nodePosition.row < 0
         || nodePosition.col > |maze[0]| - 1 || nodePosition.col < 0
      {
        assert !InBounds(maze, nodePosition);
        continue;
      }
      if maze[nodePosition.row][nodePosition.col] != 0 {
        continue;
      }
      children := children + [NewNode(Some(parentIndex), nodePosition)];
    }
  }

  /** Walks parent links from `closed[k]`, collecting positions goal first,
      and returns them reversed. */
  method Reconstruct(closed: seq<Node>, k: nat) returns (path: seq<Pos>)
    requires ParentsBelow(closed)
    requires k < |closed|
    ensures path == PathTo(closed, k)
  {
    var collected: seq<Pos> := [];
    var current: Option<nat> := Some(k);
    while current.Some?
      invariant current.Some? ==> current.value < |closed|
      invariant PathTo(closed, k) ==
        (if current.Some? then PathTo(closed, current.value) else []) + Reverse(collected)
      decreases if current.Some? then current.value + 1 else 0
    {
      var node := closed[current.value];
      assert Reverse(collected + [node.pos]) == [node.pos] + Reverse(collected) by {
        assert (collected + [node.pos])[..|collected|] == collected;
      }
      collected := collected + [node.pos];
      current := node.parent;
    }
    path := Reverse(collected);
  }

  /** The loop over the children of `current` (closed at `parentIndex`):
      each one gets its costs and is appended to the open list. */
  method AddChildren(maze: Maze, open: seq<Node>, children: seq<Node>, current: Node, parentIndex: nat, end: Pos)
    returns (grown: seq<Node>)
    requires Rectangular(maze)
    requires |children| == |NeighbourCells(maze, current.pos)|
    requires forall j :: 0 <= j < |children| ==>
      children[j] == NewNode(Some(parentIndex), NeighbourCells(maze, current.pos)[j])
    ensures grown == open + Children(maze, current, parentIndex, end)
  {
    ghost var costed := Children(maze, current, parentIndex, end);
    grown := open;
    for j := 0 to |children|
      invariant grown == open + costed[..j]
    {
      var child := children[j];
      // The scan of the closed list for this child's cell has no effect.
      child := child.(g := current.g + 1);
      child := child.(h := SqDist(child.pos, end));
      child := child.(f := child.g + child.h);
      // Nor has the scan of the open list: the child is always appended.
      assert child == costed[j];
      assert costed[..j + 1] == costed[..j] + [child];
      grown := grown + [child];
    }
    assert costed[..|children|] == costed;
  }

  /** One iteration of the main loop on a non-empty open list: the first
      minimum is moved to the closed list; if it stands on `end` the path to
      it is rebuilt, otherwise its children are appended to the open list. */
  method Iterate(maze: Maze, end: Pos, open: seq<Node>, closed: seq<Node>)
    returns (open': seq<Node>, closed': seq<Node>, path: Option<seq<Pos>>)
    requires Rectangular(maze)
    requires |open| > 0 && ArenaOk(State(open, closed))
    ensures var popped := PopMin(State(open, closed));
      var k := |popped.closed| - 1;
      if popped.closed[k].pos == end
      then ParentsBelow(popped.closed) && path == Some(PathTo(popped.closed, k))
      else path == None && State(open', closed') == Grow(maze, end, popped)
  {
    ghost var before := State(open, closed);
    var currentIndex := SelectMin(open);
    var current := open[currentIndex];
    open' := RemoveAt(open, currentIndex);
    closed' := closed + [current];
    assert State(open', closed') == PopMin(before);
    var endNode := NewNode(None, end);
    if SamePosition(current, endNode) {
      var found := Reconstruct(closed', |closed'| - 1);
      return open', closed', Some(found);
    }
    var children := GenerateChildren(maze, current, |closed'| - 1);
    open' := AddChildren(maze, open', children, current, |closed'| - 1, end);
    path := None;
  }

  /** The search itself, for at most `fuel` iterations of its main loop.
      It computes what Run says, so a non-empty result is a path from
      `start` to `end` through walkable cells, one move at a time, and []
      comes back exactly when the open list ran out first. */
  method FindPath(maze: Maze, start: Pos, end: Pos, fuel: nat) returns (outcome: Outcome)
    requires Rectangular(maze)
    ensures outcome == Run(maze, end, Initial(start), fuel)
    ensures outcome.Done? && |outcome.path| > 0 ==> ValidPath(maze, start, end, outcome.path)
    ensures outcome.Done? && |outcome.path| == 0 <==>
      exists n :: 0 <= n <= fuel && ExhaustedAfter(maze, end, Initial(start), n)
  {
    InitialConsistent(maze, start, end);
    RunSound(maze, start, end, Initial(start), fuel);
    EmptyResultExactly(maze, end, Initial(start), fuel);
    var open := [NewNode(None, start)];
    var closed: seq<Node> := [];
    var remaining := fuel;
    ghost var result := Run(maze, end, Initial(start), fuel);
    while |open| > 0
      invariant ArenaOk(State(open, closed))
      invariant Run(maze, end, State(open, closed), remaining) == result
      decreases remaining
    {
      if remaining == 0 {
        return OutOfFuel;
      }
      ghost var before := State(open, closed);
      var path;
      open, closed, path := Iterate(maze, end, open, closed);
      if path.Some? {
        RunStops(maze, end, before, remaining);
        return Done(path.value);
      }
      ghost var left := remaining;
      remaining := remaining - 1;
      RunContinues(maze, end, before, left, State(open, closed), remaining);
    }
    return Done([]);
  }
}
