/** The maze the search runs over: a rectangular list of rows of integers,
    where 0 is a walkable cell and any other value is a wall, and the eight
    moves the search tries around a cell. */
module Grid {

  /** A cell coordinate, (row, column). */
  datatype Pos = Pos(row: int, col: int)

  type Maze = seq<seq<int>>

  /** The eight moves tried around a cell, in the order `astar` tries them:
      left, right, up, down, then the four diagonals. */
  const Offsets: seq<(int, int)> :=
    [(0, -1), (0, 1), (-1, 0), (1, 0), (-1, -1), (-1, 1), (1, -1), (1, 1)]

  /** Every row has the length of the first one. */
  predicate Rectangular(maze: Maze) {
    forall r :: 0 <= r < |maze| ==> |maze[r]| == |maze[0]|
  }

  /** Two distinct cells that touch, by a side or a corner. */
  predicate Adjacent(a: Pos, b: Pos) {
    -1 <= b.row - a.row <= 1 && -1 <= b.col - a.col <= 1 && a != b
  }

  /** The range check of the search; the bounds come from the number of rows
      and the length of the first row, which is only looked at once the row
      is known to be in range (so an empty maze has no cell in range). */
  predicate InBounds(maze: Maze, p: Pos) {
    0 <= p.row <= |maze| - 1 && 0 <= p.col <= |maze[0]| - 1
  }

  /** In range, and the cell holds 0. */
  predicate Walkable(maze: Maze, p: Pos)
    requires Rectangular(maze)
  {
    InBounds(maze, p) && maze[p.row][p.col] == 0
  }

  /** The cell reached from `p` by the `k`-th move. */
  function Shift(p: Pos, k: nat): Pos
    requires k < |Offsets|
  {
    Pos(p.row + Offsets[k].0, p.col + Offsets[k].1)
  }

  /** Every move leads to an adjacent cell, and DirectionOf recovers it. */
  lemma ShiftMoves(p: Pos, k: nat)
    requires k < |Offsets|
    ensures Adjacent(p, Shift(p, k))
    ensures DirectionOf(p, Shift(p, k)) == k
  {
  }

  /** The index of the move that leads from `p` to the adjacent cell `q`. */
  function DirectionOf(p: Pos, q: Pos): (k: nat)
    requires Adjacent(p, q)
    ensures k < |Offsets|
    ensures Pos(p.row + Offsets[k].0, p.col + Offsets[k].1) == q
  {
    var d := (q.row - p.row, q.col - p.col);
    if d == (0, -1) then 0
    else if d == (0, 1) then 1
    else if d == (-1, 0) then 2
    else if d == (1, 0) then 3
    else if d == (-1, -1) then 4
    else if d == (-1, 1) then 5
    else if d == (1, -1) then 6
    else 7
  }

  /** The squared Euclidean distance, the heuristic `h` of the search. */
  function SqDist(a: Pos, b: Pos): (d: int)
    ensures d >= 0
    ensures d == 0 <==> a == b
  {
    var dr, dc := a.row - b.row, a.col - b.col;
    assert dr * dr >= 0 && dc * dc >= 0;
    assert dr != 0 ==> dr * dr > 0;
    assert dc != 0 ==> dc * dc > 0;
    dr * dr + dc * dc
  }

  /** The indices of those of the first `k` moves from `p` that land on a
      walkable cell, in the order they are tried. */
  function Directions(maze: Maze, p: Pos, k: nat): (ks: seq<nat>)
    requires Rectangular(maze)
    requires k <= |Offsets|
    ensures forall i :: 0 <= i < |ks| ==> ks[i] < k
  {
    if k == 0 then []
    else Directions(maze, p, k - 1) + (if Walkable(maze, Shift(p, k - 1)) then [k - 1] else [])
  }

  /** Of the first `k` moves, exactly those landing on a walkable cell are
      kept, each once and in increasing order. */
  lemma {:induction false} DirectionsExact(maze: Maze, p: Pos, k: nat)
    requires Rectangular(maze)
    requires k <= |Offsets|
    ensures forall i, j :: 0 <= i < j < |Directions(maze, p, k)| ==>
      Directions(maze, p, k)[i] < Directions(maze, p, k)[j]
    ensures forall d :: 0 <= d < k ==> (d in Directions(maze, p, k) <==> Walkable(maze, Shift(p, d)))
  {
    if k > 0 {
      DirectionsExact(maze, p, k - 1);
    }
  }

  /** How the list of kept moves grows when move `k` is considered. */
  lemma DirectionsNext(maze: Maze, p: Pos, k: nat)
    requires Rectangular(maze)
    requires k < |Offsets|
    ensures Walkable(maze, Shift(p, k)) ==> Directions(maze, p, k + 1) == Directions(maze, p, k) + [k]
    ensures !Walkable(maze, Shift(p, k)) ==> Directions(maze, p, k + 1) == Directions(maze, p, k)
  {
  }

  /** The cells the search turns into children of a node at `p`: every move
      whose target is in range and walkable, in the fixed order of Offsets. */
  function NeighbourCells(maze: Maze, p: Pos): seq<Pos>
    requires Rectangular(maze)
  {
    var ks := Directions(maze, p, |Offsets|);
    seq(|ks|, i requires 0 <= i < |ks| => Shift(p, ks[i]))
  }

  /** Every cell listed around `p` is adjacent to `p` and walkable. */
  lemma NeighbourCellsSound(maze: Maze, p: Pos)
    requires Rectangular(maze)
    ensures forall i :: 0 <= i < |NeighbourCells(maze, p)| ==>
      Adjacent(p, NeighbourCells(maze, p)[i]) && Walkable(maze, NeighbourCells(maze, p)[i])
  {
    var ks := Directions(maze, p, |Offsets|);
    DirectionsExact(maze, p, |Offsets|);
    forall i | 0 <= i < |ks|
      ensures Adjacent(p, Shift(p, ks[i])) && Walkable(maze, Shift(p, ks[i]))
    {
      ShiftMoves(p, ks[i]);
    }
  }

  /** The children of a cell are exactly its walkable adjacent cells, each
      once, in the order of the moves that reach them. */
  lemma NeighbourCellsExact(maze: Maze, p: Pos)
    requires Rectangular(maze)
    ensures forall q :: q in NeighbourCells(maze, p) <==> Adjacent(p, q) && Walkable(maze, q)
    ensures forall i, j :: 0 <= i < j < |NeighbourCells(maze, p)| ==>
      DirectionOf(p, NeighbourCells(maze, p)[i]) < DirectionOf(p, NeighbourCells(maze, p)[j])
  {
    forall k | 0 <= k < |Offsets|
      ensures Adjacent(p, Shift(p, k)) && DirectionOf(p, Shift(p, k)) == k
    {
      ShiftMoves(p, k);
    }
    var ks := Directions(maze, p, |Offsets|);
    DirectionsExact(maze, p, |Offsets|);
    var cells := NeighbourCells(maze, p);
    forall q | Adjacent(p, q) && Walkable(maze, q)
      ensures q in cells
    {
      var d := DirectionOf(p, q);
      assert Shift(p, d) == q;
      var i :| 0 <= i < |ks| && ks[i] == d;
      assert cells[i] == q;
    }
  }
}
