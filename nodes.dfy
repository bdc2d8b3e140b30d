/** The search node of `astar` and the rebuilding of a path from it.

    A node's parent is the node it was expanded from. Here the parent is the
    index of that node in the closed list, which serves as the arena of
    expanded nodes: a node is only ever given children right after it has
    been appended to the closed list, so its index there is known and fixed. */
module Nodes {
  import opened Grid

  datatype Option<T> = None | Some(value: T)

  /** One explored cell: its parent (None for the start node), its position,
      the cost `g` from the start, the heuristic `h` and the priority `f`. */
  datatype Node = Node(parent: Option<nat>, pos: Pos, g: int, h: int, f: int)

  /** A freshly built node: the three costs start at 0. */
  function NewNode(parent: Option<nat>, pos: Pos): Node {
    Node(parent, pos, 0, 0, 0)
  }

  /** Node equality of the source: two nodes are equal when their positions are. */
  predicate SamePosition(a: Node, b: Node) {
    a.pos == b.pos
  }

  /** The parent of `n`, if any, comes before index `bound` of the arena. */
  predicate ParentBelow(n: Node, bound: nat) {
    n.parent.None? || n.parent.value < bound
  }

  /** Every parent link of the arena points to an earlier entry, so following
      parent links always ends, at a node without a parent. */
  predicate ParentsBelow(arena: seq<Node>) {
    forall i :: 0 <= i < |arena| ==> ParentBelow(arena[i], i)
  }

  /** The positions met when walking parent links from `arena[k]` back to a
      node without a parent, listed from that node to `arena[k]`. */
  function PathTo(arena: seq<Node>, k: nat): (path: seq<Pos>)
    requires ParentsBelow(arena)
    requires k < |arena|
    ensures |path| > 0 && path[|path| - 1] == arena[k].pos
    decreases k
  {
    match arena[k].parent
    case None => [arena[k].pos]
    case Some(p) => PathTo(arena, p) + [arena[k].pos]
  }

  /** The sequence read back to front. */
  function Reverse<T>(s: seq<T>): (r: seq<T>)
    ensures |r| == |s|
    ensures forall i :: 0 <= i < |s| ==> r[i] == s[|s| - 1 - i]
  {
    if s == [] then [] else [s[|s| - 1]] + Reverse(s[..|s| - 1])
  }
}
