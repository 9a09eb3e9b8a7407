/** How a tree lies in memory: cells with parent, left and right links and a colour. */
module Arenas {
  import opened Basics
  import opened Trees

  /** One `rb_node_t`.  `parent` and `red` share the word `rb_parent_color` in C;
      that word is zero exactly if there is no parent and the colour is red. */
  datatype Cell = Cell(parent: int, left: int, right: int, red: bool) {
    predicate ZeroWord() { parent == NULL && red }
  }

  /** The content of a node after `memset(node, 0, sizeof(rb_node_t))`. */
  const ZEROED := Cell(NULL, NULL, NULL, true)

  type Arena = seq<Cell>

  ghost function Ptr(t: Tree): int {
    if t.Leaf? then NULL else t.id
  }

  ghost function HoleParent(p: Path): int {
    if p.Top? then NULL else p.id
  }

  ghost function RootPtr(p: Path, hole: int): int {
    match p
    case Top => hole
    case GoneLeft(up, i, _, _) => RootPtr(up, i)
    case GoneRight(up, _, i, _) => RootPtr(up, i)
  }

  ghost predicate IsTree(m: Arena, t: Tree, parent: int) {
    match t
    case Leaf => true
    case Node(l, i, red, r) =>
      i < |m| && m[i] == Cell(parent, Ptr(l), Ptr(r), red) && IsTree(m, l, i) && IsTree(m, r, i)
  }

  ghost predicate IsPath(m: Arena, p: Path, hole: int) {
    match p
    case Top => true
    case GoneLeft(up, i, red, r) =>
      i < |m| && m[i] == Cell(HoleParent(up), hole, Ptr(r), red) && IsTree(m, r, i) && IsPath(m, up, i)
    case GoneRight(up, l, i, red) =>
      i < |m| && m[i] == Cell(HoleParent(up), Ptr(l), hole, red) && IsTree(m, l, i) && IsPath(m, up, i)
  }

  /** The arena holds, from `root` on, the tree that `t` completes `p` to. */
  ghost predicate Shows(m: Arena, root: int, p: Path, t: Tree) {
    IsTree(m, t, HoleParent(p)) && IsPath(m, p, Ptr(t)) && root == RootPtr(p, Ptr(t)) && Apart(p, t)
  }

  ghost predicate SameOutside(m0: Arena, m1: Arena, s: set<nat>) {
    |m0| == |m1| && forall i :: 0 <= i < |m0| && i !in s ==> m0[i] == m1[i]
  }

  // ----- focusing

  lemma {:induction false} ShowsPlug(m: Arena, root: int, p: Path, t: Tree)
    ensures Shows(m, root, p, t) <==> Shows(m, root, Top, Plug(p, t))
  {
    match p
    case Top =>
    case GoneLeft(up, i, red, r) =>
      ShowsPlug(m, root, up, Node(t, i, red, r));
      assert Shows(m, root, p, t) <==> Shows(m, root, up, Node(t, i, red, r));
    case GoneRight(up, l, i, red) =>
      ShowsPlug(m, root, up, Node(l, i, red, t));
      assert Shows(m, root, p, t) <==> Shows(m, root, up, Node(l, i, red, t));
  }

  lemma Refocus(m: Arena, root: int, p: Path, t: Tree, p': Path, t': Tree)
    requires Shows(m, root, p, t) && Plug(p, t) == Plug(p', t')
    ensures Shows(m, root, p', t')
    ensures PathIds(p) + Ids(t) == PathIds(p') + Ids(t')
    ensures Before(p) + Inorder(t) + After(p) == Before(p') + Inorder(t') + After(p')
  {
    ShowsPlug(m, root, p, t);
    ShowsPlug(m, root, p', t');
    ApartPlug(p, t);
    ApartPlug(p', t');
    InorderPlug(p, t);
    InorderPlug(p', t');
  }

  lemma {:induction false} InRange(m: Arena, t: Tree, parent: int)
    requires IsTree(m, t, parent)
    ensures forall i :: i in Ids(t) ==> i < |m|
  {
    match t
    case Leaf =>
    case Node(l, i, _, r) => InRange(m, l, i); InRange(m, r, i);
  }

  lemma {:induction false} PathInRange(m: Arena, p: Path, hole: int)
    requires IsPath(m, p, hole)
    ensures forall i :: i in PathIds(p) ==> i < |m|
  {
    match p
    case Top =>
    case GoneLeft(up, i, _, r) => InRange(m, r, i); PathInRange(m, up, i);
    case GoneRight(up, l, i, _) => InRange(m, l, i); PathInRange(m, up, i);
  }

  lemma {:induction false} RootIsOnPath(p: Path, hole: int)
    requires !p.Top?
    ensures RootPtr(p, hole) >= 0 && RootPtr(p, hole) in PathIds(p)
  {
    match p
    case GoneLeft(up, i, _, _) => if !up.Top? { RootIsOnPath(up, i); }
    case GoneRight(up, _, i, _) => if !up.Top? { RootIsOnPath(up, i); }
  }

  // ----- what an update leaves standing

  /** `t` keeps its shape when only the parent link of its root changes. */
  lemma {:induction false} MovedTree(m0: Arena, m1: Arena, t: Tree, parent0: int, parent1: int)
    requires IsTree(m0, t, parent0) && Distinct(t)
    requires |m0| <= |m1|
    requires forall i :: i in Ids(t) && i < |m0| ==>
      m1[i] == if i == Ptr(t) then m0[i].(parent := parent1) else m0[i]
    ensures IsTree(m1, t, parent1)
  {
    match t
    case Leaf =>
    case Node(l, i, _, r) => MovedTree(m0, m1, l, i, i); MovedTree(m0, m1, r, i, i);
  }

  ghost function Redirected(p: Path, c: Cell, hole: int): Cell {
    if p.GoneLeft? then c.(left := hole) else c.(right := hole)
  }

  /** A path keeps its shape when only the link to its hole changes. */
  lemma {:induction false} MovedPath(m0: Arena, m1: Arena, p: Path, hole0: int, hole1: int)
    requires IsPath(m0, p, hole0) && PathDistinct(p)
    requires |m0| <= |m1|
    requires forall i :: i in PathIds(p) && i < |m0| ==>
      m1[i] == if i == HoleParent(p) then Redirected(p, m0[i], hole1) else m0[i]
    ensures IsPath(m1, p, hole1)
  {
    match p
    case Top =>
    case GoneLeft(up, i, _, r) => MovedTree(m0, m1, r, i, i); MovedPath(m0, m1, up, i, i);
    case GoneRight(up, l, i, _) => MovedTree(m0, m1, l, i, i); MovedPath(m0, m1, up, i, i);
  }

  lemma RootMoves(p: Path, hole0: int, hole1: int)
    ensures RootPtr(p, hole1) == if p.Top? then hole1 else RootPtr(p, hole0)
  {
  }

  // ----- painting

  ghost function Painted(t: Tree, x: nat, red: bool): (r: Tree)
    requires x in Ids(t)
    ensures Ptr(r) == Ptr(t) && Ids(r) == Ids(t) && Inorder(r) == Inorder(t)
    ensures Distinct(t) ==> Distinct(r)
  {
    if t.id == x then t.(red := red)
    else if x in Ids(t.left) then t.(left := Painted(t.left, x, red))
    else t.(right := Painted(t.right, x, red))
  }

  lemma {:induction false} PaintedTree(m: Arena, t: Tree, parent: int, x: nat, red: bool)
    requires IsTree(m, t, parent) && Distinct(t) && x in Ids(t)
    ensures x < |m| && IsTree(m[x := m[x].(red := red)], Painted(t, x, red), parent)
  {
    InRange(m, t, parent);
    var m1 := m[x := m[x].(red := red)];
    if t.id == x {
      MovedTree(m, m1, t.left, x, x);
      MovedTree(m, m1, t.right, x, x);
    } else if x in Ids(t.left) {
      PaintedTree(m, t.left, t.id, x, red);
      MovedTree(m, m1, t.right, t.id, t.id);
    } else {
      PaintedTree(m, t.right, t.id, x, red);
      MovedTree(m, m1, t.left, t.id, t.id);
    }
  }

  lemma PaintedShows(m: Arena, root: int, p: Path, t: Tree, x: nat, red: bool)
    requires Shows(m, root, p, t) && x in Ids(t)
    ensures x < |m| && Shows(m[x := m[x].(red := red)], root, p, Painted(t, x, red))
  {
    PaintedTree(m, t, HoleParent(p), x, red);
    PathInRange(m, p, Ptr(t));
    MovedPath(m, m[x := m[x].(red := red)], p, Ptr(t), Ptr(t));
  }
}
