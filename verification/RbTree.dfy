/** `ds/rbtree.h`: the tree with parent links, rotated and recoloured in place. */
module RbTrees {
  import Bits
  import opened Basics
  import opened Trees
  import opened Arenas
  import opened InsertFixup
  import opened EraseFixup
  import opened Unlinking
  import opened Walking

  /** Where a new node is linked: the `rb_node_t **rb_link` of the C code. */
  datatype Link = AtRoot | LeftOf(parent: nat) | RightOf(parent: nat)

  ghost function LinkTo(p: Path): Link {
    match p
    case Top => AtRoot
    case GoneLeft(_, i, _, _) => LeftOf(i)
    case GoneRight(_, _, i, _) => RightOf(i)
  }

  ghost function RotatedLeft(t: Tree): Tree
    requires t.Node? && t.right.Node?
  {
    var y := t.right;
    y.(left := t.(right := y.left))
  }

  ghost function RotatedRight(t: Tree): Tree
    requires t.Node? && t.left.Node?
  {
    var y := t.left;
    y.(right := t.(left := y.right))
  }

  lemma RotatedLeftKeeps(t: Tree)
    requires t.Node? && t.right.Node?
    ensures var u := RotatedLeft(t); Ids(u) == Ids(t) && Inorder(u) == Inorder(t) && (Distinct(t) ==> Distinct(u))
  {
    var a, x, b, y, c := t.left, t.id, t.right.left, t.right.id, t.right.right;
    assert Ids(t) == Ids(a) + {x} + (Ids(b) + {y} + Ids(c));
    Regroup(Inorder(a), x, Inorder(b), y, Inorder(c));
    assert Distinct(t) ==> Distinct(t.right);
  }

  lemma RotatedRightKeeps(t: Tree)
    requires t.Node? && t.left.Node?
    ensures var u := RotatedRight(t); Ids(u) == Ids(t) && Inorder(u) == Inorder(t) && (Distinct(t) ==> Distinct(u))
  {
    var a, y, b, x, c := t.left.left, t.left.id, t.left.right, t.id, t.right;
    assert Ids(t) == Ids(a) + {y} + Ids(b) + {x} + Ids(c);
    Regroup(Inorder(a), y, Inorder(b), x, Inorder(c));
    assert Distinct(t) ==> Distinct(t.left);
  }

  /** The cells that a left rotation at the root of `t` reads and writes. */
  lemma LeftSite(m: Arena, root: int, p: Path, t: Tree)
    requires Shows(m, root, p, t) && t.Node? && t.right.Node?
    ensures var x, y, b, q := t.id, t.right.id, Ptr(t.right.left), HoleParent(p);
      && x < |m| && y < |m| && x != y && m[x].parent == q && m[x].right == y && m[y].left == b
      && (b != NULL ==> 0 <= b < |m| && b != x && b != y && b != q)
      && (q != NULL ==> 0 <= q < |m| && q != x && q != y && (m[q].left == x <==> p.GoneLeft?) && (m[q].right == x <==> p.GoneRight?))
  {
    assert IsTree(m, t.right, t.id) && Distinct(t.right);
    assert IsTree(m, t.right.left, t.right.id) && Distinct(t.right.left);
  }

  ghost predicate LeftTurn(m0: Arena, m1: Arena, p: Path, t: Tree)
    requires t.Node? && t.right.Node?
  {
    var x, y, b, q := t.id, t.right.id, Ptr(t.right.left), HoleParent(p);
    && |m0| == |m1|
    && x < |m0| && m1[x] == m0[x].(right := b, parent := y)
    && y < |m0| && m1[y] == m0[y].(left := x, parent := q)
    && (0 <= b < |m0| ==> m1[b] == m0[b].(parent := x))
    && (0 <= q < |m0| ==> m1[q] == Redirected(p, m0[q], y))
    && (forall i :: 0 <= i < |m0| && i != x && i != y && i != b && i != q ==> m1[i] == m0[i])
  }

  /** The assignments of `rb_rotate_left`: `x` goes below `y`, and `b` changes sides. */
  ghost function LeftWired(m: Arena, x: nat, y: nat, b: int, q: int, onRight: bool): (m1: Arena)
    requires x < |m| && y < |m| && (b == NULL || 0 <= b < |m|) && (q == NULL || 0 <= q < |m|)
    ensures |m1| == |m|
  {
    var m1 := m[x := m[x].(right := b)];
    var m2 := if b == NULL then m1 else m1[b := m1[b].(parent := x)];
    var m3 := m2[y := m2[y].(left := x)];
    var m4 := m3[y := m3[y].(parent := q)];
    var m5 := if q == NULL then m4
              else if onRight then m4[q := m4[q].(right := y)]
              else m4[q := m4[q].(left := y)];
    m5[x := m5[x].(parent := y)]
  }

  lemma LeftWiredIsTurn(m: Arena, root: int, p: Path, t: Tree)
    requires Shows(m, root, p, t) && t.Node? && t.right.Node?
    ensures
      var x, y, b, q := t.id, t.right.id, Ptr(t.right.left), HoleParent(p);
      x < |m| && y < |m| && (b == NULL || 0 <= b < |m|) && (q == NULL || 0 <= q < |m|) &&
      LeftTurn(m, LeftWired(m, x, y, b, q, p.GoneRight?), p, t)
  {
    LeftSite(m, root, p, t);
  }

  lemma LeftTurnParts(m0: Arena, m1: Arena, root: int, p: Path, t: Tree)
    requires Shows(m0, root, p, t) && t.Node? && t.right.Node? && LeftTurn(m0, m1, p, t)
    ensures IsTree(m1, t.left, t.id) && IsTree(m1, t.right.left, t.id) && IsTree(m1, t.right.right, t.right.id)
    ensures IsPath(m1, p, t.right.id)
    ensures SameOutside(m0, m1, PathIds(p) + Ids(t))
  {
    hide Inorder;
    LeftSite(m0, root, p, t);
    var x, y, s := t.id, t.right.id, t.right;
    assert IsTree(m0, s, x) && Distinct(s) && Ids(t) == Ids(t.left) + {x} + Ids(s);
    assert Ids(s) == Ids(s.left) + {y} + Ids(s.right);
    MovedTree(m0, m1, t.left, x, x);
    MovedTree(m0, m1, s.left, y, x);
    MovedTree(m0, m1, s.right, y, y);
    MovedPath(m0, m1, p, x, y);
  }

  lemma LeftRotated(m0: Arena, m1: Arena, root0: int, root1: int, p: Path, t: Tree)
    requires Shows(m0, root0, p, t) && t.Node? && t.right.Node? && LeftTurn(m0, m1, p, t)
    requires root1 == if p.Top? then t.right.id else root0
    ensures Shows(m1, root1, p, RotatedLeft(t))
    ensures SameOutside(m0, m1, PathIds(p) + Ids(t))
  {
    LeftSite(m0, root0, p, t);
    LeftTurnParts(m0, m1, root0, p, t);
    RootMoves(p, t.id, t.right.id);
    RotatedLeftKeeps(t);
    assert IsTree(m0, t.right, t.id);
    assert IsTree(m1, RotatedLeft(t).left, t.right.id);
  }

  /** The cells that a right rotation at the root of `t` reads and writes. */
  lemma RightSite(m: Arena, root: int, p: Path, t: Tree)
    requires Shows(m, root, p, t) && t.Node? && t.left.Node?
    ensures var x, y, b, q := t.id, t.left.id, Ptr(t.left.right), HoleParent(p);
      && x < |m| && y < |m| && x != y && m[x].parent == q && m[x].left == y && m[y].right == b
      && (b != NULL ==> 0 <= b < |m| && b != x && b != y && b != q)
      && (q != NULL ==> 0 <= q < |m| && q != x && q != y && (m[q].left == x <==> p.GoneLeft?) && (m[q].right == x <==> p.GoneRight?))
  {
    assert IsTree(m, t.left, t.id) && Distinct(t.left);
    assert IsTree(m, t.left.right, t.left.id) && Distinct(t.left.right);
  }

  ghost predicate RightTurn(m0: Arena, m1: Arena, p: Path, t: Tree)
    requires t.Node? && t.left.Node?
  {
    var x, y, b, q := t.id, t.left.id, Ptr(t.left.right), HoleParent(p);
    && |m0| == |m1|
    && x < |m0| && m1[x] == m0[x].(left := b, parent := y)
    && y < |m0| && m1[y] == m0[y].(right := x, parent := q)
    && (0 <= b < |m0| ==> m1[b] == m0[b].(parent := x))
    && (0 <= q < |m0| ==> m1[q] == Redirected(p, m0[q], y))
    && (forall i :: 0 <= i < |m0| && i != x && i != y && i != b && i != q ==> m1[i] == m0[i])
  }

  /** The assignments of `rb_rotate_right`: `x` goes below `y`, and `b` changes sides. */
  ghost function RightWired(m: Arena, x: nat, y: nat, b: int, q: int, onRight: bool): (m1: Arena)
    requires x < |m| && y < |m| && (b == NULL || 0 <= b < |m|) && (q == NULL || 0 <= q < |m|)
    ensures |m1| == |m|
  {
    var m1 := m[x := m[x].(left := b)];
    var m2 := if b == NULL then m1 else m1[b := m1[b].(parent := x)];
    var m3 := m2[y := m2[y].(right := x)];
    var m4 := m3[y := m3[y].(parent := q)];
    var m5 := if q == NULL then m4
              else if onRight then m4[q := m4[q].(right := y)]
              else m4[q := m4[q].(left := y)];
    m5[x := m5[x].(parent := y)]
  }

  lemma RightWiredIsTurn(m: Arena, root: int, p: Path, t: Tree)
    requires Shows(m, root, p, t) && t.Node? && t.left.Node?
    ensures
      var x, y, b, q := t.id, t.left.id, Ptr(t.left.right), HoleParent(p);
      x < |m| && y < |m| && (b == NULL || 0 <= b < |m|) && (q == NULL || 0 <= q < |m|) &&
      RightTurn(m, RightWired(m, x, y, b, q, p.GoneRight?), p, t)
  {
    RightSite(m, root, p, t);
  }

  lemma RightTurnParts(m0: Arena, m1: Arena, root: int, p: Path, t: Tree)
    requires Shows(m0, root, p, t) && t.Node? && t.left.Node? && RightTurn(m0, m1, p, t)
    ensures IsTree(m1, t.right, t.id) && IsTree(m1, t.left.right, t.id) && IsTree(m1, t.left.left, t.left.id)
    ensures IsPath(m1, p, t.left.id)
    ensures SameOutside(m0, m1, PathIds(p) + Ids(t))
  {
    hide Inorder;
    RightSite(m0, root, p, t);
    var x, y, s := t.id, t.left.id, t.left;
    assert IsTree(m0, s, x) && Distinct(s) && Ids(t) == Ids(t.right) + {x} + Ids(s);
    assert Ids(s) == Ids(s.right) + {y} + Ids(s.left);
    MovedTree(m0, m1, t.right, x, x);
    MovedTree(m0, m1, s.right, y, x);
    MovedTree(m0, m1, s.left, y, y);
    MovedPath(m0, m1, p, x, y);
  }

  lemma RightRotated(m0: Arena, m1: Arena, root0: int, root1: int, p: Path, t: Tree)
    requires Shows(m0, root0, p, t) && t.Node? && t.left.Node? && RightTurn(m0, m1, p, t)
    requires root1 == if p.Top? then t.left.id else root0
    ensures Shows(m1, root1, p, RotatedRight(t))
    ensures SameOutside(m0, m1, PathIds(p) + Ids(t))
  {
    RightSite(m0, root0, p, t);
    RightTurnParts(m0, m1, root0, p, t);
    RootMoves(p, t.id, t.left.id);
    RotatedRightKeeps(t);
    assert IsTree(m0, t.left, t.id);
    assert IsTree(m1, RotatedRight(t).right, t.left.id);
  }

  lemma NothingTouched(m: Arena, p: Path, t: Tree)
    ensures SameNodes(p, t, p, t) && SameOutside(m, m, PathIds(p) + Ids(t))
  {}

  lemma Onward(m0: Arena, m1: Arena, m2: Arena, p0: Path, t0: Tree, p: Path, t: Tree, q: Path, u: Tree)
    requires SameNodes(p0, t0, p, t) && SameOutside(m0, m1, PathIds(p0) + Ids(t0))
    requires SameNodes(p, t, q, u) && SameOutside(m1, m2, PathIds(p) + Ids(t))
    ensures SameNodes(p0, t0, q, u) && SameOutside(m0, m2, PathIds(p0) + Ids(t0))
    ensures Inorder(Plug(q, u)) == Inorder(Plug(p0, t0))
  {
    hide PathIds, Ids, Inorder, Plug;
  }

  class RbTree {
    var root: int
    var nodes: Arena
    /** The tree that the arena holds between calls. */
    ghost var tree: Tree

    ghost predicate Valid()
      reads this
    {
      Shows(nodes, root, Top, tree) && RedBlack(tree)
    }

    constructor (n: nat)
      ensures Valid() && tree == Leaf && |nodes| == n
      ensures forall i :: 0 <= i < n ==> nodes[i] == ZEROED
    {
      root := NULL;
      nodes := seq(n, _ => ZEROED);
      tree := Leaf;
    }

    method LinkNode(x: nat, link: Link, ghost p: Path)
      requires Shows(nodes, root, p, Leaf) && x < |nodes| && x !in PathIds(p) && link == LinkTo(p)
      modifies this`root, this`nodes
      ensures Shows(nodes, root, p, Node(Leaf, x, true, Leaf))
      ensures SameOutside(old(nodes), nodes, PathIds(p) + {x})
    {
      PathInRange(nodes, p, NULL);
      ghost var m := nodes;
      match link {
        case AtRoot =>
          nodes := nodes[x := Cell(NULL, NULL, NULL, true)];
          root := x;
        case LeftOf(parent) =>
          nodes := nodes[x := Cell(parent, NULL, NULL, true)];
          nodes := nodes[parent := nodes[parent].(left := x)];
        case RightOf(parent) =>
          nodes := nodes[x := Cell(parent, NULL, NULL, true)];
          nodes := nodes[parent := nodes[parent].(right := x)];
      }
      MovedPath(m, nodes, p, NULL, x);
    }

    method SetColor(x: nat, red: bool, ghost p: Path, ghost t: Tree)
      requires Shows(nodes, root, p, t) && x in Ids(t)
      modifies this`nodes
      ensures Shows(nodes, root, p, Painted(t, x, red))
      ensures SameOutside(old(nodes), nodes, {x})
    {
      PaintedShows(nodes, root, p, t, x, red);
      nodes := nodes[x := nodes[x].(red := red)];
    }

    method RotateLeft(x: nat, ghost p: Path, ghost t: Tree)
      requires Shows(nodes, root, p, t) && Ptr(t) == x && t.right.Node?
      modifies this`root, this`nodes
      ensures Shows(nodes, root, p, RotatedLeft(t))
      ensures SameOutside(old(nodes), nodes, PathIds(p) + Ids(t))
    {
      hide Shows, LeftTurn;
      LeftSite(nodes, root, p, t);
      LeftWiredIsTurn(nodes, root, p, t);
      var right := nodes[x].right;
      var parent := nodes[x].parent;

      nodes := nodes[x := nodes[x].(right := nodes[right].left)];
      if nodes[x].right != NULL {
        nodes := nodes[nodes[right].left := nodes[nodes[right].left].(parent := x)];
      }

      nodes := nodes[right := nodes[right].(left := x)];
      nodes := nodes[right := nodes[right].(parent := parent)];

      if parent != NULL {
        if x == nodes[parent].left {
          nodes := nodes[parent := nodes[parent].(left := right)];
        } else {
          nodes := nodes[parent := nodes[parent].(right := right)];
        }
      } else {
        root := right;
      }

      nodes := nodes[x := nodes[x].(parent := right)];
      LeftRotated(old(nodes), nodes, old(root), root, p, t);
    }

    method RotateRight(x: nat, ghost p: Path, ghost t: Tree)
      requires Shows(nodes, root, p, t) && Ptr(t) == x && t.left.Node?
      modifies this`root, this`nodes
      ensures Shows(nodes, root, p, RotatedRight(t))
      ensures SameOutside(old(nodes), nodes, PathIds(p) + Ids(t))
    {
      hide Shows, RightTurn;
      RightSite(nodes, root, p, t);
      RightWiredIsTurn(nodes, root, p, t);
      var left := nodes[x].left;
      var parent := nodes[x].parent;

      nodes := nodes[x := nodes[x].(left := nodes[left].right)];
      if nodes[x].left != NULL {
        nodes := nodes[nodes[left].right := nodes[nodes[left].right].(parent := x)];
      }

      nodes := nodes[left := nodes[left].(right := x)];
      nodes := nodes[left := nodes[left].(parent := parent)];

      if parent != NULL {
        if x == nodes[parent].right {
          nodes := nodes[parent := nodes[parent].(right := left)];
        } else {
          nodes := nodes[parent := nodes[parent].(left := left)];
        }
      } else {
        root := left;
      }

      nodes := nodes[x := nodes[x].(parent := left)];
      RightRotated(old(nodes), nodes, old(root), root, p, t);
    }

    /** `memset` of a node that is not in the tree. */
    method Clear(x: nat)
      requires Valid() && x < |nodes| && x !in Ids(tree)
      modifies this`nodes
      ensures Valid() && nodes == old(nodes)[x := ZEROED]
    {
      nodes := nodes[x := ZEROED];
      MovedTree(old(nodes), nodes, tree, NULL, NULL);
    }

    // ----- insertion

    /** The part of `rb_insert_color` for a red uncle. */
    method RecolourAround(uncle: nat, parent: nat, gparent: nat, ghost p: Path, ghost t: Tree)
      requires Shows(nodes, root, p, t) && !p.Top? && !p.up.Top?
      requires Ptr(Uncle(p)) == uncle && HoleParent(p) == parent && HoleParent(p.up) == gparent
      modifies this`nodes
      ensures Shows(nodes, root, p.up.up, Climbed(p, t))
      ensures PathIds(p.up.up) + Ids(Climbed(p, t)) == PathIds(p) + Ids(t)
      ensures SameOutside(old(nodes), nodes, PathIds(p) + Ids(t))
    {
      hide IsTree, IsPath, PathIds, PathDistinct, Distinct, Inorder, Plug;
      ghost var g, u := p.up.up, Fill(p.up, Fill(p, t));
      Refocus(nodes, root, p, t, g, u);
      SetColor(uncle, false, g, u);
      ghost var u1 := Painted(u, uncle, false);
      SetColor(parent, false, g, u1);
      ghost var u2 := Painted(u1, parent, false);
      SetColor(gparent, true, g, u2);
      RecolouredShape(p, t);
    }

    /** Puts the parent, a left child with the node on its left, in the grandparent's place. */
    method LiftFromLeft(parent: nat, gparent: nat, ghost p: Path, ghost t: Tree)
      requires Shows(nodes, root, p, t) && p.GoneLeft? && p.up.GoneLeft? && p.id == parent && p.up.id == gparent
      modifies this`root, this`nodes
      ensures Shows(nodes, root, Settled(p), t)
      ensures SameOutside(old(nodes), nodes, PathIds(p) + Ids(t))
    {
      ghost var g, u := p.up.up, Fill(p.up, Fill(p, t));
      Refocus(nodes, root, p, t, g, u);
      SettledShape(p, t);
      SetColor(parent, false, g, u);
      ghost var v := Painted(u, parent, false);
      SetColor(gparent, true, g, v);
      ghost var w := Painted(v, gparent, true);
      RotateRight(gparent, g, w);
      Refocus(nodes, root, g, RotatedRight(w), Settled(p), t);
    }

    /** The part of `rb_insert_color` for a parent that is a left child whose sibling
        is not red: an inner node is rotated outward, then the parent moves up. */
    method SettleLeft(x: nat, y: nat, gparent: nat, ghost p: Path, ghost t: Tree) returns (node: nat)
      requires Shows(nodes, root, p, t) && Ptr(t) == x && !p.Top? && p.up.GoneLeft? && p.id == y && p.up.id == gparent
      modifies this`root, this`nodes
      ensures var f := Outer(p, t);
        node == Ptr(f.tree) && f.path.GoneLeft? && f.path.up == p.up && Shows(nodes, root, Settled(f.path), f.tree)
      ensures SameOutside(old(nodes), nodes, PathIds(p) + Ids(t))
    {
      ghost var f := Outer(p, t);
      var parent := y;
      node := x;
      if nodes[parent].right == node {
        assert p.GoneRight?;
        Refocus(nodes, root, p, t, p.up, Fill(p, t));
        RotateLeft(parent, p.up, Fill(p, t));
        parent, node := node, parent;
        Refocus(nodes, root, p.up, RotatedLeft(Fill(p, t)), f.path, f.tree);
      }
      LiftFromLeft(parent, gparent, f.path, f.tree);
    }

    /** Puts the parent, a right child with the node on its right, in the grandparent's place. */
    method LiftFromRight(parent: nat, gparent: nat, ghost p: Path, ghost t: Tree)
      requires Shows(nodes, root, p, t) && p.GoneRight? && p.up.GoneRight? && p.id == parent && p.up.id == gparent
      modifies this`root, this`nodes
      ensures Shows(nodes, root, Settled(p), t)
      ensures SameOutside(old(nodes), nodes, PathIds(p) + Ids(t))
    {
      ghost var g, u := p.up.up, Fill(p.up, Fill(p, t));
      Refocus(nodes, root, p, t, g, u);
      SettledShape(p, t);
      SetColor(parent, false, g, u);
      ghost var v := Painted(u, parent, false);
      SetColor(gparent, true, g, v);
      ghost var w := Painted(v, gparent, true);
      RotateLeft(gparent, g, w);
      Refocus(nodes, root, g, RotatedLeft(w), Settled(p), t);
    }

    /** The part of `rb_insert_color` for a parent that is a right child whose sibling
        is not red: an inner node is rotated outward, then the parent moves up. */
    method SettleRight(x: nat, y: nat, gparent: nat, ghost p: Path, ghost t: Tree) returns (node: nat)
      requires Shows(nodes, root, p, t) && Ptr(t) == x && !p.Top? && p.up.GoneRight? && p.id == y && p.up.id == gparent
      modifies this`root, this`nodes
      ensures var f := Outer(p, t);
        node == Ptr(f.tree) && f.path.GoneRight? && f.path.up == p.up && Shows(nodes, root, Settled(f.path), f.tree)
      ensures SameOutside(old(nodes), nodes, PathIds(p) + Ids(t))
    {
      ghost var f := Outer(p, t);
      var parent := y;
      node := x;
      if nodes[parent].left == node {
        assert p.GoneLeft?;
        Refocus(nodes, root, p, t, p.up, Fill(p, t));
        RotateRight(parent, p.up, Fill(p, t));
        parent, node := node, parent;
        Refocus(nodes, root, p.up, RotatedRight(Fill(p, t)), f.path, f.tree);
      }
      LiftFromRight(parent, gparent, f.path, f.tree);
    }

    method BlackenRoot(ghost p: Path, ghost t: Tree)
      requires Shows(nodes, root, p, t) && t.Node? && RedBlack(Blacken(Plug(p, t)))
      modifies this
      ensures Valid()
      ensures Inorder(tree) == Inorder(Plug(p, t)) && Ids(tree) == PathIds(p) + Ids(t)
      ensures SameOutside(old(nodes), nodes, PathIds(p) + Ids(t))
    {
      ghost var u := Plug(p, t);
      ApartPlug(p, t);
      Refocus(nodes, root, p, t, Top, u);
      SetColor(root, false, Top, u);
      tree := Painted(u, u.id, false);
    }

    method InsertColor(x: nat, ghost p0: Path, ghost t0: Tree) returns (ghost rounds: nat)
      requires Shows(nodes, root, p0, t0) && Ptr(t0) == x && InsertPending(p0, t0)
      modifies this
      ensures Valid()
      ensures Inorder(tree) == Inorder(Plug(p0, t0))
      ensures Ids(tree) == PathIds(p0) + Ids(t0)
      ensures 2 * rounds <= Depth(p0)
      ensures SameOutside(old(nodes), nodes, PathIds(p0) + Ids(t0))
    {
      hide IsTree, IsPath, RootPtr, PathIds, PathDistinct, Distinct, Inorder, Plug, NoRedRed, Balanced, PathBalanced, PathColoured;
      rounds := 0;
      var node := x;
      InsertHole(nodes, root, p0, t0);
      ghost var p, t := p0, t0;
      ghost var ids, order := PathIds(p) + Ids(t), Inorder(Plug(p, t));
      while nodes[node].parent != NULL && nodes[nodes[node].parent].red
        invariant Shows(nodes, root, p, t) && Ptr(t) == node && InsertPending(p, t)
        invariant PathIds(p) + Ids(t) == ids && Inorder(Plug(p, t)) == order
        invariant SameOutside(old(nodes), nodes, ids)
        invariant 0 <= node < |nodes| && nodes[node].parent == HoleParent(p)
        invariant !p.Top? ==> p.id < |nodes| && nodes[p.id].red == p.red
        invariant 2 * rounds <= Depth(p0) && (2 * rounds + Depth(p) <= Depth(p0) || p.Top? || !p.red)
        decreases Depth(p)
      {
        var parent := nodes[node].parent;
        var gparent := nodes[parent].parent;
        InsertSite(nodes, root, p, t);
        rounds := rounds + 1;

        if parent == nodes[gparent].left {
          var uncle := nodes[gparent].right;
          if uncle != NULL && nodes[uncle].red {
            RecolourAround(uncle, parent, gparent, p, t);
            Climb(p, t);
            node, p, t := gparent, p.up.up, Climbed(p, t);
            InsertHole(nodes, root, p, t);
            continue;
          }
          node := SettleLeft(node, parent, gparent, p, t);
        } else {
          var uncle := nodes[gparent].left;
          if uncle != NULL && nodes[uncle].red {
            RecolourAround(uncle, parent, gparent, p, t);
            Climb(p, t);
            node, p, t := gparent, p.up.up, Climbed(p, t);
            InsertHole(nodes, root, p, t);
            continue;
          }
          node := SettleRight(node, parent, gparent, p, t);
        }
        SettleOuter(p, t);
        p, t := Settled(Outer(p, t).path), Outer(p, t).tree;
        InsertHole(nodes, root, p, t);
      }
      InsertDone(p, t);
      BlackenRoot(p, t);
    }

    // ----- erasure: steps that leave the focus where it is

    method SetSiblingColor(x: nat, red: bool, ghost p: Path, ghost t: Tree)
      requires Shows(nodes, root, p, t) && !p.Top? && x in Ids(Sibling(p))
      modifies this`nodes
      ensures Shows(nodes, root, WithSibling(p, Painted(Sibling(p), x, red)), t)
      ensures SameNodes(p, t, WithSibling(p, Painted(Sibling(p), x, red)), t)
      ensures SameOutside(old(nodes), nodes, PathIds(p) + Ids(t))
    {
      ghost var q := WithSibling(p, Painted(Sibling(p), x, red));
      SiblingNodes(p, t, Painted(Sibling(p), x, red));
      Refocus(nodes, root, p, t, p.up, Fill(p, t));
      assert Painted(Fill(p, t), x, red) == Fill(q, t);
      SetColor(x, red, p.up, Fill(p, t));
      Refocus(nodes, root, p.up, Fill(q, t), q, t);
    }

    method SetParentColor(parent: nat, red: bool, ghost p: Path, ghost t: Tree)
      requires Shows(nodes, root, p, t) && !p.Top? && p.id == parent
      modifies this`nodes
      ensures Shows(nodes, root, WithParentRed(p, red), t)
      ensures SameNodes(p, t, WithParentRed(p, red), t)
      ensures SameOutside(old(nodes), nodes, PathIds(p) + Ids(t))
    {
      ghost var q := WithParentRed(p, red);
      Refocus(nodes, root, p, t, p.up, Fill(p, t));
      SetColor(parent, red, p.up, Fill(p, t));
      Refocus(nodes, root, p.up, Fill(q, t), q, t);
      SameContents(p.up, Fill(p, t), Fill(q, t));
    }

    method TurnParentLeft(parent: nat, ghost p: Path, ghost t: Tree)
      requires Shows(nodes, root, p, t) && p.GoneLeft? && p.id == parent && p.right.Node?
      modifies this`root, this`nodes
      ensures Shows(nodes, root, Turned(p), t) && SameNodes(p, t, Turned(p), t)
      ensures SameOutside(old(nodes), nodes, PathIds(p) + Ids(t))
    {
      TurnedNodes(p, t);
      Refocus(nodes, root, p, t, p.up, Fill(p, t));
      RotateLeft(parent, p.up, Fill(p, t));
      Refocus(nodes, root, p.up, RotatedLeft(Fill(p, t)), Turned(p), t);
    }

    method TurnParentRight(parent: nat, ghost p: Path, ghost t: Tree)
      requires Shows(nodes, root, p, t) && p.GoneRight? && p.id == parent && p.left.Node?
      modifies this`root, this`nodes
      ensures Shows(nodes, root, Turned(p), t) && SameNodes(p, t, Turned(p), t)
      ensures SameOutside(old(nodes), nodes, PathIds(p) + Ids(t))
    {
      TurnedNodes(p, t);
      Refocus(nodes, root, p, t, p.up, Fill(p, t));
      RotateRight(parent, p.up, Fill(p, t));
      Refocus(nodes, root, p.up, RotatedRight(Fill(p, t)), Turned(p), t);
    }

    method TurnSiblingRight(sibling: nat, ghost p: Path, ghost t: Tree)
      requires Shows(nodes, root, p, t) && p.GoneLeft? && Ptr(p.right) == sibling && p.right.left.Node?
      modifies this`root, this`nodes
      ensures Shows(nodes, root, WithSibling(p, TurnedSibling(p)), t)
      ensures SameNodes(p, t, WithSibling(p, TurnedSibling(p)), t)
      ensures SameOutside(old(nodes), nodes, PathIds(p) + Ids(t))
    {
      ghost var q := GoneRight(p.up, t, p.id, p.red);
      TurnedSiblingNodes(p);
      SiblingNodes(p, t, TurnedSibling(p));
      Refocus(nodes, root, p, t, q, p.right);
      RotateRight(sibling, q, p.right);
      Refocus(nodes, root, q, RotatedRight(p.right), WithSibling(p, TurnedSibling(p)), t);
    }

    method TurnSiblingLeft(sibling: nat, ghost p: Path, ghost t: Tree)
      requires Shows(nodes, root, p, t) && p.GoneRight? && Ptr(p.left) == sibling && p.left.right.Node?
      modifies this`root, this`nodes
      ensures Shows(nodes, root, WithSibling(p, TurnedSibling(p)), t)
      ensures SameNodes(p, t, WithSibling(p, TurnedSibling(p)), t)
      ensures SameOutside(old(nodes), nodes, PathIds(p) + Ids(t))
    {
      ghost var q := GoneLeft(p.up, p.id, p.red, t);
      TurnedSiblingNodes(p);
      SiblingNodes(p, t, TurnedSibling(p));
      Refocus(nodes, root, p, t, q, p.left);
      RotateLeft(sibling, q, p.left);
      Refocus(nodes, root, q, RotatedLeft(p.left), WithSibling(p, TurnedSibling(p)), t);
    }

    // ----- erasure: the cases of rb_erase_color

    /** A red sibling on the right is made black and moved above the parent, made red. */
    method RaiseRedSiblingRight(sibling: nat, parent: nat, ghost p: Path, ghost t: Tree) returns (ghost q: Path)
      requires Shows(nodes, root, p, t) && ErasePending(p, t)
      requires p.GoneLeft? && p.id == parent && IsRed(p.right) && p.right.id == sibling
      modifies this`root, this`nodes
      ensures Shows(nodes, root, q, t) && SameNodes(p, t, q, t) && ErasePending(q, t)
      ensures q.GoneLeft? && q.id == parent && q.red && Depth(q) == Depth(p) + 1 && Black(q.right)
      ensures SameOutside(old(nodes), nodes, PathIds(p) + Ids(t))
    {
      RedSibling(p, t);
      SetSiblingColor(sibling, false, p, t);
      q := WithSibling(p, Painted(Sibling(p), sibling, false));
      SetParentColor(parent, true, q, t);
      q := WithParentRed(q, true);
      TurnParentLeft(parent, q, t);
      q := Turned(q);
    }

    /** A red near nephew on the right side is made black and moved above the sibling, made red. */
    method RaiseNearNephewRight(sibling: nat, ghost p: Path, ghost t: Tree) returns (ghost q: Path)
      requires Shows(nodes, root, p, t) && ErasePending(p, t)
      requires p.GoneLeft? && Ptr(p.right) == sibling && Black(p.right) && Black(Far(p)) && IsRed(Near(p))
      modifies this`root, this`nodes
      ensures Shows(nodes, root, q, t) && SameNodes(p, t, q, t) && ErasePending(q, t)
      ensures q.GoneLeft? && q.id == p.id && q.right.Node? && Black(q.right) && IsRed(Far(q))
      ensures SameOutside(old(nodes), nodes, PathIds(p) + Ids(t))
    {
      RedNear(p, t);
      SiblingSite(nodes, root, p, t);
      NephewPaint(p);
      SetSiblingColor(nodes[sibling].left, false, p, t);
      q := WithSibling(p, NearBlackened(p));
      SetSiblingColor(sibling, true, q, t);
      q := WithSibling(p, Redden(NearBlackened(p)));
      TurnSiblingRight(sibling, q, t);
      q := NearRaised(p);
    }

    /** With a red far nephew on the right side, the sibling takes the parent's place and colour. */
    method RaiseSiblingRight(sibling: nat, parent: nat, ghost p: Path, ghost t: Tree) returns (ghost q: Path)
      requires Shows(nodes, root, p, t) && ErasePending(p, t) && Black(t)
      requires p.GoneLeft? && p.id == parent && Ptr(p.right) == sibling && Black(p.right) && IsRed(Far(p))
      modifies this`root, this`nodes
      ensures Shows(nodes, root, q, t) && SameNodes(p, t, q, t) && RedBlack(Plug(q, t))
      ensures SameOutside(old(nodes), nodes, PathIds(p) + Ids(t))
    {
      RedFar(p, t);
      SiblingSite(nodes, root, p, t);
      SetSiblingColor(sibling, nodes[parent].red, p, t);
      q := WithSibling(p, Painted(Sibling(p), sibling, p.red));
      SetParentColor(parent, false, q, t);
      q := WithParentRed(q, false);
      SiblingSite(nodes, root, q, t);
      NephewPaint(q);
      SetSiblingColor(nodes[sibling].right, false, q, t);
      q := WithSibling(q, FarBlackened(q));
      TurnParentLeft(parent, q, t);
      q := Turned(q);
    }

    /** A red sibling on the left is made black and moved above the parent, made red. */
    method RaiseRedSiblingLeft(sibling: nat, parent: nat, ghost p: Path, ghost t: Tree) returns (ghost q: Path)
      requires Shows(nodes, root, p, t) && ErasePending(p, t)
      requires p.GoneRight? && p.id == parent && IsRed(p.left) && p.left.id == sibling
      modifies this`root, this`nodes
      ensures Shows(nodes, root, q, t) && SameNodes(p, t, q, t) && ErasePending(q, t)
      ensures q.GoneRight? && q.id == parent && q.red && Depth(q) == Depth(p) + 1 && Black(q.left)
      ensures SameOutside(old(nodes), nodes, PathIds(p) + Ids(t))
    {
      RedSibling(p, t);
      SetSiblingColor(sibling, false, p, t);
      q := WithSibling(p, Painted(Sibling(p), sibling, false));
      SetParentColor(parent, true, q, t);
      q := WithParentRed(q, true);
      TurnParentRight(parent, q, t);
      q := Turned(q);
    }

    /** A red near nephew on the left side is made black and moved above the sibling, made red. */
    method RaiseNearNephewLeft(sibling: nat, ghost p: Path, ghost t: Tree) returns (ghost q: Path)
      requires Shows(nodes, root, p, t) && ErasePending(p, t)
      requires p.GoneRight? && Ptr(p.left) == sibling && Black(p.left) && Black(Far(p)) && IsRed(Near(p))
      modifies this`root, this`nodes
      ensures Shows(nodes, root, q, t) && SameNodes(p, t, q, t) && ErasePending(q, t)
      ensures q.GoneRight? && q.id == p.id && q.left.Node? && Black(q.left) && IsRed(Far(q))
      ensures SameOutside(old(nodes), nodes, PathIds(p) + Ids(t))
    {
      RedNear(p, t);
      SiblingSite(nodes, root, p, t);
      NephewPaint(p);
      SetSiblingColor(nodes[sibling].right, false, p, t);
      q := WithSibling(p, NearBlackened(p));
      SetSiblingColor(sibling, true, q, t);
      q := WithSibling(p, Redden(NearBlackened(p)));
      TurnSiblingLeft(sibling, q, t);
      q := NearRaised(p);
    }

    /** With a red far nephew on the left side, the sibling takes the parent's place and colour. */
    method RaiseSiblingLeft(sibling: nat, parent: nat, ghost p: Path, ghost t: Tree) returns (ghost q: Path)
      requires Shows(nodes, root, p, t) && ErasePending(p, t) && Black(t)
      requires p.GoneRight? && p.id == parent && Ptr(p.left) == sibling && Black(p.left) && IsRed(Far(p))
      modifies this`root, this`nodes
      ensures Shows(nodes, root, q, t) && SameNodes(p, t, q, t) && RedBlack(Plug(q, t))
      ensures SameOutside(old(nodes), nodes, PathIds(p) + Ids(t))
    {
      RedFar(p, t);
      SiblingSite(nodes, root, p, t);
      SetSiblingColor(sibling, nodes[parent].red, p, t);
      q := WithSibling(p, Painted(Sibling(p), sibling, p.red));
      SetParentColor(parent, false, q, t);
      q := WithParentRed(q, false);
      SiblingSite(nodes, root, q, t);
      NephewPaint(q);
      SetSiblingColor(nodes[sibling].left, false, q, t);
      q := WithSibling(q, FarBlackened(q));
      TurnParentRight(parent, q, t);
      q := Turned(q);
    }

    /** The last turn of the loop: a nephew of the hole on the left is red. */
    method RestoreLeft(sibling0: nat, parent: nat, ghost p0: Path, ghost t: Tree) returns (ghost p: Path)
      requires Shows(nodes, root, p0, t) && ErasePending(p0, t) && Black(t)
      requires p0.GoneLeft? && p0.id == parent && Ptr(p0.right) == sibling0 && Black(p0.right)
      requires IsRed(Near(p0)) || IsRed(Far(p0))
      modifies this`root, this`nodes
      ensures var u := Plug(p, t);
        Shows(nodes, root, Top, u) && Ptr(u) == root && SameNodes(p0, t, Top, u) && ErasePending(Top, u)
      ensures SameOutside(old(nodes), nodes, PathIds(p0) + Ids(t))
    {
      hide IsTree, IsPath, PathIds, Distinct, PathDistinct, Inorder, NoRedRed, Balanced;
      p := p0;
      var sibling := sibling0;
      SiblingSite(nodes, root, p, t);
      if nodes[sibling].right == NULL || !nodes[nodes[sibling].right].red {
        p := RaiseNearNephewRight(sibling, p, t);
        SiblingSite(nodes, root, p, t);
        sibling := nodes[parent].right;
      }
      p := RaiseSiblingRight(sibling, parent, p, t);
      Refocus(nodes, root, p, t, Top, Plug(p, t));
      EraseRestored(p, t);
    }

    /** One turn of the loop of `rb_erase_color` for a hole on the left; `finished` is its `break`. */
    method EraseTurnLeft(parent: nat, ghost p0: Path, ghost t0: Tree)
        returns (finished: bool, node: int, ghost p: Path, ghost t: Tree)
      requires Shows(nodes, root, p0, t0) && ErasePending(p0, t0) && Black(t0)
      requires p0.GoneLeft? && p0.id == parent
      modifies this`root, this`nodes
      ensures Shows(nodes, root, p, t) && Ptr(t) == node && SameNodes(p0, t0, p, t) && ErasePending(p, t)
      ensures if finished then p.Top? else node == parent
      ensures Depth(p) + (if IsRed(t) then 0 else 1) < Depth(p0) + 1
      ensures SameOutside(old(nodes), nodes, PathIds(p0) + Ids(t0))
    {
      hide IsTree, IsPath, PathIds, Distinct, PathDistinct, Inorder, NoRedRed, Balanced, PathColoured, PathBalanced;
      p, t := p0, t0;
      SiblingExists(p, t);
      SiblingSite(nodes, root, p, t);
      var sibling := nodes[parent].right;
      if nodes[sibling].red {
        p := RaiseRedSiblingRight(sibling, parent, p, t);
        SiblingExists(p, t);
        SiblingSite(nodes, root, p, t);
        sibling := nodes[parent].right;
      }

      if (nodes[sibling].left == NULL || !nodes[nodes[sibling].left].red) &&
         (nodes[sibling].right == NULL || !nodes[nodes[sibling].right].red) {
        BlackNephews(p, t);
        SetSiblingColor(sibling, true, p, t);
        ghost var q := WithSibling(p, Redden(Sibling(p)));
        Refocus(nodes, root, q, t, p.up, Fill(q, t));
        p, t := p.up, Fill(q, t);
        return false, parent, p, t;
      }

      p := RestoreLeft(sibling, parent, p, t);
      return true, root, Top, Plug(p, t);
    }

    /** The last turn of the loop: a nephew of the hole on the right is red. */
    method RestoreRight(sibling0: nat, parent: nat, ghost p0: Path, ghost t: Tree) returns (ghost p: Path)
      requires Shows(nodes, root, p0, t) && ErasePending(p0, t) && Black(t)
      requires p0.GoneRight? && p0.id == parent && Ptr(p0.left) == sibling0 && Black(p0.left)
      requires IsRed(Near(p0)) || IsRed(Far(p0))
      modifies this`root, this`nodes
      ensures var u := Plug(p, t);
        Shows(nodes, root, Top, u) && Ptr(u) == root && SameNodes(p0, t, Top, u) && ErasePending(Top, u)
      ensures SameOutside(old(nodes), nodes, PathIds(p0) + Ids(t))
    {
      hide IsTree, IsPath, PathIds, Distinct, PathDistinct, Inorder, NoRedRed, Balanced;
      p := p0;
      var sibling := sibling0;
      SiblingSite(nodes, root, p, t);
      if nodes[sibling].left == NULL || !nodes[nodes[sibling].left].red {
        p := RaiseNearNephewLeft(sibling, p, t);
        SiblingSite(nodes, root, p, t);
        sibling := nodes[parent].left;
      }
      p := RaiseSiblingLeft(sibling, parent, p, t);
      Refocus(nodes, root, p, t, Top, Plug(p, t));
      EraseRestored(p, t);
    }

    /** One turn of the loop of `rb_erase_color` for a hole on the right; `finished` is its `break`. */
    method EraseTurnRight(parent: nat, ghost p0: Path, ghost t0: Tree)
        returns (finished: bool, node: int, ghost p: Path, ghost t: Tree)
      requires Shows(nodes, root, p0, t0) && ErasePending(p0, t0) && Black(t0)
      requires p0.GoneRight? && p0.id == parent
      modifies this`root, this`nodes
      ensures Shows(nodes, root, p, t) && Ptr(t) == node && SameNodes(p0, t0, p, t) && ErasePending(p, t)
      ensures if finished then p.Top? else node == parent
      ensures Depth(p) + (if IsRed(t) then 0 else 1) < Depth(p0) + 1
      ensures SameOutside(old(nodes), nodes, PathIds(p0) + Ids(t0))
    {
      hide IsTree, IsPath, PathIds, Distinct, PathDistinct, Inorder, NoRedRed, Balanced, PathColoured, PathBalanced;
      p, t := p0, t0;
      SiblingExists(p, t);
      SiblingSite(nodes, root, p, t);
      var sibling := nodes[parent].left;
      if nodes[sibling].red {
        p := RaiseRedSiblingLeft(sibling, parent, p, t);
        SiblingExists(p, t);
        SiblingSite(nodes, root, p, t);
        sibling := nodes[parent].left;
      }

      if (nodes[sibling].left == NULL || !nodes[nodes[sibling].left].red) &&
         (nodes[sibling].right == NULL || !nodes[nodes[sibling].right].red) {
        BlackNephews(p, t);
        SetSiblingColor(sibling, true, p, t);
        ghost var q := WithSibling(p, Redden(Sibling(p)));
        Refocus(nodes, root, q, t, p.up, Fill(q, t));
        p, t := p.up, Fill(q, t);
        return false, parent, p, t;
      }

      p := RestoreRight(sibling, parent, p, t);
      return true, root, Top, Plug(p, t);
    }

    method BlackenNode(node: int, ghost p: Path, ghost t: Tree)
      requires Shows(nodes, root, p, t) && Ptr(t) == node && ErasePending(p, t) && (p.Top? || IsRed(t))
      modifies this
      ensures Valid() && Inorder(tree) == Inorder(Plug(p, t))
      ensures SameOutside(old(nodes), nodes, PathIds(p) + Ids(t))
    {
      EraseDone(p, t);
      if node != NULL {
        SetColor(node, false, p, t);
      }
      SameContents(p, t, Blacken(t));
      ShowsPlug(nodes, root, p, Blacken(t));
      tree := Plug(p, Blacken(t));
    }

    method EraseColor(x: int, y: int, ghost p0: Path, ghost t0: Tree) returns (ghost rounds: nat)
      requires Shows(nodes, root, p0, t0) && Ptr(t0) == x && HoleParent(p0) == y && ErasePending(p0, t0)
      modifies this
      ensures Valid()
      ensures Inorder(tree) == Inorder(Plug(p0, t0))
      ensures rounds <= Depth(p0) + 1
      ensures SameOutside(old(nodes), nodes, PathIds(p0) + Ids(t0))
    {
      hide Shows, IsTree, IsPath, RootPtr, PathIds, Ids, Distinct, PathDistinct, Inorder, Plug, ErasePending, RedBlack, SameNodes, SameOutside;
      rounds := 0;
      var node, parent := x, y;
      ghost var p, t := p0, t0;
      NothingTouched(nodes, p, t);
      HoleAtRoot(nodes, root, p, t);
      while (node == NULL || !nodes[node].red) && node != root
        invariant Shows(nodes, root, p, t) && Ptr(t) == node && SameNodes(p0, t0, p, t)
        invariant SameOutside(old(nodes), nodes, PathIds(p0) + Ids(t0))
        invariant HoleParent(p) == parent && (node == root <==> p.Top?) && ErasePending(p, t)
        invariant t.Node? ==> t.id < |nodes| && nodes[t.id].red == t.red
        invariant rounds + Depth(p) + (if IsRed(t) then 0 else 1) <= Depth(p0) + 1
        decreases Depth(p) + if IsRed(t) then 0 else 1
      {
        rounds := rounds + 1;
        SiblingExists(p, t);
        HoleSide(nodes, root, p, t);
        var finished;
        ghost var m1, p1, t1 := nodes, p, t;
        if nodes[parent].left == node {
          finished, node, p, t := EraseTurnLeft(parent, p, t);
        } else {
          finished, node, p, t := EraseTurnRight(parent, p, t);
        }
        Onward(old(nodes), m1, nodes, p0, t0, p1, t1, p, t);
        HoleAtRoot(nodes, root, p, t);
        if finished {
          break;
        }
        parent := nodes[node].parent;
      }
      ghost var m2 := nodes;
      BlackenNode(node, p, t);
      NothingTouched(nodes, p, t);
      Onward(old(nodes), m2, nodes, p0, t0, p, t, p, t);
    }

    // ----- erasure

    /** The part of `rb_erase` for a node with at most one child: its links are bypassed. */
    method Bypass(x: nat, child: int, ghost p: Path, ghost t: Tree) returns (parent: int, red: bool)
      requires Shows(nodes, root, p, t) && Ptr(t) == x && Ptr(OnlyChild(t)) == child
      modifies this`root, this`nodes
      ensures Shows(nodes, root, p, OnlyChild(t)) && parent == HoleParent(p) && red == t.red
      ensures SameOutside(old(nodes), nodes, PathIds(p) + Ids(t))
    {
      BypassSite(nodes, root, p, t);
      parent := nodes[x].parent;
      red := nodes[x].red;
      if child != NULL {
        nodes := nodes[child := nodes[child].(parent := parent)];
      }
      if parent != NULL {
        if nodes[parent].left == x {
          nodes := nodes[parent := nodes[parent].(left := child)];
        } else {
          nodes := nodes[parent := nodes[parent].(right := child)];
        }
      } else {
        root := child;
      }
      BypassShows(old(nodes), nodes, old(root), root, p, t);
    }

    /** The first node below `x`'s right child, which is the successor of `x`. */
    method Successor(x: nat, ghost p: Path, ghost t: Tree) returns (node: nat, ghost q: Path, ghost s: Tree)
      requires Shows(nodes, root, p, t) && Ptr(t) == x && t.right.Node?
      ensures Ptr(s) == node && s.left.Leaf? && LeftMost(q) && Plug(q, s) == t.right
      ensures Shows(nodes, root, Under(q, GoneRight(p, t.left, x, t.red)), s)
    {
      hide Shows;
      ghost var g := GoneRight(p, t.left, x, t.red);
      RenameSite(nodes, root, p, t);
      node := nodes[x].right;
      q, s := Top, t.right;
      Refocus(nodes, root, p, t, g, s);
      RenameSite(nodes, root, g, s);
      while nodes[node].left != NULL
        invariant Ptr(s) == node && LeftMost(q) && Plug(q, s) == t.right
        invariant Shows(nodes, root, Under(q, g), s)
        invariant node < |nodes| && nodes[node].left == Ptr(s.left)
        decreases s
      {
        node := nodes[node].left;
        Refocus(nodes, root, Under(q, g), s, GoneLeft(Under(q, g), s.id, s.red, s.right), s.left);
        q, s := GoneLeft(q, s.id, s.red, s.right), s.left;
        RenameSite(nodes, root, Under(q, g), s);
      }
    }

    /** Cuts the successor `node` of `old` out of the right subtree of `old`. */
    method Detach(node: nat, replaced: nat, ghost p: Path, ghost s: Tree) returns (parent: int)
      requires Shows(nodes, root, p, s) && Ptr(s) == node && s.left.Leaf? && !p.Top?
      requires p.GoneRight? <==> p.id == replaced
      modifies this`nodes
      ensures Shows(nodes, root, p, s.right)
      ensures parent == if p.GoneRight? then node else p.id
      ensures SameOutside(old(nodes), nodes, PathIds(p) + Ids(s))
    {
      BypassSite(nodes, root, p, s);
      var child := nodes[node].right;
      parent := nodes[node].parent;
      if child != NULL {
        nodes := nodes[child := nodes[child].(parent := parent)];
      }
      if parent == replaced {
        nodes := nodes[parent := nodes[parent].(right := child)];
        parent := node;
      } else {
        nodes := nodes[parent := nodes[parent].(left := child)];
      }
      BypassShows(old(nodes), nodes, root, root, p, s);
    }

    /** Puts the unlinked `node` in the place of `old`, with its links and its colour. */
    method TakePlace(node: nat, replaced: nat, ghost p: Path, ghost t: Tree)
      requires Shows(nodes, root, p, t) && Ptr(t) == replaced && t.left.Node?
      requires node < |nodes| && node !in Ids(t) && node !in PathIds(p)
      modifies this`root, this`nodes
      ensures Shows(nodes, root, p, t.(id := node))
      ensures SameOutside(old(nodes), nodes, PathIds(p) + Ids(t) + {node})
    {
      RenameSite(nodes, root, p, t);
      nodes := nodes[node := nodes[replaced]];
      if nodes[replaced].parent != NULL {
        if nodes[nodes[replaced].parent].left == replaced {
          nodes := nodes[nodes[replaced].parent := nodes[nodes[replaced].parent].(left := node)];
        } else {
          nodes := nodes[nodes[replaced].parent := nodes[nodes[replaced].parent].(right := node)];
        }
      } else {
        root := node;
      }
      nodes := nodes[nodes[replaced].left := nodes[nodes[replaced].left].(parent := node)];
      if nodes[replaced].right != NULL {
        nodes := nodes[nodes[replaced].right := nodes[nodes[replaced].right].(parent := node)];
      }
      RenameShows(old(nodes), nodes, old(root), root, p, t, node);
    }

    /** The part of `rb_erase` for a node with two children: its successor replaces it. */
    method ReplaceBySuccessor(x: nat, ghost p: Path, ghost t: Tree)
        returns (child: int, parent: int, red: bool, ghost q: Path, ghost s: Tree)
      requires Shows(nodes, root, p, t) && Ptr(t) == x && t.left.Node? && t.right.Node?
      modifies this`root, this`nodes
      ensures s.Node? && s.left.Leaf? && LeftMost(q) && Plug(q, s) == t.right
      ensures Shows(nodes, root, Under(q, GoneRight(p, t.left, s.id, t.red)), s.right)
      ensures child == Ptr(s.right) && red == s.red
      ensures parent == HoleParent(Under(q, GoneRight(p, t.left, s.id, t.red)))
      ensures SameOutside(old(nodes), nodes, PathIds(p) + Ids(t))
    {
      hide Inorder, IsTree, IsPath, LeftMost, Distinct, PathDistinct;
      var node;
      node, q, s := Successor(x, p, t);
      ghost var g := Under(q, GoneRight(p, t.left, x, t.red));
      SuccessorApart(p, t, q, s);
      UnderPlug(q, GoneRight(p, t.left, x, t.red), s);
      UnderPlug(q, GoneRight(p, t.left, x, t.red), s.right);
      UnderPlug(q, GoneRight(p, t.left, node, t.red), s.right);
      BypassSite(nodes, root, g, s);
      child := nodes[node].right;
      red := nodes[node].red;
      parent := Detach(node, x, g, s);
      ghost var u := Node(t.left, x, t.red, Plug(q, s.right));
      Refocus(nodes, root, g, s.right, p, u);
      TakePlace(node, x, p, u);
      Refocus(nodes, root, p, u.(id := node), Under(q, GoneRight(p, t.left, node, t.red)), s.right);
    }

    /** `rb_erase` up to the label `color`. */
    method Unhook(x: nat, ghost p: Path, ghost t: Tree)
        returns (child: int, parent: int, red: bool, ghost q: Path, ghost c: Tree)
      requires Shows(nodes, root, p, t) && Ptr(t) == x && RedBlack(Plug(p, t))
      modifies this`root, this`nodes
      ensures Shows(nodes, root, q, c) && child == Ptr(c) && parent == HoleParent(q)
      ensures if red then RedBlack(Plug(q, c)) else ErasePending(q, c)
      ensures Inorder(Plug(q, c)) == Without(Inorder(Plug(p, t)), x)
      ensures Depth(q) < Height(Plug(p, t))
      ensures SameOutside(old(nodes), nodes, PathIds(p) + Ids(t))
    {
      DepthWithinHeight(p, t);
      hide RedBlack, ErasePending, Inorder, IsPath, PathIds, PathDistinct, Ids, Distinct, Plug, Without;
      RenameSite(nodes, root, p, t);
      if nodes[x].left == NULL || nodes[x].right == NULL {
        child := if nodes[x].left == NULL then nodes[x].right else nodes[x].left;
        BypassColours(p, t);
        BypassContents(p, t);
        parent, red := Bypass(x, child, p, t);
        q, c := p, OnlyChild(t);
      } else {
        ghost var s;
        child, parent, red, q, s := ReplaceBySuccessor(x, p, t);
        SuccessorPlug(p, t, q, s);
        SuccessorDepth(p, t, q, s);
        SuccessorColours(q, p, t.left, x, t.red, s);
        SuccessorContents(q, p, t.left, x, t.red, s);
        q, c := Under(q, GoneRight(p, t.left, s.id, t.red)), s.right;
      }
    }

    method Erase(x: nat) returns (ghost rounds: nat)
      requires Valid() && x in Ids(tree)
      modifies this
      ensures Valid()
      ensures Inorder(tree) == Without(old(Inorder(tree)), x) && Ids(tree) == old(Ids(tree)) - {x}
      ensures SameOutside(old(nodes), nodes, old(Ids(tree)))
      ensures Bits.Pow2(rounds) <= (|old(Inorder(tree))| + 1) * (|old(Inorder(tree))| + 1)
    {
      hide RedBlack, ErasePending, Inorder, IsPath, IsTree, PathDistinct, Distinct, Without, Bits.Pow2;
      rounds := 0;
      HeightBound(tree);
      ghost var f := Find(Top, tree, x);
      Refocus(nodes, root, Top, tree, f.path, f.tree);
      ghost var p, t;
      var child, parent, red;
      child, parent, red, p, t := Unhook(x, f.path, f.tree);
      ErasedIds(tree, Plug(p, t), x);
      ApartPlug(p, t);
      if !red {
        rounds := EraseColor(child, parent, p, t);
      } else {
        Refocus(nodes, root, p, t, Top, Plug(p, t));
        tree := Plug(p, t);
      }
      ErasedIds(old(tree), tree, x);
      Bits.PowerMonotone(rounds, Height(old(tree)));
    }

    // ----- walking

    /** The first node, in a number of steps that grows with the logarithm of their number. */
    method First() returns (n: int, ghost steps: nat)
      requires Valid()
      ensures n == if tree.Leaf? then NULL else Inorder(tree)[0]
      ensures Bits.Pow2(steps) <= (|Inorder(tree)| + 1) * (|Inorder(tree)| + 1)
    {
      n, steps := root, 0;
      HeightBound(tree);
      Bits.PowerMonotone(0, Height(tree));
      if n == NULL {
        return;
      }
      n, steps := FirstBelow(n, Top, tree);
      InorderNonempty(tree);
      Bits.PowerMonotone(steps, Height(tree));
    }

    /** Down the left links from a node: the first node of its subtree. */
    method FirstBelow(x: nat, ghost p0: Path, ghost t0: Tree) returns (n: nat, ghost steps: nat)
      requires Shows(nodes, root, p0, t0) && Ptr(t0) == x
      ensures |Inorder(t0)| > 0 && n == Inorder(t0)[0]
      ensures steps < Height(t0)
    {
      n, steps := x, 0;
      ghost var p, t := p0, t0;
      assert IsTree(nodes, t, HoleParent(p));
      InorderNonempty(t);
      while nodes[n].left != NULL
        invariant IsTree(nodes, t, HoleParent(p)) && Ptr(t) == n
        invariant |Inorder(t0)| > 0 && |Inorder(t)| > 0 && Inorder(t)[0] == Inorder(t0)[0]
        invariant steps + Height(t) <= Height(t0)
        decreases t
      {
        steps := steps + 1;
        InorderNonempty(t.left);
        n := nodes[n].left;
        p, t := GoneLeft(p, t.id, t.red, t.right), t.left;
      }
    }

    method Last() returns (n: int)
      requires Valid()
      ensures n == if tree.Leaf? then NULL else Inorder(tree)[|Inorder(tree)| - 1]
    {
      n := root;
      if n == NULL {
        return;
      }
      n := LastBelow(n, Top, tree);
      InorderNonempty(tree);
    }

    /** Down the right links from a node: the last node of its subtree. */
    method LastBelow(x: nat, ghost p0: Path, ghost t0: Tree) returns (n: nat)
      requires Shows(nodes, root, p0, t0) && Ptr(t0) == x
      ensures |Inorder(t0)| > 0 && n == Inorder(t0)[|Inorder(t0)| - 1]
    {
      n := x;
      ghost var p, t := p0, t0;
      assert IsTree(nodes, t, HoleParent(p));
      InorderNonempty(t);
      while nodes[n].right != NULL
        invariant IsTree(nodes, t, HoleParent(p)) && Ptr(t) == n
        invariant |Inorder(t0)| > 0 && |Inorder(t)| > 0 && Inorder(t)[|Inorder(t)| - 1] == Inorder(t0)[|Inorder(t0)| - 1]
        decreases t
      {
        InorderNonempty(t.right);
        n := nodes[n].right;
        p, t := GoneRight(p, t.left, t.id, t.red), t.right;
      }
    }

    method Next(x: nat, ghost k: nat) returns (n: int)
      requires Valid() && k < |Inorder(tree)| && Inorder(tree)[k] == x
      ensures n == if k + 1 < |Inorder(tree)| then Inorder(tree)[k + 1] else NULL
    {
      hide Inorder, IsTree, IsPath, Ids, PathIds, Distinct, PathDistinct, RedBlack, Before, After, RootPtr;
      InorderIds(tree);
      ghost var f := Find(Top, tree, x);
      ghost var p, t := f.path, f.tree;
      Refocus(nodes, root, Top, tree, p, t);
      RankOf(tree, p, t, k);
      RenameSite(nodes, root, p, t);
      InorderNonempty(t.right);
      if nodes[x].right != NULL {
        Refocus(nodes, root, p, t, GoneRight(p, t.left, x, t.red), t.right);
        ghost var steps;
        n, steps := FirstBelow(nodes[x].right, GoneRight(p, t.left, x, t.red), t.right);
        return;
      }

      ghost var q, u := p, t;
      var node, parent := x, nodes[x].parent;
      ParentSite(nodes, root, q, u);
      while parent != NULL && node == nodes[parent].right
        invariant Shows(nodes, root, q, u) && Ptr(u) == node && HoleParent(q) == parent
        invariant After(q) == After(p)
        invariant parent != NULL ==> 0 <= parent < |nodes| && (node == nodes[parent].right <==> q.GoneRight?)
        decreases q
      {
        PathEnds(q);
        Refocus(nodes, root, q, u, q.up, Fill(q, u));
        q, u := q.up, Fill(q, u);
        node := parent;
        parent := nodes[parent].parent;
        ParentSite(nodes, root, q, u);
      }
      PathEnds(q);
      n := parent;
    }

    method Prev(x: nat, ghost k: nat) returns (n: int)
      requires Valid() && k < |Inorder(tree)| && Inorder(tree)[k] == x
      ensures n == if k > 0 then Inorder(tree)[k - 1] else NULL
    {
      hide Inorder, IsTree, IsPath, Ids, PathIds, Distinct, PathDistinct, RedBlack, Before, After, RootPtr;
      InorderIds(tree);
      ghost var f := Find(Top, tree, x);
      ghost var p, t := f.path, f.tree;
      Refocus(nodes, root, Top, tree, p, t);
      RankOf(tree, p, t, k);
      RenameSite(nodes, root, p, t);
      InorderNonempty(t.left);
      if nodes[x].left != NULL {
        Refocus(nodes, root, p, t, GoneLeft(p, x, t.red, t.right), t.left);
        n := LastBelow(nodes[x].left, GoneLeft(p, x, t.red, t.right), t.left);
        return;
      }

      ghost var q, u := p, t;
      var node, parent := x, nodes[x].parent;
      ParentSite(nodes, root, q, u);
      while parent != NULL && node == nodes[parent].left
        invariant Shows(nodes, root, q, u) && Ptr(u) == node && HoleParent(q) == parent
        invariant Before(q) == Before(p)
        invariant parent != NULL ==> 0 <= parent < |nodes| && (node == nodes[parent].left <==> q.GoneLeft?)
        decreases q
      {
        PathEnds(q);
        Refocus(nodes, root, q, u, q.up, Fill(q, u));
        q, u := q.up, Fill(q, u);
        node := parent;
        parent := nodes[parent].parent;
        ParentSite(nodes, root, q, u);
      }
      PathEnds(q);
      n := parent;
    }
  }
}
