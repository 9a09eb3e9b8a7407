/** Why `rb_insert_color` repairs the tree: its steps, on trees and paths. */
module InsertFixup {
  import Bits
  import opened Trees
  import opened Arenas

  /** What holds around a freshly linked or freshly reddened node: the tree is
      red-black but for a possible red parent of the red root of `t`. */
  ghost predicate InsertPending(p: Path, t: Tree) {
    IsRed(t) && NoRedRed(t) && Balanced(t) && PathBalanced(p, BlackHeight(t)) && PathColoured(p, false)
  }

  /** A red parent is not the root, and the grandparent is black. */
  lemma GrandparentIsBlack(p: Path, t: Tree)
    requires InsertPending(p, t) && !p.Top? && p.red
    ensures !p.up.Top? && !p.up.red
    ensures PathColoured(p.up, true) && PathBalanced(p.up, BlackHeight(t))
    ensures PathColoured(p.up.up, false) && PathBalanced(p.up.up, BlackHeight(t) + 1)
  {
    assert PathColoured(p.up, true);
    assert PathColoured(p.up.up, false);
    assert PathBalanced(p.up, BlackHeight(t));
  }

  /** The tree at the grandparent once parent and uncle are black and it is red. */
  ghost function Climbed(p: Path, t: Tree): Tree
    requires !p.Top? && !p.up.Top?
  {
    if p.up.GoneLeft? then Node(Blacken(Fill(p, t)), p.up.id, true, Blacken(p.up.right))
    else Node(Blacken(p.up.left), p.up.id, true, Blacken(Fill(p, t)))
  }

  ghost function Uncle(p: Path): Tree
    requires !p.Top? && !p.up.Top?
  {
    if p.up.GoneLeft? then p.up.right else p.up.left
  }

  /** With a red uncle the possible violation climbs two levels. */
  lemma Climb(p: Path, t: Tree)
    requires InsertPending(p, t) && !p.Top? && p.red && !p.up.Top? && IsRed(Uncle(p))
    ensures InsertPending(p.up.up, Climbed(p, t))
    ensures Inorder(Plug(p.up.up, Climbed(p, t))) == Inorder(Plug(p, t))
  {
    GrandparentIsBlack(p, t);
    assert NoRedRed(Uncle(p)) && Balanced(Uncle(p));
    SameContents(p.up.up, Climbed(p, t), Fill(p.up, Fill(p, t)));
  }

  /** The node looked at and its path, after the rotation at the red parent that
      makes an inner red-red edge an outer one. */
  ghost function Outer(p: Path, t: Tree): Focus
    requires !p.Top? && !p.up.Top? && t.Node?
  {
    if p.up.GoneLeft? && p.GoneRight? then
      Focus(GoneLeft(p.up, t.id, t.red, t.right), Node(p.left, p.id, p.red, t.left))
    else if p.up.GoneRight? && p.GoneLeft? then
      Focus(GoneRight(p.up, t.left, t.id, t.red), Node(t.right, p.id, p.red, p.right))
    else Focus(p, t)
  }

  lemma OuterPending(p: Path, t: Tree)
    requires InsertPending(p, t) && !p.Top? && p.red && !p.up.Top?
    ensures var f := Outer(p, t);
      && InsertPending(f.path, f.tree) && !f.path.Top? && f.path.red && f.path.up == p.up
      && f.path.GoneLeft? == p.up.GoneLeft?
      && Inorder(Fill(f.path, f.tree)) == Inorder(Fill(p, t))
  {
    GrandparentIsBlack(p, t);
    if p.up.GoneLeft? && p.GoneRight? {
      Regroup(Inorder(p.left), p.id, Inorder(t.left), t.id, Inorder(t.right));
    } else if p.up.GoneRight? && p.GoneLeft? {
      Regroup(Inorder(t.left), t.id, Inorder(t.right), p.id, Inorder(p.right));
    }
  }

  /** The path after the rotation at the grandparent, which puts the parent, now
      black, in the grandparent's place. */
  ghost function Settled(p: Path): Path
    requires !p.Top? && !p.up.Top? && p.GoneLeft? == p.up.GoneLeft?
  {
    if p.GoneLeft? then GoneLeft(p.up.up, p.id, false, Node(p.right, p.up.id, true, p.up.right))
    else GoneRight(p.up.up, Node(p.up.left, p.up.id, true, p.left), p.id, false)
  }

  lemma Settle(p: Path, t: Tree)
    requires InsertPending(p, t) && !p.Top? && p.red && !p.up.Top? && !IsRed(Uncle(p))
    requires p.GoneLeft? == p.up.GoneLeft?
    ensures InsertPending(Settled(p), t)
    ensures Inorder(Fill(Settled(p), t)) == Inorder(Fill(p.up, Fill(p, t)))
  {
    GrandparentIsBlack(p, t);
    if p.GoneLeft? {
      Regroup(Inorder(t), p.id, Inorder(p.right), p.up.id, Inorder(p.up.right));
    } else {
      Regroup(Inorder(p.up.left), p.up.id, Inorder(p.left), p.id, Inorder(t));
    }
  }

  /** When the loop ends, blackening the root leaves a red-black tree. */
  lemma InsertDone(p: Path, t: Tree)
    requires InsertPending(p, t) && (p.Top? || !p.red)
    ensures RedBlack(Blacken(Plug(p, t)))
  {
    if !p.Top? {
      assert PathColoured(p, true);
      RedBlackPlug(p, t);
    }
  }

  lemma RecolouredShape(p: Path, t: Tree)
    requires Apart(p, t) && !p.Top? && !p.up.Top? && Uncle(p).Node?
    ensures var u, x, y, z := Fill(p.up, Fill(p, t)), Uncle(p).id, p.id, p.up.id;
      && x in Ids(u) && y in Ids(u) && z in Ids(u)
      && Painted(Painted(Painted(u, x, false), y, false), z, true) == Climbed(p, t)
      && Ids(Climbed(p, t)) == Ids(u)
  {
    var u, x, y := Fill(p.up, Fill(p, t)), Uncle(p).id, p.id;
    assert PathDistinct(p.up);
    assert x in Ids(Uncle(p)) && y in Ids(Fill(p, t));
    assert x !in Ids(Fill(p, t)) && y !in Ids(Uncle(p));
    if p.up.GoneLeft? {
      assert Painted(u, x, false) == Node(Fill(p, t), p.up.id, p.up.red, Blacken(Uncle(p)));
    } else {
      assert Painted(u, x, false) == Node(Blacken(Uncle(p)), p.up.id, p.up.red, Fill(p, t));
    }
  }

  lemma SettledShape(p: Path, t: Tree)
    requires Apart(p, t) && !p.Top? && !p.up.Top? && p.GoneLeft? == p.up.GoneLeft?
    ensures var u, y, z := Fill(p.up, Fill(p, t)), p.id, p.up.id;
      && y in Ids(u) && z in Ids(u)
      && var v := Painted(Painted(u, y, false), z, true);
      && (p.GoneLeft? ==> v.left.Node? && v == Node(Node(t, y, false, p.right), z, true, p.up.right))
      && (p.GoneRight? ==> v.right.Node? && v == Node(p.up.left, z, true, Node(p.left, y, false, t)))
  {
    var u, y := Fill(p.up, Fill(p, t)), p.id;
    assert PathDistinct(p.up);
    assert y in Ids(Fill(p, t)) && y != p.up.id;
    if p.GoneRight? { assert y !in Ids(p.up.left); }
  }

  /** What the loop reads around a node with a red parent. */
  lemma InsertSite(m: Arena, root: int, p: Path, t: Tree)
    requires Shows(m, root, p, t) && InsertPending(p, t) && !p.Top? && p.red
    ensures !p.up.Top? && p.up.id < |m| && m[p.id].parent == p.up.id
    ensures m[p.up.id].left == p.id <==> p.up.GoneLeft?
    ensures (if p.up.GoneLeft? then m[p.up.id].right else m[p.up.id].left) == Ptr(Uncle(p))
    ensures Uncle(p).Node? ==> Uncle(p).id < |m| && m[Uncle(p).id].red == Uncle(p).red
  {
    GrandparentIsBlack(p, t);
    assert PathDistinct(p.up) && IsPath(m, p.up, p.id);
    assert IsTree(m, Uncle(p), p.up.id);
  }

  lemma InsertHole(m: Arena, root: int, p: Path, t: Tree)
    requires Shows(m, root, p, t) && t.Node?
    ensures t.id < |m| && m[t.id].parent == HoleParent(p)
    ensures !p.Top? ==> p.id < |m| && m[p.id].red == p.red
  {
  }

  /** The loop that starts at a new leaf of a tree of n nodes runs at most log2(n+1) times:
      it climbs two levels a round, and 2^depth <= (n+1)^2. */
  lemma InsertDepthBound(p: Path)
    requires RedBlack(Plug(p, Leaf))
    ensures var n := |Inorder(Plug(p, Leaf))|; Bits.Pow2(Depth(p)) <= (n + 1) * (n + 1)
  {
    HeightBound(Plug(p, Leaf));
    DepthWithinHeight(p, Leaf);
    Bits.PowerMonotone(Depth(p), Height(Plug(p, Leaf)));
  }

  /** Both rotations together end the loop and keep the contents. */
  lemma SettleOuter(p: Path, t: Tree)
    requires Apart(p, t) && InsertPending(p, t) && !p.Top? && p.red && !p.up.Top? && !IsRed(Uncle(p))
    ensures var f := Outer(p, t);
      && InsertPending(Settled(f.path), f.tree) && !Settled(f.path).Top? && !Settled(f.path).red
      && Inorder(Plug(Settled(f.path), f.tree)) == Inorder(Plug(p, t))
      && PathIds(Settled(f.path)) + Ids(f.tree) == PathIds(p) + Ids(t)
      && Depth(Settled(f.path)) < Depth(p)
  {
    var f := Outer(p, t);
    var q := Settled(f.path);
    OuterPending(p, t);
    Settle(f.path, f.tree);
    SameContents(p.up, Fill(f.path, f.tree), Fill(p, t));
    SameContents(p.up.up, Fill(q, f.tree), Fill(p.up, Fill(f.path, f.tree)));
    ApartPlug(q, f.tree); ApartPlug(p, t);
    InorderIds(Plug(q, f.tree)); InorderIds(Plug(p, t));
  }
}
