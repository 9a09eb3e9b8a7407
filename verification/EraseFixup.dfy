/** Why `rb_erase_color` repairs the tree: its steps, on trees and paths. */
module EraseFixup {
  import opened Trees
  import opened Arenas

  /** What holds when a black node has been cut out above `t`: the tree is red-black
      but for one black node missing on every way through `t`, whose root may be red
      below a red parent. */
  ghost predicate ErasePending(p: Path, t: Tree) {
    NoRedRed(Blacken(t)) && Balanced(t) && PathBalanced(p, BlackHeight(t) + 1) && PathColoured(p, false)
  }

  ghost predicate SameNodes(p: Path, t: Tree, q: Path, u: Tree) {
    PathIds(p) + Ids(t) == PathIds(q) + Ids(u) && Inorder(Plug(p, t)) == Inorder(Plug(q, u))
  }

  ghost function Sibling(p: Path): Tree
    requires !p.Top?
  {
    if p.GoneLeft? then p.right else p.left
  }

  ghost function WithSibling(p: Path, s: Tree): Path
    requires !p.Top?
  {
    if p.GoneLeft? then p.(right := s) else p.(left := s)
  }

  ghost function WithParentRed(p: Path, red: bool): Path
    requires !p.Top?
  {
    if p.GoneLeft? then GoneLeft(p.up, p.id, red, p.right) else GoneRight(p.up, p.left, p.id, red)
  }

  /** The sibling with its near child, or its far child, made black. */
  ghost function NearBlackened(p: Path): (s1: Tree)
    requires !p.Top? && Sibling(p).Node?
    ensures s1.Node?
  {
    var s := Sibling(p);
    if p.GoneLeft? then s.(left := Blacken(s.left)) else s.(right := Blacken(s.right))
  }

  ghost function FarBlackened(p: Path): (s1: Tree)
    requires !p.Top? && Sibling(p).Node?
    ensures s1.Node?
  {
    var s := Sibling(p);
    if p.GoneLeft? then s.(right := Blacken(s.right)) else s.(left := Blacken(s.left))
  }

  /** The sibling's child on the far side from the hole, and on the near side. */
  ghost function Far(p: Path): Tree
    requires !p.Top? && Sibling(p).Node?
  {
    if p.GoneLeft? then p.right.right else p.left.left
  }

  ghost function Near(p: Path): Tree
    requires !p.Top? && Sibling(p).Node?
  {
    if p.GoneLeft? then p.right.left else p.left.right
  }

  /** The path after a rotation at the parent that moves the sibling above it. */
  ghost function Turned(p: Path): Path
    requires !p.Top? && Sibling(p).Node?
  {
    var s := Sibling(p);
    if p.GoneLeft? then GoneLeft(GoneLeft(p.up, s.id, s.red, s.right), p.id, p.red, s.left)
    else GoneRight(GoneRight(p.up, s.left, s.id, s.red), s.right, p.id, p.red)
  }

  /** The sibling after the rotation that moves its near child above it. */
  ghost function TurnedSibling(p: Path): Tree
    requires !p.Top? && Sibling(p).Node? && Near(p).Node?
  {
    var s, n := Sibling(p), Near(p);
    if p.GoneLeft? then Node(n.left, n.id, n.red, Node(n.right, s.id, s.red, s.right))
    else Node(Node(s.left, s.id, s.red, n.left), n.id, n.red, n.right)
  }

  // ----- the steps keep the nodes

  lemma SiblingNodes(p: Path, t: Tree, s: Tree)
    requires !p.Top? && Apart(p, t)
    requires Ids(s) == Ids(Sibling(p)) && Inorder(s) == Inorder(Sibling(p)) && Distinct(s)
    ensures SameNodes(p, t, WithSibling(p, s), t) && Apart(WithSibling(p, s), t)
  {
    SameContents(p.up, Fill(p, t), Fill(WithSibling(p, s), t));
  }

  lemma TurnedNodes(p: Path, t: Tree)
    requires !p.Top? && Apart(p, t) && Sibling(p).Node?
    ensures SameNodes(p, t, Turned(p), t)
  {
    var q, s := Turned(p), Sibling(p);
    var u, v := Fill(p, t), Fill(q.up, Fill(q, t));
    assert Inorder(u) == Inorder(v) by { TurnedInorder(p, t); }
    SameContents(p.up, u, v);
    assert Ids(s) == Ids(s.left) + {s.id} + Ids(s.right);
  }

  lemma TurnedInorder(p: Path, t: Tree)
    requires !p.Top? && Sibling(p).Node?
    ensures Inorder(Fill(p, t)) == Inorder(Fill(Turned(p).up, Fill(Turned(p), t)))
  {
    var s := Sibling(p);
    if p.GoneLeft? {
      Regroup(Inorder(t), p.id, Inorder(s.left), s.id, Inorder(s.right));
    } else {
      Regroup(Inorder(s.left), s.id, Inorder(s.right), p.id, Inorder(t));
    }
  }

  lemma TurnedSiblingNodes(p: Path)
    requires !p.Top? && Sibling(p).Node? && Near(p).Node? && Distinct(Sibling(p))
    ensures var s := TurnedSibling(p);
      Ids(s) == Ids(Sibling(p)) && Inorder(s) == Inorder(Sibling(p)) && Distinct(s)
  {
    var s, n := Sibling(p), Near(p);
    assert Distinct(n);
    if p.GoneLeft? {
      Regroup(Inorder(n.left), n.id, Inorder(n.right), s.id, Inorder(s.right));
    } else {
      Regroup(Inorder(s.left), s.id, Inorder(n.left), n.id, Inorder(n.right));
    }
  }

  // ----- the steps repair the colours

  ghost predicate Black(t: Tree) { !IsRed(t) }

  /** A missing black node leaves room for a sibling, so the loop never reads through NULL. */
  lemma SiblingExists(p: Path, t: Tree)
    requires ErasePending(p, t) && !p.Top?
    ensures Sibling(p).Node? && BlackHeight(Sibling(p)) == BlackHeight(t) + 1
    ensures NoRedRed(Sibling(p)) && Balanced(Sibling(p)) && (p.red ==> Black(Sibling(p)))
    ensures PathColoured(p.up, p.red)
    ensures PathBalanced(p.up, BlackHeight(t) + if p.red then 1 else 2)
  {
  }

  /** A red sibling is moved above the parent; the new sibling is black. */
  lemma RedSibling(p: Path, t: Tree)
    requires ErasePending(p, t) && !p.Top? && IsRed(Sibling(p))
    ensures !p.red
    ensures var q := Turned(WithParentRed(WithSibling(p, Blacken(Sibling(p))), true));
      ErasePending(q, t) && q.red && Black(Sibling(q)) && q.up.up == p.up && q.GoneLeft? == p.GoneLeft?
  {
    SiblingExists(p, t);
    assert NoRedRed(Far(p)) && NoRedRed(Near(p)) && Balanced(Far(p)) && Balanced(Near(p));
  }

  /** With two black nephews the missing black node moves up one level. */
  lemma BlackNephews(p: Path, t: Tree)
    requires ErasePending(p, t) && !p.Top? && Black(t) && Sibling(p).Node? && Black(Sibling(p)) && Black(Far(p)) && Black(Near(p))
    ensures ErasePending(p.up, Fill(WithSibling(p, Redden(Sibling(p))), t))
  {
    SiblingExists(p, t);
    assert NoRedRed(Far(p)) && NoRedRed(Near(p));
  }

  /** The path once the near nephew has been made black, the sibling red, and the
      nephew been moved above it. */
  ghost function NearRaised(p: Path): Path
    requires !p.Top? && Sibling(p).Node? && Near(p).Node?
  {
    WithSibling(p, TurnedSibling(WithSibling(p, Redden(NearBlackened(p)))))
  }

  /** A red near nephew above a black far one becomes a red far nephew. */
  lemma RedNear(p: Path, t: Tree)
    requires ErasePending(p, t) && !p.Top? && Sibling(p).Node? && Black(Sibling(p)) && Black(Far(p)) && IsRed(Near(p))
    ensures var q := NearRaised(p);
      ErasePending(q, t) && Sibling(q).Node? && Black(Sibling(q)) && IsRed(Far(q))
  {
    SiblingExists(p, t);
    var n, s := Near(p), Sibling(NearRaised(p));
    assert NoRedRed(n) && Balanced(n) && NoRedRed(n.left) && NoRedRed(n.right);
    assert NoRedRed(Far(p)) && Balanced(Far(p));
    if p.GoneLeft? { assert NoRedRed(s.right) && Balanced(s.right); }
    else { assert NoRedRed(s.left) && Balanced(s.left) && BlackHeight(s.left) == BlackHeight(n); }
    assert NoRedRed(s) && Balanced(s) && BlackHeight(s) == BlackHeight(Sibling(p));
  }

  /** The path once the sibling has taken over the parent's place and colour. */
  ghost function SiblingRaised(p: Path): Path
    requires !p.Top? && Sibling(p).Node?
  {
    var s := FarBlackened(p);
    Turned(WithParentRed(WithSibling(p, Node(s.left, s.id, p.red, s.right)), false))
  }

  /** With a red far nephew one rotation at the parent restores the tree. */
  lemma RedFar(p: Path, t: Tree)
    requires ErasePending(p, t) && !p.Top? && Black(t) && Sibling(p).Node? && Black(Sibling(p)) && IsRed(Far(p))
    ensures RedBlack(Plug(SiblingRaised(p), t))
  {
    SiblingExists(p, t);
    var q, f := SiblingRaised(p), Far(p);
    assert NoRedRed(f) && Balanced(f) && NoRedRed(Near(p)) && Balanced(Near(p));
    assert NoRedRed(Blacken(f)) && Balanced(Blacken(f));
    assert PathColoured(q.up, false) && PathBalanced(q.up, BlackHeight(t) + 1);
    RedBlackPlug(q, t);
  }

  /** When the loop ends, blackening the node restores the missing black one. */
  lemma EraseDone(p: Path, t: Tree)
    requires ErasePending(p, t) && (p.Top? || IsRed(t))
    ensures RedBlack(Plug(p, Blacken(t)))
  {
    RedBlackPlug(p, Blacken(t));
  }

  lemma EraseRestored(p: Path, t: Tree)
    requires RedBlack(Plug(p, t))
    ensures ErasePending(Top, Plug(p, t))
  {
  }

  // ----- what the loop reads

  lemma SiblingSite(m: Arena, root: int, p: Path, t: Tree)
    requires Shows(m, root, p, t) && !p.Top? && Sibling(p).Node?
    ensures p.id < |m| && m[p.id].red == p.red
    ensures (if p.GoneLeft? then m[p.id].right else m[p.id].left) == Sibling(p).id
    ensures var s := Sibling(p); s.id < |m| && m[s.id] == Cell(p.id, Ptr(s.left), Ptr(s.right), s.red)
    ensures forall u :: u == Far(p) || u == Near(p) ==> u.Node? ==> u.id < |m| && m[u.id].red == u.red
  {
    assert IsTree(m, Sibling(p), p.id);
    assert IsTree(m, Far(p), Sibling(p).id) && IsTree(m, Near(p), Sibling(p).id);
  }

  lemma NephewPaint(p: Path)
    requires !p.Top? && Sibling(p).Node? && Distinct(Sibling(p))
    ensures Near(p).Node? ==>
      Near(p).id in Ids(Sibling(p)) && Painted(Sibling(p), Near(p).id, false) == NearBlackened(p)
    ensures Far(p).Node? ==>
      Far(p).id in Ids(Sibling(p)) && Painted(Sibling(p), Far(p).id, false) == FarBlackened(p)
  {
    assert Near(p).Node? ==> Near(p).id in Ids(Near(p));
    assert Far(p).Node? ==> Far(p).id in Ids(Far(p));
  }

  /** The comparison with the left child tells on which side of the parent the hole
      is, even for an empty hole, because the sibling is not empty. */
  lemma HoleSide(m: Arena, root: int, p: Path, t: Tree)
    requires Shows(m, root, p, t) && !p.Top? && Sibling(p).Node?
    ensures p.id < |m| && (m[p.id].left == Ptr(t) <==> p.GoneLeft?)
  {
    assert Sibling(p).id in Ids(Sibling(p));
  }

  lemma HoleAtRoot(m: Arena, root: int, p: Path, t: Tree)
    requires Shows(m, root, p, t)
    ensures Ptr(t) == root <==> p.Top?
    ensures t.Node? ==> t.id < |m| && m[t.id].red == t.red && m[t.id].parent == HoleParent(p)
  {
    if !p.Top? { RootIsOnPath(p, Ptr(t)); }
  }
}
