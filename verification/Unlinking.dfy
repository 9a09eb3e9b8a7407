/** Cutting a node out of a tree, as `rb_erase` does before it repairs the colours. */
module Unlinking {
  import opened Basics
  import opened Trees
  import opened Arenas
  import opened EraseFixup

  ghost function Without(s: seq<nat>, x: nat): seq<nat> {
    if s == [] then []
    else if s[0] == x then s[1..]
    else [s[0]] + Without(s[1..], x)
  }

  lemma {:induction false} WithoutAt(a: seq<nat>, x: nat, b: seq<nat>)
    requires x !in a
    ensures Without(a + [x] + b, x) == a + b
  {
    if a != [] {
      WithoutAt(a[1..], x, b);
      assert (a + [x] + b)[1..] == a[1..] + [x] + b;
      assert a + b == [a[0]] + (a[1..] + b);
    } else {
      assert a + [x] + b == [x] + b;
      assert a + b == b;
    }
  }

  lemma WithoutMiddle(pre: seq<nat>, a: seq<nat>, x: nat, b: seq<nat>, post: seq<nat>)
    requires x !in pre && x !in a
    ensures Without(pre + (a + [x] + b) + post, x) == pre + (a + b) + post
  {
    WithoutAt(pre + a, x, b + post);
    assert pre + (a + [x] + b) + post == (pre + a) + [x] + (b + post);
    assert pre + (a + b) + post == (pre + a) + (b + post);
  }

  // ----- a node with at most one child

  ghost function OnlyChild(t: Tree): Tree
    requires t.Node?
  {
    if t.left.Leaf? then t.right else t.left
  }

  /** `m1` is `m0` with the root of `t` bypassed by the links of its only child. */
  ghost predicate Bypassed(m0: Arena, m1: Arena, p: Path, t: Tree)
    requires t.Node?
  {
    var c, q := Ptr(OnlyChild(t)), HoleParent(p);
    && |m0| == |m1|
    && (0 <= c < |m0| ==> m1[c] == m0[c].(parent := q))
    && (0 <= q < |m0| ==> m1[q] == Redirected(p, m0[q], c))
    && (forall i :: 0 <= i < |m0| && i != c && i != q ==> m1[i] == m0[i])
  }

  lemma BypassSite(m: Arena, root: int, p: Path, t: Tree)
    requires Shows(m, root, p, t) && t.Node?
    ensures var x, c, q := t.id, Ptr(OnlyChild(t)), HoleParent(p);
      && x < |m| && m[x] == Cell(q, Ptr(t.left), Ptr(t.right), t.red)
      && (c != NULL ==> 0 <= c < |m| && c != x && c != q)
      && (q != NULL ==> 0 <= q < |m| && q != x && (m[q].left == x <==> p.GoneLeft?))
  {
    assert IsTree(m, OnlyChild(t), t.id) && Ids(OnlyChild(t)) <= Ids(t);
  }

  lemma BypassShows(m0: Arena, m1: Arena, root0: int, root1: int, p: Path, t: Tree)
    requires Shows(m0, root0, p, t) && t.Node? && Bypassed(m0, m1, p, t)
    requires root1 == if p.Top? then Ptr(OnlyChild(t)) else root0
    ensures Shows(m1, root1, p, OnlyChild(t))
    ensures SameOutside(m0, m1, PathIds(p) + Ids(t))
  {
    var c := OnlyChild(t);
    BypassSite(m0, root0, p, t);
    MovedTree(m0, m1, c, t.id, HoleParent(p));
    MovedPath(m0, m1, p, t.id, Ptr(c));
    RootMoves(p, t.id, Ptr(c));
  }

  /** What the repair of the colours starts from. */
  lemma BypassColours(p: Path, t: Tree)
    requires RedBlack(Plug(p, t)) && t.Node? && (t.left.Leaf? || t.right.Leaf?)
    ensures !t.red ==> ErasePending(p, OnlyChild(t))
    ensures t.red ==> RedBlack(Plug(p, OnlyChild(t)))
  {
    RedBlackPlug(p, t);
    RedBlackPlug(p, OnlyChild(t));
    ColouredWhenBlack(p, IsRed(t));
  }

  lemma ColouredWhenBlack(p: Path, holeRed: bool)
    requires PathColoured(p, holeRed)
    ensures PathColoured(p, false)
  {
  }

  lemma BypassContents(p: Path, t: Tree)
    requires t.Node? && (t.left.Leaf? || t.right.Leaf?) && Apart(p, t)
    ensures Inorder(Plug(p, OnlyChild(t))) == Without(Inorder(Plug(p, t)), t.id)
  {
    InorderPlug(p, t);
    InorderPlug(p, OnlyChild(t));
    PathSides(p);
    InorderIds(t.left);
    WithoutMiddle(Before(p), Inorder(t.left), t.id, Inorder(t.right), After(p));
    assert Inorder(OnlyChild(t)) == Inorder(t.left) + Inorder(t.right);
  }

  lemma PathSides(p: Path)
    ensures forall x :: x in Before(p) || x in After(p) ==> x in PathIds(p)
  {
    match p
    case Top =>
    case GoneLeft(up, i, _, r) => PathSides(up); InorderIds(r);
    case GoneRight(up, l, i, _) => PathSides(up); InorderIds(l);
  }

  // ----- a node that its successor replaces

  /** A path that only ever went left: the way to the first node of a tree. */
  ghost predicate LeftMost(q: Path) {
    q.Top? || (q.GoneLeft? && LeftMost(q.up))
  }

  lemma LeftMostBefore(q: Path)
    requires LeftMost(q)
    ensures Before(q) == []
  {
  }

  /** `m1` is `m0` with node `x` at the root of `t` replaced by the unlinked node `s`. */
  ghost predicate Renamed(m0: Arena, m1: Arena, p: Path, t: Tree, s: nat)
    requires t.Node?
  {
    var x, l, r, q := t.id, Ptr(t.left), Ptr(t.right), HoleParent(p);
    && |m0| == |m1| && x < |m0| && s < |m0|
    && m1[s] == m0[x]
    && (0 <= l < |m0| ==> m1[l] == m0[l].(parent := s))
    && (0 <= r < |m0| ==> m1[r] == m0[r].(parent := s))
    && (0 <= q < |m0| ==> m1[q] == Redirected(p, m0[q], s))
    && (forall i :: 0 <= i < |m0| && i != s && i != l && i != r && i != q ==> m1[i] == m0[i])
  }

  lemma RenameSite(m: Arena, root: int, p: Path, t: Tree)
    requires Shows(m, root, p, t) && t.Node?
    ensures var x, l, r, q := t.id, Ptr(t.left), Ptr(t.right), HoleParent(p);
      && x < |m| && m[x] == Cell(q, l, r, t.red)
      && (l != NULL ==> 0 <= l < |m| && l != x && l != q && l != r && l in Ids(t))
      && (r != NULL ==> 0 <= r < |m| && r != x && r != q && r in Ids(t))
      && (q != NULL ==> 0 <= q < |m| && q != x && q in PathIds(p) && (m[q].left == x <==> p.GoneLeft?))
  {
    assert IsTree(m, t.left, t.id) && IsTree(m, t.right, t.id);
    assert t.left.Node? ==> t.left.id in Ids(t.left);
    assert t.right.Node? ==> t.right.id in Ids(t.right);
  }

  lemma RenameShows(m0: Arena, m1: Arena, root0: int, root1: int, p: Path, t: Tree, s: nat)
    requires Shows(m0, root0, p, t) && t.Node? && s !in Ids(t) && s !in PathIds(p) && Renamed(m0, m1, p, t, s)
    requires root1 == if p.Top? then s else root0
    ensures Shows(m1, root1, p, t.(id := s))
    ensures SameOutside(m0, m1, PathIds(p) + Ids(t) + {s})
  {
    RenameSite(m0, root0, p, t);
    MovedTree(m0, m1, t.left, t.id, s);
    MovedTree(m0, m1, t.right, t.id, s);
    MovedPath(m0, m1, p, t.id, s);
    RootMoves(p, t.id, s);
  }

  /** The colours around a hole do not depend on which node the path leads through. */
  lemma {:induction false} UnderRenamed(q: Path, p: Path, l: Tree, x: nat, s: nat, red: bool, n: nat, holeRed: bool)
    ensures PathBalanced(Under(q, GoneRight(p, l, x, red)), n) <==> PathBalanced(Under(q, GoneRight(p, l, s, red)), n)
    ensures PathColoured(Under(q, GoneRight(p, l, x, red)), holeRed) <==> PathColoured(Under(q, GoneRight(p, l, s, red)), holeRed)
  {
    match q
    case Top =>
    case GoneLeft(up, _, c, _) => UnderRenamed(up, p, l, x, s, red, if c then n else n + 1, c);
    case GoneRight(up, _, _, c) => UnderRenamed(up, p, l, x, s, red, if c then n else n + 1, c);
  }

  lemma SuccessorColours(q: Path, p: Path, l: Tree, x: nat, red: bool, s: Tree)
    requires s.Node? && s.left.Leaf? && RedBlack(Plug(Under(q, GoneRight(p, l, x, red)), s))
    ensures var q1 := Under(q, GoneRight(p, l, s.id, red));
      && (!s.red ==> ErasePending(q1, s.right))
      && (s.red ==> RedBlack(Plug(q1, s.right)))
  {
    var q0, q1, c := Under(q, GoneRight(p, l, x, red)), Under(q, GoneRight(p, l, s.id, red)), s.right;
    hide PathBalanced, PathColoured, Under;
    BypassColours(q0, s);
    RedBlackPlug(q0, c);
    RedBlackPlug(q1, c);
    UnderRenamed(q, p, l, x, s.id, red, BlackHeight(c), IsRed(c));
    UnderRenamed(q, p, l, x, s.id, red, BlackHeight(c) + 1, false);
  }

  lemma SuccessorContents(q: Path, p: Path, l: Tree, x: nat, red: bool, s: Tree)
    requires s.Node? && s.left.Leaf? && LeftMost(q) && Apart(p, Node(l, x, red, Plug(q, s)))
    ensures Inorder(Plug(Under(q, GoneRight(p, l, s.id, red)), s.right)) ==
      Without(Inorder(Plug(Under(q, GoneRight(p, l, x, red)), s)), x)
  {
    var q0, q1, c := Under(q, GoneRight(p, l, x, red)), Under(q, GoneRight(p, l, s.id, red)), s.right;
    InorderPlug(q0, s);
    InorderPlug(q1, c);
    UnderContents(q, GoneRight(p, l, x, red));
    UnderContents(q, GoneRight(p, l, s.id, red));
    LeftMostBefore(q);
    PathSides(p);
    InorderIds(l);
    var before := Before(p) + Inorder(l);
    assert Before(q0) == before + [x] && Before(q1) == before + [s.id];
    SuccessorMovesUp(before, x, s.id, Inorder(c), After(q0));
    assert Inorder(s) == [s.id] + Inorder(c);
  }

  lemma Associate(a: seq<nat>, b: seq<nat>, c: seq<nat>)
    ensures a + b + c == a + (b + c)
  {
  }

  lemma SuccessorMovesUp(before: seq<nat>, x: nat, s: nat, c: seq<nat>, after: seq<nat>)
    requires x !in before
    ensures Without(before + [x] + ([s] + c) + after, x) == before + [s] + c + after
  {
    var rest := [s] + c;
    WithoutAt(before, x, rest + after);
    Associate(before + [x], rest, after);
    Associate(before, rest, after);
    Associate(before, [s], c);
  }

  lemma LeftMostSpine(q: Path, g: Path)
    requires LeftMost(q) && g.GoneRight?
    ensures var u := Under(q, g); !u.Top? && (u.GoneRight? <==> q.Top?) && (q.Top? ==> u == g) && (!q.Top? ==> u.id in PathIds(q))
  {
  }

  /** The successor lies in the right subtree, so it is none of the other nodes. */
  lemma SuccessorApart(p: Path, t: Tree, q: Path, s: Tree)
    requires Apart(p, t) && t.Node? && s.Node? && LeftMost(q) && Plug(q, s) == t.right
    ensures s.id in Ids(t) && s.id != t.id && s.id !in PathIds(p) && s.id !in Ids(t.left)
    ensures s.id !in Ids(Plug(q, s.right)) && Ids(Plug(q, s.right)) <= Ids(t.right)
    ensures var g := Under(q, GoneRight(p, t.left, t.id, t.red));
      !g.Top? && (g.GoneRight? <==> q.Top?) && (g.GoneRight? <==> g.id == t.id)
    ensures PathIds(Under(q, GoneRight(p, t.left, t.id, t.red))) + Ids(s) == PathIds(p) + Ids(t)
  {
    ApartPlug(q, s);
    ApartPlug(q, s.right);
    UnderIds(q, GoneRight(p, t.left, t.id, t.red));
    LeftMostSpine(q, GoneRight(p, t.left, t.id, t.red));
  }

  /** The hole a successor leaves is no deeper than the tree is high. */
  lemma SuccessorDepth(p: Path, t: Tree, q: Path, s: Tree)
    requires t.Node? && s.Node? && Plug(q, s) == t.right
    ensures forall i :: Depth(Under(q, GoneRight(p, t.left, i, t.red))) < Height(Plug(p, t))
  {
    DepthWithinHeight(p, t);
    DepthWithinHeight(q, s);
    forall i ensures Depth(Under(q, GoneRight(p, t.left, i, t.red))) < Height(Plug(p, t)) {
      UnderDepth(q, GoneRight(p, t.left, i, t.red));
    }
  }

  lemma SuccessorPlug(p: Path, t: Tree, q: Path, s: Tree)
    requires t.Node? && Plug(q, s) == t.right
    ensures Plug(Under(q, GoneRight(p, t.left, t.id, t.red)), s) == Plug(p, t)
    ensures Node(t.left, t.id, t.red, Plug(q, s)) == t
  {
    UnderPlug(q, GoneRight(p, t.left, t.id, t.red), s);
  }

  lemma {:induction false} WithoutMembers(s: seq<nat>, x: nat)
    requires NoRepeats(s)
    ensures forall y :: y in Without(s, x) <==> y in s && y != x
  {
    if s != [] {
      WithoutMembers(s[1..], x);
      assert s == [s[0]] + s[1..];
    }
  }

  lemma ErasedIds(t: Tree, u: Tree, x: nat)
    requires Distinct(t) && Inorder(u) == Without(Inorder(t), x)
    ensures Ids(u) == Ids(t) - {x}
  {
    InorderIds(t);
    InorderIds(u);
    DistinctInorder(t);
    WithoutMembers(Inorder(t), x);
  }
}
