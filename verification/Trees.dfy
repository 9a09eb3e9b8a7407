/** The mathematical side of `ds/rbtree.h`: coloured binary trees, and paths that
    lead from the root to a hole in a tree.  The fix-up loops of the C code work
    at one node and climb; a path is the part of the tree they climb through. */
module Trees {
  import Bits

  datatype Tree = Leaf | Node(left: Tree, id: nat, red: bool, right: Tree)

  /** The way down to a hole: `GoneLeft` says that the hole is the left child of `id`. */
  datatype Path =
    | Top
    | GoneLeft(up: Path, id: nat, red: bool, right: Tree)
    | GoneRight(up: Path, left: Tree, id: nat, red: bool)

  ghost function Plug(p: Path, t: Tree): Tree {
    match p
    case Top => t
    case GoneLeft(up, i, red, r) => Plug(up, Node(t, i, red, r))
    case GoneRight(up, l, i, red) => Plug(up, Node(l, i, red, t))
  }

  // ----- contents

  ghost function Inorder(t: Tree): seq<nat> {
    match t
    case Leaf => []
    case Node(l, i, _, r) => Inorder(l) + [i] + Inorder(r)
  }

  ghost function Before(p: Path): seq<nat> {
    match p
    case Top => []
    case GoneLeft(up, _, _, _) => Before(up)
    case GoneRight(up, l, i, _) => Before(up) + Inorder(l) + [i]
  }

  ghost function After(p: Path): seq<nat> {
    match p
    case Top => []
    case GoneLeft(up, i, _, r) => [i] + Inorder(r) + After(up)
    case GoneRight(up, _, _, _) => After(up)
  }

  lemma Splice(a: seq<nat>, b: seq<nat>, c: seq<nat>, d: seq<nat>)
    ensures a + (b + c) + d == a + b + (c + d)
    ensures a + (b + c) + d == (a + b) + c + d
  {
  }

  /** Both groupings of three subtrees around two nodes list the same nodes. */
  lemma Regroup(a: seq<nat>, x: nat, b: seq<nat>, y: nat, c: seq<nat>)
    ensures (a + [x] + b) + [y] + c == a + [x] + (b + [y] + c)
  {
  }

  lemma {:induction false} InorderPlug(p: Path, t: Tree)
    ensures Inorder(Plug(p, t)) == Before(p) + Inorder(t) + After(p)
  {
    match p
    case Top =>
    case GoneLeft(up, i, red, r) =>
      InorderPlug(up, Node(t, i, red, r));
      Splice(Before(up), Inorder(t), [i] + Inorder(r), After(up));
      assert Inorder(t) + [i] + Inorder(r) == Inorder(t) + ([i] + Inorder(r));
    case GoneRight(up, l, i, red) =>
      InorderPlug(up, Node(l, i, red, t));
      Splice(Before(up), Inorder(l) + [i], Inorder(t), After(up));
      assert Before(up) + Inorder(l) + [i] == Before(up) + (Inorder(l) + [i]);
  }

  lemma SameContents(p: Path, t: Tree, u: Tree)
    requires Inorder(t) == Inorder(u)
    ensures Inorder(Plug(p, t)) == Inorder(Plug(p, u))
  {
    InorderPlug(p, t);
    InorderPlug(p, u);
  }

  // ----- node identities

  ghost function Ids(t: Tree): set<nat> {
    match t
    case Leaf => {}
    case Node(l, i, _, r) => Ids(l) + {i} + Ids(r)
  }

  ghost function PathIds(p: Path): set<nat> {
    match p
    case Top => {}
    case GoneLeft(up, i, _, r) => PathIds(up) + {i} + Ids(r)
    case GoneRight(up, l, i, _) => PathIds(up) + {i} + Ids(l)
  }

  ghost predicate Distinct(t: Tree) {
    match t
    case Leaf => true
    case Node(l, i, _, r) =>
      Distinct(l) && Distinct(r) && i !in Ids(l) && i !in Ids(r) && Ids(l) !! Ids(r)
  }

  ghost predicate PathDistinct(p: Path) {
    match p
    case Top => true
    case GoneLeft(up, i, _, r) =>
      PathDistinct(up) && Distinct(r) && i !in Ids(r) && i !in PathIds(up) && Ids(r) !! PathIds(up)
    case GoneRight(up, l, i, _) =>
      PathDistinct(up) && Distinct(l) && i !in Ids(l) && i !in PathIds(up) && Ids(l) !! PathIds(up)
  }

  /** No node occurs twice in the tree that `t` completes `p` to. */
  ghost predicate Apart(p: Path, t: Tree) {
    Distinct(t) && PathDistinct(p) && Ids(t) !! PathIds(p)
  }

  lemma {:induction false} ApartPlug(p: Path, t: Tree)
    ensures Distinct(Plug(p, t)) <==> Apart(p, t)
    ensures Ids(Plug(p, t)) == PathIds(p) + Ids(t)
  {
    match p
    case Top =>
    case GoneLeft(up, i, red, r) => ApartPlug(up, Node(t, i, red, r));
    case GoneRight(up, l, i, red) => ApartPlug(up, Node(l, i, red, t));
  }

  lemma InorderIds(t: Tree)
    ensures forall x :: x in Inorder(t) <==> x in Ids(t)
  {
  }

  ghost predicate NoRepeats(s: seq<nat>) {
    forall i, j :: 0 <= i < j < |s| ==> s[i] != s[j]
  }

  lemma NoRepeatsJoin(a: seq<nat>, x: nat, b: seq<nat>)
    requires NoRepeats(a) && NoRepeats(b) && x !in a && x !in b
    requires forall y :: y in a ==> y !in b
    ensures NoRepeats(a + [x] + b)
  {
    var s := a + [x] + b;
    forall i, j | 0 <= i < j < |s| ensures s[i] != s[j] {
      if i < |a| { assert s[i] == a[i] && s[i] in a; }
      if j > |a| { assert s[j] == b[j - |a| - 1] && s[j] in b; }
    }
  }

  /** A tree whose nodes are distinct lists no identity twice. */
  lemma {:induction false} DistinctInorder(t: Tree)
    requires Distinct(t)
    ensures NoRepeats(Inorder(t)) && |Inorder(t)| == |Ids(t)|
  {
    match t
    case Leaf =>
    case Node(l, x, _, r) =>
      DistinctInorder(l); DistinctInorder(r);
      InorderIds(l); InorderIds(r);
      NoRepeatsJoin(Inorder(l), x, Inorder(r));
  }

  // ----- the red-black conditions

  ghost predicate IsRed(t: Tree) { t.Node? && t.red }

  ghost function Blacken(t: Tree): Tree {
    if t.Node? then t.(red := false) else t
  }

  ghost function Redden(t: Tree): Tree {
    if t.Node? then t.(red := true) else t
  }

  /** No red node below `t` (or `t` itself) has a red child. */
  ghost predicate NoRedRed(t: Tree) {
    match t
    case Leaf => true
    case Node(l, _, red, r) =>
      NoRedRed(l) && NoRedRed(r) && (red ==> !IsRed(l) && !IsRed(r))
  }

  /** Black nodes on the leftmost way down; in a balanced tree, on every way down. */
  ghost function BlackHeight(t: Tree): nat {
    match t
    case Leaf => 0
    case Node(l, _, red, _) => BlackHeight(l) + if red then 0 else 1
  }

  ghost predicate Balanced(t: Tree) {
    match t
    case Leaf => true
    case Node(l, _, _, r) => Balanced(l) && Balanced(r) && BlackHeight(l) == BlackHeight(r)
  }

  ghost predicate RedBlack(t: Tree) {
    !IsRed(t) && NoRedRed(t) && Balanced(t)
  }

  /** The path around a hole that a balanced tree of black height `n` completes. */
  ghost predicate PathBalanced(p: Path, n: nat) {
    match p
    case Top => true
    case GoneLeft(up, _, red, r) =>
      Balanced(r) && BlackHeight(r) == n && PathBalanced(up, if red then n else n + 1)
    case GoneRight(up, l, _, red) =>
      Balanced(l) && BlackHeight(l) == n && PathBalanced(up, if red then n else n + 1)
  }

  /** The path around a hole has no red-red edge and a black root, when the hole is
      filled by a tree whose root is red exactly if `holeRed`. */
  ghost predicate PathColoured(p: Path, holeRed: bool) {
    match p
    case Top => !holeRed
    case GoneLeft(up, _, red, r) =>
      NoRedRed(r) && (red ==> !holeRed && !IsRed(r)) && PathColoured(up, red)
    case GoneRight(up, l, _, red) =>
      NoRedRed(l) && (red ==> !holeRed && !IsRed(l)) && PathColoured(up, red)
  }

  /** Being red-black splits, at any hole, into a condition on the part below and
      a condition on the way down to it. */
  lemma {:induction false} RedBlackPlug(p: Path, t: Tree)
    ensures RedBlack(Plug(p, t)) <==>
      NoRedRed(t) && Balanced(t) && PathColoured(p, IsRed(t)) && PathBalanced(p, BlackHeight(t))
  {
    match p
    case Top =>
    case GoneLeft(up, i, red, r) => RedBlackPlug(up, Node(t, i, red, r));
    case GoneRight(up, l, i, red) => RedBlackPlug(up, Node(l, i, red, t));
  }

  // ----- height

  ghost function Max(a: nat, b: nat): nat { if a < b then b else a }

  ghost function Height(t: Tree): nat {
    match t
    case Leaf => 0
    case Node(l, _, _, r) => 1 + Max(Height(l), Height(r))
  }

  ghost function Depth(p: Path): nat {
    match p
    case Top => 0
    case GoneLeft(up, _, _, _) => 1 + Depth(up)
    case GoneRight(up, _, _, _) => 1 + Depth(up)
  }

  lemma {:induction false} HeightByBlackHeight(t: Tree)
    requires NoRedRed(t) && Balanced(t)
    ensures Height(t) <= 2 * BlackHeight(t) + if IsRed(t) then 1 else 0
  {
    match t
    case Leaf =>
    case Node(l, _, _, r) => HeightByBlackHeight(l); HeightByBlackHeight(r);
  }

  lemma {:induction false} SizeByBlackHeight(t: Tree)
    requires Balanced(t)
    ensures Bits.Pow2(BlackHeight(t)) <= |Inorder(t)| + 1
  {
    match t
    case Leaf =>
    case Node(l, _, _, r) => SizeByBlackHeight(l); SizeByBlackHeight(r);
  }

  lemma SquareMonotone(a: nat, b: nat)
    requires a <= b
    ensures a * a <= b * b
  {
    assert a * a <= a * b <= b * b;
  }

  /** The height h of a red-black tree of n nodes satisfies 2^h <= (n+1)^2,
      that is, h <= 2*log2(n+1). */
  lemma HeightBound(t: Tree)
    requires RedBlack(t)
    ensures Bits.Pow2(Height(t)) <= (|Inorder(t)| + 1) * (|Inorder(t)| + 1)
  {
    var n, b := |Inorder(t)| + 1, BlackHeight(t);
    HeightByBlackHeight(t);
    SizeByBlackHeight(t);
    Bits.PowerMonotone(Height(t), b + b);
    Bits.PowerSplits(b, b);
    SquareMonotone(Bits.Pow2(b), n);
  }

  lemma {:induction false} DepthWithinHeight(p: Path, t: Tree)
    ensures Depth(p) + Height(t) <= Height(Plug(p, t))
  {
    match p
    case Top =>
    case GoneLeft(up, i, red, r) => DepthWithinHeight(up, Node(t, i, red, r));
    case GoneRight(up, l, i, red) => DepthWithinHeight(up, Node(l, i, red, t));
  }

  // ----- moving about

  /** The hole of `q` seen from the root, when `q` itself hangs in the hole of `p`. */
  ghost function Under(q: Path, p: Path): Path {
    match q
    case Top => p
    case GoneLeft(up, i, red, r) => GoneLeft(Under(up, p), i, red, r)
    case GoneRight(up, l, i, red) => GoneRight(Under(up, p), l, i, red)
  }

  lemma {:induction false} UnderPlug(q: Path, p: Path, t: Tree)
    ensures Plug(Under(q, p), t) == Plug(p, Plug(q, t))
  {
    match q
    case Top =>
    case GoneLeft(up, i, red, r) => UnderPlug(up, p, Node(t, i, red, r));
    case GoneRight(up, l, i, red) => UnderPlug(up, p, Node(l, i, red, t));
  }

  lemma Associates(a: seq<nat>, b: seq<nat>, c: seq<nat>)
    ensures a + b + c == a + (b + c)
  {
  }

  lemma {:induction false} UnderContents(q: Path, p: Path)
    ensures Before(Under(q, p)) == Before(p) + Before(q)
    ensures After(Under(q, p)) == After(q) + After(p)
  {
    match q
    case Top =>
    case GoneLeft(up, i, red, r) =>
      UnderContents(up, p);
      var mine := [i] + Inorder(r);
      assert After(q) == mine + After(up);
      assert After(Under(q, p)) == mine + After(Under(up, p));
      assert Before(q) == Before(up) && Before(Under(q, p)) == Before(Under(up, p));
      hide After, Before, Inorder;
      Associates(mine, After(up), After(p));
    case GoneRight(up, l, i, red) =>
      UnderContents(up, p);
      assert Before(q) == Before(up) + Inorder(l) + [i];
      assert Before(Under(q, p)) == Before(Under(up, p)) + Inorder(l) + [i];
      assert After(q) == After(up) && After(Under(q, p)) == After(Under(up, p));
      hide After, Before, Inorder;
      Associates(Before(p), Before(up), Inorder(l));
      Associates(Before(p), Before(up) + Inorder(l), [i]);
  }

  lemma {:induction false} UnderDepth(q: Path, p: Path)
    ensures Depth(Under(q, p)) == Depth(q) + Depth(p)
  {
    match q
    case Top =>
    case GoneLeft(up, _, _, _) => UnderDepth(up, p);
    case GoneRight(up, _, _, _) => UnderDepth(up, p);
  }

  lemma UnderIds(q: Path, p: Path)
    ensures PathIds(Under(q, p)) == PathIds(q) + PathIds(p)
  {
  }

  /** The tree one level above the hole. */
  ghost function Fill(p: Path, t: Tree): (u: Tree)
    requires !p.Top?
    ensures u.Node? && u.id == p.id && Plug(p.up, u) == Plug(p, t)
  {
    if p.GoneLeft? then Node(t, p.id, p.red, p.right) else Node(p.left, p.id, p.red, t)
  }

  datatype Focus = Focus(path: Path, tree: Tree)

  /** The place of node `x` below the hole of `p`. */
  ghost function Find(p: Path, t: Tree, x: nat): (f: Focus)
    requires x in Ids(t)
    ensures f.tree.Node? && f.tree.id == x && Plug(f.path, f.tree) == Plug(p, t)
    decreases t
  {
    if t.id == x then Focus(p, t)
    else if x in Ids(t.left) then Find(GoneLeft(p, t.id, t.red, t.right), t.left, x)
    else Find(GoneRight(p, t.left, t.id, t.red), t.right, x)
  }
}
