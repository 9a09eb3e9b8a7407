/** Where a node stands in the order of the tree it belongs to. */
module Walking {
  import opened Trees
  import opened Arenas

  lemma InorderNonempty(t: Tree)
    ensures |Inorder(t)| > 0 <==> t.Node?
  {
  }

  /** The neighbours in `s` of the element at `k`, when `a + l` stands before it and
      `r + b` behind it. */
  ghost predicate Neighbours(s: seq<nat>, a: seq<nat>, l: seq<nat>, r: seq<nat>, b: seq<nat>, k: nat) {
    && (r != [] ==> k + 1 < |s| && s[k + 1] == r[0])
    && (r == [] ==> if b != [] then k + 1 < |s| && s[k + 1] == b[0] else k + 1 == |s|)
    && (l != [] ==> 0 < k <= |s| && s[k - 1] == l[|l| - 1])
    && (l == [] ==> if a != [] then 0 < k <= |s| && s[k - 1] == a[|a| - 1] else k == 0)
  }

  lemma RankInSeq(s: seq<nat>, a: seq<nat>, l: seq<nat>, x: nat, r: seq<nat>, b: seq<nat>, k: nat)
    requires NoRepeats(s) && s == a + (l + [x] + r) + b && k < |s| && s[k] == x
    ensures Neighbours(s, a, l, r, b, k)
  {
    var m := l + [x] + r;
    assert s[|a| + |l|] == m[|l|] == x;
    if l != [] { assert s[k - 1] == m[|l| - 1]; }
    if r != [] { assert s[k + 1] == m[|l| + 1]; }
  }

  /** The neighbours of a node in the order of its tree: those of its subtree, or else
      those of the path to it. */
  lemma RankOf(tree: Tree, p: Path, t: Tree, k: nat)
    requires Distinct(tree) && tree == Plug(p, t) && t.Node? && k < |Inorder(tree)| && Inorder(tree)[k] == t.id
    ensures Neighbours(Inorder(tree), Before(p), Inorder(t.left), Inorder(t.right), After(p), k)
  {
    hide Neighbours, Before, After;
    InorderPlug(p, t);
    DistinctInorder(tree);
    RankInSeq(Inorder(tree), Before(p), Inorder(t.left), t.id, Inorder(t.right), After(p), k);
  }

  lemma PathEnds(p: Path)
    ensures p.GoneLeft? ==> After(p) != [] && After(p)[0] == p.id
    ensures p.GoneRight? ==> Before(p) != [] && Before(p)[|Before(p)| - 1] == p.id
    ensures p.GoneRight? ==> After(p) == After(p.up)
    ensures p.GoneLeft? ==> Before(p) == Before(p.up)
    ensures p.Top? ==> Before(p) == [] && After(p) == []
  {
  }

  lemma ParentSite(m: Arena, root: int, p: Path, t: Tree)
    requires Shows(m, root, p, t) && t.Node?
    ensures t.id < |m| && m[t.id].parent == HoleParent(p)
    ensures !p.Top? ==> p.id < |m| && (t.id == m[p.id].right <==> p.GoneRight?) && (t.id == m[p.id].left <==> p.GoneLeft?)
  {
  }
}
