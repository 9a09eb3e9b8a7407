/** `ds/list.h`: circular doubly linked lists, rewired in place. */
module Lists {
  import opened Basics

  type Addr = int

  type Links = map<Addr, Addr>

  ghost predicate Distinct(c: seq<Addr>) {
    forall i, j :: 0 <= i < j < |c| ==> c[i] != c[j]
  }

  ghost function Succ(c: seq<Addr>, i: nat): Addr
    requires i < |c|
  {
    if i + 1 < |c| then c[i + 1] else c[0]
  }

  ghost function Pred(c: seq<Addr>, i: nat): Addr
    requires i < |c|
  {
    if i > 0 then c[i - 1] else c[|c| - 1]
  }

  ghost predicate LinkedAt(next: Links, prev: Links, c: seq<Addr>, i: nat)
    requires i < |c|
  {
    c[i] in next && c[i] in prev && next[c[i]] == Succ(c, i) && prev[c[i]] == Pred(c, i)
  }

  /** The nodes of `c` form a ring in this order: `next` leads from each to the one behind
      it, and from the last to the first; `prev` leads back. */
  ghost predicate IsRing(next: Links, prev: Links, c: seq<Addr>) {
    |c| > 0 && Distinct(c) && forall i :: 0 <= i < |c| ==> LinkedAt(next, prev, c, i)
  }

  ghost predicate SameElsewhere(m0: Links, m1: Links, c: seq<Addr>) {
    forall a :: a !in c ==> (a in m0 <==> a in m1) && (a in m0 ==> m0[a] == m1[a])
  }

  ghost predicate Disjoint(c: seq<Addr>, d: seq<Addr>) {
    forall i, j :: 0 <= i < |c| && 0 <= j < |d| ==> c[i] != d[j]
  }

  lemma JoinElement(list: Addr, head: Addr, s: seq<Addr>, t: seq<Addr>, i: nat)
    requires i < 1 + |s| + |t|
    ensures i == 0 ==> ([head] + s + t)[i] == ([head] + t)[0]
    ensures 0 < i <= |s| ==> ([head] + s + t)[i] == ([list] + s)[i]
    ensures i > |s| ==> ([head] + s + t)[i] == ([head] + t)[i - |s|]
  {}

  lemma JoinIsDistinct(list: Addr, head: Addr, s: seq<Addr>, t: seq<Addr>)
    requires Distinct([list] + s) && Distinct([head] + t) && Disjoint([list] + s, [head] + t)
    ensures Distinct([head] + s + t)
  {
    var e := [head] + s + t;
    forall i, j | 0 <= i < j < |e| ensures e[i] != e[j] {
      JoinElement(list, head, s, t, i);
      JoinElement(list, head, s, t, j);
    }
  }

  class ListHeap {
    var next: Links
    var prev: Links

    ghost predicate Ring(c: seq<Addr>)
      reads this
    {
      IsRing(next, prev, c)
    }

    constructor ()
    {
      next := map[];
      prev := map[];
    }

    method Init(head: Addr)
      modifies this
      ensures Ring([head])
      ensures SameElsewhere(old(next), next, [head]) && SameElsewhere(old(prev), prev, [head])
    {
      next := next[head := head];
      prev := prev[head := head];
    }

    /** `__list_add`: links `entry` between two neighbours of the ring. */
    method AddBetween(entry: Addr, prevNode: Addr, nextNode: Addr, ghost c: seq<Addr>, ghost k: nat)
      requires Ring(c) && k < |c| && prevNode == c[k] && nextNode == Succ(c, k) && entry !in c
      modifies this
      ensures Ring(c[..k + 1] + [entry] + c[k + 1..])
      ensures SameElsewhere(old(next), next, c + [entry]) && SameElsewhere(old(prev), prev, c + [entry])
    {
      ghost var c1 := c[..k + 1] + [entry] + c[k + 1..];
      assert LinkedAt(next, prev, c, k);
      prev := prev[nextNode := entry];
      next := next[entry := nextNode];
      prev := prev[entry := prevNode];
      next := next[prevNode := entry];
      forall i | 0 <= i < |c1| ensures LinkedAt(next, prev, c1, i) {
        if i <= k { assert LinkedAt(old(next), old(prev), c, i); }
        if i > k + 1 { assert LinkedAt(old(next), old(prev), c, i - 1); }
      }
    }

    /** `list_add`: puts `entry` behind the head. */
    method Add(entry: Addr, head: Addr, ghost c: seq<Addr>)
      requires Ring(c) && head == c[0] && entry !in c
      modifies this
      ensures Ring([head, entry] + c[1..])
      ensures SameElsewhere(old(next), next, c + [entry]) && SameElsewhere(old(prev), prev, c + [entry])
    {
      assert LinkedAt(next, prev, c, 0);
      AddBetween(entry, head, next[head], c, 0);
      assert c[..1] + [entry] + c[1..] == [head, entry] + c[1..];
    }

    /** `list_add_tail`: puts `entry` before the head. */
    method AddTail(entry: Addr, head: Addr, ghost c: seq<Addr>)
      requires Ring(c) && head == c[0] && entry !in c
      modifies this
      ensures Ring(c + [entry])
      ensures SameElsewhere(old(next), next, c + [entry]) && SameElsewhere(old(prev), prev, c + [entry])
    {
      assert LinkedAt(next, prev, c, 0);
      AddBetween(entry, prev[head], head, c, |c| - 1);
      assert c[..|c|] + [entry] + c[|c|..] == c + [entry];
    }

    /** `__list_del` of the neighbours of a node: the ring closes without it. */
    method Unlink(entry: Addr, ghost c: seq<Addr>, ghost k: nat)
      requires Ring(c) && 0 < k < |c| && entry == c[k]
      modifies this
      ensures Ring(c[..k] + c[k + 1..])
      ensures entry in next && entry in prev
      ensures SameElsewhere(old(next), next, c) && SameElsewhere(old(prev), prev, c)
    {
      ghost var c1 := c[..k] + c[k + 1..];
      assert LinkedAt(next, prev, c, k);
      var p, n := prev[entry], next[entry];
      assert LinkedAt(next, prev, c, k - 1);
      next := next[p := n];
      prev := prev[n := p];
      forall i | 0 <= i < |c1| ensures LinkedAt(next, prev, c1, i) {
        if i < k { assert LinkedAt(old(next), old(prev), c, i); }
        else { assert LinkedAt(old(next), old(prev), c, i + 1); }
      }
    }

    /** `list_del`. */
    method Delete(entry: Addr, ghost c: seq<Addr>, ghost k: nat)
      requires Ring(c) && 0 < k < |c| && entry == c[k]
      modifies this
      ensures Ring(c[..k] + c[k + 1..])
      ensures entry in next && entry in prev && next[entry] == NULL && prev[entry] == NULL
      ensures SameElsewhere(old(next), next, c) && SameElsewhere(old(prev), prev, c)
    {
      Unlink(entry, c, k);
      ghost var c1 := c[..k] + c[k + 1..];
      ghost var n1, p1 := next, prev;
      next := next[entry := NULL];
      prev := prev[entry := NULL];
      forall i | 0 <= i < |c1| ensures LinkedAt(next, prev, c1, i) {
        assert LinkedAt(n1, p1, c1, i);
      }
    }

    /** `list_replace`; it works on a list with no other node as well. */
    method Replace(oldEntry: Addr, newEntry: Addr, ghost c: seq<Addr>, ghost k: nat)
      requires Ring(c) && k < |c| && oldEntry == c[k] && newEntry !in c
      modifies this
      ensures Ring(c[k := newEntry])
      ensures SameElsewhere(old(next), next, c + [newEntry]) && SameElsewhere(old(prev), prev, c + [newEntry])
    {
      ghost var c1 := c[k := newEntry];
      assert LinkedAt(next, prev, c, k);
      next := next[newEntry := next[oldEntry]];
      prev := prev[next[newEntry] := newEntry];
      prev := prev[newEntry := prev[oldEntry]];
      next := next[prev[newEntry] := newEntry];
      forall i | 0 <= i < |c1| ensures LinkedAt(next, prev, c1, i) {
        assert LinkedAt(old(next), old(prev), c, i);
      }
    }

    /** `list_replace_init`: the old node becomes a list of its own. */
    method ReplaceInit(oldEntry: Addr, newEntry: Addr, ghost c: seq<Addr>, ghost k: nat)
      requires Ring(c) && k < |c| && oldEntry == c[k] && newEntry !in c
      modifies this
      ensures Ring(c[k := newEntry]) && Ring([oldEntry])
      ensures SameElsewhere(old(next), next, c + [newEntry]) && SameElsewhere(old(prev), prev, c + [newEntry])
    {
      Replace(oldEntry, newEntry, c, k);
      ghost var c1, n1, p1 := c[k := newEntry], next, prev;
      Init(oldEntry);
      forall i | 0 <= i < |c1| ensures LinkedAt(next, prev, c1, i) {
        assert LinkedAt(n1, p1, c1, i);
      }
    }

    /** `list_empty`. */
    method Empty(head: Addr, ghost c: seq<Addr>) returns (empty: bool)
      requires Ring(c) && head == c[0]
      ensures empty <==> c == [head]
    {
      assert LinkedAt(next, prev, c, 0);
      empty := next[head] == head;
    }

    /** `list_splice`: all nodes of one list move behind the head of another. */
    method Splice(list: Addr, head: Addr, ghost s: seq<Addr>, ghost t: seq<Addr>)
      requires Ring([list] + s) && Ring([head] + t)
      requires Disjoint([list] + s, [head] + t)
      modifies this
      ensures Ring([head] + s + t)
      ensures SameElsewhere(old(next), next, [list] + s + [head] + t)
      ensures SameElsewhere(old(prev), prev, [list] + s + [head] + t)
    {
      ghost var c, d, e := [list] + s, [head] + t, [head] + s + t;
      assert LinkedAt(next, prev, c, 0) && LinkedAt(next, prev, d, 0);
      JoinIsDistinct(list, head, s, t);
      assert s != [] ==> next[list] == c[1] != c[0];
      if next[list] != list {
        assert s != [];
        var first, last, at := next[list], prev[list], next[head];
        assert first == c[1] && last == c[|s|] && at == Succ(d, 0);
        prev := prev[first := head];
        next := next[head := first];
        next := next[last := at];
        prev := prev[at := last];
        forall i | 0 <= i < |e| ensures LinkedAt(next, prev, e, i) {
          JoinElement(list, head, s, t, i);
          if i == |s| {
            assert LinkedAt(old(next), old(prev), c, i);
          } else if 0 < i < |s| {
            assert LinkedAt(old(next), old(prev), c, i);
            JoinElement(list, head, s, t, i + 1);
          } else if i > |s| {
            assert LinkedAt(old(next), old(prev), d, i - |s|);
            JoinElement(list, head, s, t, i - 1);
          }
        }
      } else {
        assert e == d;
      }
    }

    /** `list_move`: a node moves behind the head, on its own list or from another. */
    method Move(entry: Addr, head: Addr, ghost c: seq<Addr>, ghost k: nat, ghost d: seq<Addr>)
      requires Ring(c) && 0 < k < |c| && entry == c[k]
      requires Ring(d) && head == d[0] && (d == c || Disjoint(c, d))
      modifies this
      ensures d == c ==> Ring([head, entry] + (c[1..k] + c[k + 1..]))
      ensures d != c ==> Ring(c[..k] + c[k + 1..]) && Ring([head, entry] + d[1..])
      ensures SameElsewhere(old(next), next, c + d) && SameElsewhere(old(prev), prev, c + d)
    {
      ghost var c1, n0, p0 := c[..k] + c[k + 1..], next, prev;
      Unlink(entry, c, k);
      WithoutNode(c, k, d);
      if d != c { OtherRingKept(n0, p0, next, prev, c, d); }
      ghost var n1, p1, t := next, prev, if d == c then c1 else d;
      Add(entry, head, t);
      assert d == c ==> c1[1..] == c[1..k] + c[k + 1..];
      if d != c { OtherRingKept(n1, p1, next, prev, d + [entry], c1); }
    }

    /** `list_move_tail`. */
    method MoveTail(entry: Addr, head: Addr, ghost c: seq<Addr>, ghost k: nat, ghost d: seq<Addr>)
      requires Ring(c) && 0 < k < |c| && entry == c[k]
      requires Ring(d) && head == d[0] && (d == c || Disjoint(c, d))
      modifies this
      ensures d == c ==> Ring(c[..k] + c[k + 1..] + [entry])
      ensures d != c ==> Ring(c[..k] + c[k + 1..]) && Ring(d + [entry])
      ensures SameElsewhere(old(next), next, c + d) && SameElsewhere(old(prev), prev, c + d)
    {
      ghost var c1, n0, p0 := c[..k] + c[k + 1..], next, prev;
      Unlink(entry, c, k);
      WithoutNode(c, k, d);
      if d != c { OtherRingKept(n0, p0, next, prev, c, d); }
      ghost var n1, p1, t := next, prev, if d == c then c1 else d;
      AddTail(entry, head, t);
      if d != c { OtherRingKept(n1, p1, next, prev, d + [entry], c1); }
    }
  }

  /** A list without one node, and another list, hold neither that node nor each other's. */
  lemma WithoutNode(c: seq<Addr>, k: nat, d: seq<Addr>)
    requires Distinct(c) && 0 < k < |c|
    ensures var c1 := c[..k] + c[k + 1..];
            |c1| > 0 && c1[0] == c[0] && c[k] !in c1 && (Disjoint(c, d) ==> c[k] !in d && Disjoint(d + [c[k]], c1))
  {
    var c1 := c[..k] + c[k + 1..];
    assert forall i :: 0 <= i < |c1| ==> c1[i] == c[if i < k then i else i + 1];
    if Disjoint(c, d) {
      forall i, j | 0 <= i < |d| + 1 && 0 <= j < |c1| ensures (d + [c[k]])[i] != c1[j] {}
    }
  }

  /** Following `next` around a ring visits its nodes in order, and `prev` undoes it. */
  lemma NeighboursUndo(next: Links, prev: Links, c: seq<Addr>, i: nat)
    requires IsRing(next, prev, c) && i < |c|
    ensures c[i] in next && next[c[i]] in c && next[c[i]] in prev && prev[next[c[i]]] == c[i]
    ensures c[i] in prev && prev[c[i]] in c && prev[c[i]] in next && next[prev[c[i]]] == c[i]
  {
    assert LinkedAt(next, prev, c, i);
    assert LinkedAt(next, prev, c, if i + 1 < |c| then i + 1 else 0);
    assert LinkedAt(next, prev, c, if i > 0 then i - 1 else |c| - 1);
  }

  lemma {:induction false} RingPrefix(next: Links, prev: Links, c: seq<Addr>, d: seq<Addr>, i: nat)
    requires IsRing(next, prev, c) && IsRing(next, prev, d) && c[0] == d[0] && i < |c| <= |d|
    ensures d[i] == c[i]
  {
    if i > 0 {
      RingPrefix(next, prev, c, d, i - 1);
      assert LinkedAt(next, prev, c, i - 1) && LinkedAt(next, prev, d, i - 1);
    }
  }

  /** The links determine the ring: two rings that share their first node are the same. */
  lemma RingIsUnique(next: Links, prev: Links, c: seq<Addr>, d: seq<Addr>)
    requires IsRing(next, prev, c) && IsRing(next, prev, d) && c[0] == d[0]
    ensures c == d
  {
    if |c| <= |d| { SameRing(next, prev, c, d); } else { SameRing(next, prev, d, c); }
  }

  lemma SameRing(next: Links, prev: Links, c: seq<Addr>, d: seq<Addr>)
    requires IsRing(next, prev, c) && IsRing(next, prev, d) && c[0] == d[0] && |c| <= |d|
    ensures c == d
  {
    forall i | 0 <= i < |c| ensures d[i] == c[i] {
      RingPrefix(next, prev, c, d, i);
    }
    var last := |c| - 1;
    assert last + 1 < |d| ==> Succ(d, last) != d[0];
    assert LinkedAt(next, prev, c, last) && LinkedAt(next, prev, d, last);
  }

  /** Rewiring the nodes of one list leaves every other list alone. */
  lemma OtherRingKept(next0: Links, prev0: Links, next1: Links, prev1: Links, touched: seq<Addr>, d: seq<Addr>)
    requires SameElsewhere(next0, next1, touched) && SameElsewhere(prev0, prev1, touched)
    requires IsRing(next0, prev0, d) && Disjoint(touched, d)
    ensures IsRing(next1, prev1, d)
  {
    forall i | 0 <= i < |d| ensures LinkedAt(next1, prev1, d, i) {
      assert LinkedAt(next0, prev0, d, i);
    }
  }
}
