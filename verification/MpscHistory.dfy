/** Facts about the history of reservations, and about where the reader stands in it. */
module MpscHistory {
  import opened MpscModel
  import opened MpscInvariant

  lemma InOrder(cap: nat, n: nat, res: seq<Res>, w: nat, total: nat, i: nat, j: nat)
    requires HistoryOk(cap, n, res, w, total) && i < |res| && j < |res|
    ensures i < j ==> res[i].End() <= res[j].pre
  {
  }

  lemma BoundaryAfter(cap: nat, n: nat, res: seq<Res>, w: nat, total: nat, x: nat, i: nat)
    requires HistoryOk(cap, n, res, w, total) && Boundary(res, w, x) && i < |res| && res[i].pre < x
    ensures res[i].End() <= x
  {
    if x != w {
      var j :| 0 <= j < |res| && res[j].pre == x;
      assert ResOk(cap, n, res[j]) && ResOk(cap, n, res[i]);
      InOrder(cap, n, res, w, total, j, i);
    }
  }

  lemma EndIsBoundary(cap: nat, n: nat, res: seq<Res>, w: nat, total: nat, i: nat)
    requires HistoryOk(cap, n, res, w, total) && i < |res|
    ensures Boundary(res, w, res[i].End())
  {
    if i + 1 < |res| {
      assert Follows(res, i + 1);
    }
  }

  lemma BoundaryGrows(res: seq<Res>, w: nat, q: Res, w': nat, x: nat)
    requires Boundary(res, w, x) && q.pre == w
    ensures Boundary(res + [q], w', x)
  {
    var res' := res + [q];
    if x == w {
      assert res'[|res|].pre == x;
    } else {
      var j :| 0 <= j < |res| && res[j].pre == x;
      assert res'[j].pre == x;
    }
  }

  /** Appending a reservation at the write position keeps the history in order. */
  lemma HistoryGrows(cap: nat, n: nat, res: seq<Res>, w: nat, total: nat, q: Res)
    requires HistoryOk(cap, n, res, w, total) && ResOk(cap, n, q) && q.pre == w && q.pos == total
    ensures HistoryOk(cap, n, res + [q], q.End(), total + q.size)
  {
    var res' := res + [q];
    assert q.Start() >= w;
    forall i | 0 <= i < |res'| ensures Follows(res', i) {
      if i < |res| { assert Follows(res, i); }
    }
  }

  /** The reservation that holds position `a`. */
  lemma {:induction false} Locate(cap: nat, n: nat, res: seq<Res>, w: nat, total: nat, a: nat, j: nat) returns (i: nat)
    requires HistoryOk(cap, n, res, w, total) && j <= |res| && a < EndBefore(res, j)
    ensures i < j && res[i].pre <= a < res[i].End()
  {
    if res[j - 1].pre <= a {
      i := j - 1;
    } else {
      assert Follows(res, j - 1);
      i := Locate(cap, n, res, w, total, a, j - 1);
    }
  }

  /** In the rest of the reader's lap up to a boundary, reservations follow each other
      without a gap, so that position and place in the stream move together. */
  lemma {:induction false} InStep(cap: nat, n: nat, res: seq<Res>, w: nat, total: nat,
      rbase: nat, rp: nat, taken: nat, x: nat, i: nat)
    requires HistoryOk(cap, n, res, w, total) && BasesOk(cap, res, rbase) && SyncOk(res, rbase + rp, w, taken, total)
    requires rp < cap && rbase + rp < x <= rbase + cap && Boundary(res, w, x)
    requires i < |res| && res[i].pre < x && rbase + rp < res[i].End()
    ensures res[i].base == rbase && res[i].End() <= x
    ensures res[i].Start() + taken == res[i].pos + rbase + rp
    decreases i
  {
    var r := rbase + rp;
    assert ResOk(cap, n, res[i]);
    BoundaryAfter(cap, n, res, w, total, x, i);
    assert Follows(res, i);
    if res[i].pre == r {
      if i > 0 { assert res[i - 1].End() <= r; }
    } else if res[i].pre > r {
      assert i > 0;
      assert ResOk(cap, n, res[i - 1]);
      InStep(cap, n, res, w, total, rbase, rp, taken, x, i - 1);
    }
  }

  lemma LastEndsAtW(cap: nat, n: nat, res: seq<Res>, w: nat, total: nat, l: nat)
    requires HistoryOk(cap, n, res, w, total) && l < |res| && res[l].End() == w
    ensures l == |res| - 1
  {
    var m := |res| - 1;
    assert ResOk(cap, n, res[m]);
    InOrder(cap, n, res, w, total, l, m);
  }

  /** Reading on to `r + n`, no further than a boundary in the same lap, takes the next `n`
      bytes of the stream. */
  lemma ReadOn(cap: nat, nprod: nat, res: seq<Res>, w: nat, total: nat,
      rbase: nat, rp: nat, taken: nat, x: nat, n: nat)
    requires HistoryOk(cap, nprod, res, w, total) && BasesOk(cap, res, rbase) && SyncOk(res, rbase + rp, w, taken, total)
    requires rp < cap && rbase + rp < x <= rbase + cap && x <= w && Boundary(res, w, x) && rbase + rp + n <= x
    ensures SyncOk(res, rbase + rp + n, w, taken + n, total) && taken + n <= total
  {
    var r := rbase + rp;
    var r' := r + n;
    var l := Locate(cap, nprod, res, w, total, x - 1, |res|);
    InStep(cap, nprod, res, w, total, rbase, rp, taken, x, l);
    assert res[l].End() == x && res[l].pos + res[l].size == taken + (x - r);
    forall i | 0 <= i < |res|
      ensures res[i].End() <= r' ==> res[i].pos + res[i].size <= taken + n
      ensures r' <= res[i].pre ==> taken + n <= res[i].pos
      ensures res[i].pre < r' < res[i].End() ==> res[i].Start() <= r' && taken + n == res[i].pos + (r' - res[i].Start())
    {
      assert ResOk(cap, nprod, res[i]) && ResOk(cap, nprod, res[l]);
      if res[i].pre < x {
        if r < res[i].End() {
          InStep(cap, nprod, res, w, total, rbase, rp, taken, x, i);
        }
      } else {
        assert l < i;
      }
    }
    if r' == w {
      LastEndsAtW(cap, nprod, res, w, total, l);
    }
  }
}
