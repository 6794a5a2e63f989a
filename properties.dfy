/** What one pass of the axis loop of `repeat` promises about the label
    image it builds: where each copy lands, which labels it carries, the
    largest label afterwards, and that objects of different copies keep
    different ids. */
module TilingProperties {
  import opened NdArrays
  import opened LabelTiling

  // ---------------------------------------------------------------------
  // Small facts

  lemma {:induction false} MaxIs(s: seq<int>, v: int)
    requires v in s && forall x :: x in s ==> x <= v
    ensures Max(s) == v
  {
  }

  /** An element read by multi-index is one of the array's values. */
  lemma GetIn(a: NdArray, idx: seq<nat>)
    requires Valid(a) && InBounds(a.shape, idx)
    ensures Get(a, idx) in a.data
  {
  }

  /** Label `v` lies in band `c` of width `top`: `(top*c, top*(c+1)]`, the
      labels copy `c` receives from a mask whose largest label is `top`. */
  predicate InBand(top: int, c: int, v: int)
  {
    top * c < v <= top * (c + 1)
  }

  /** A positive label `v` made by shifting a label `x` of a mask whose
      largest label is `top` by `top*c` lies in band `c`. */
  lemma PositiveBand(top: int, x: int, c: nat, v: int)
    requires x <= top && v == Relabel(true, x, top * c) && v > 0
    ensures InBand(top, c, v)
  {
    Distrib(c, 1, top);
  }

  /** The bands of different `c` do not overlap. */
  lemma BandUnique(top: int, v: int, c1: nat, c2: nat)
    requires InBand(top, c1, v) && InBand(top, c2, v)
    ensures c1 == c2
  {
    Distrib(c1, 1, top);
    assert top > 0;
    if c1 < c2 {
      MulMonotone(c1 + 1, c2, top);
      assert false;
    }
    if c2 < c1 {
      Distrib(c2, 1, top);
      MulMonotone(c2 + 1, c1, top);
      assert false;
    }
  }

  // ---------------------------------------------------------------------
  // One pass, element by element

  /** Index `h` of the mask moved into copy `c` along `axis`, `n` being the
      extent of the mask along that axis. */
  function Place(h: seq<nat>, axis: nat, c: nat, n: nat): seq<nat>
    requires axis < |h|
  {
    MulNonneg(c, n);
    h[axis := h[axis] + c * n]
  }

  /** One pass stated without `np.concatenate`: `r` is the mask grown
      `rep`-fold along `axis`, and copy `c` of it, at indices `c*n ..` on
      that axis, is the mask relabelled by `n_labels*c`. */
  ghost predicate IsTiling(m: NdArray, isInteger: bool, axis: nat, rep: int, r: NdArray)
    requires Valid(m)
  {
    |m.data| > 0 && rep >= 1 && axis < |m.shape| && m.shape[axis] > 0 && Valid(r)
    && r.shape == m.shape[axis := m.shape[axis] * rep]
    && forall c: nat, h :: c < rep && InBounds(m.shape, h) ==>
         InBounds(r.shape, Place(h, axis, c, m.shape[axis]))
         && Get(r, Place(h, axis, c, m.shape[axis])) == Relabel(isInteger, Get(m, h), Max(m.data) * c)
  }

  /** Copy `c` of a pass, read through `np.concatenate`. */
  lemma TileAxisCopy(m: NdArray, isInteger: bool, axis: nat, rep: int, c: nat, h: seq<nat>)
    requires Valid(m) && TileAxis(m, isInteger, axis, rep).Ok?
    requires c < rep && InBounds(m.shape, h)
    ensures InBounds(TileAxis(m, isInteger, axis, rep).value.shape, Place(h, axis, c, m.shape[axis]))
    ensures Get(TileAxis(m, isInteger, axis, rep).value, Place(h, axis, c, m.shape[axis]))
         == Relabel(isInteger, Get(m, h), Max(m.data) * c)
  {
    var copies := Copies(m.data, isInteger, Max(m.data), Count(rep));
    CopiesAt(m.data, isInteger, Max(m.data), Count(rep), c, Offset(m.shape, h));
    ConcatenateAt(m.shape, copies, axis, c, h);
  }

  /** Element `p` of copy `c` is element `p` of the mask, relabelled by `n_labels*c`. */
  lemma CopiesAt(s: seq<int>, isInteger: bool, nLabels: int, count: nat, c: nat, p: nat)
    requires c < count && p < |s|
    ensures Copies(s, isInteger, nLabels, count)[c][p] == Relabel(isInteger, s[p], nLabels * c)
  {
  }

  /** The concatenation of the shifted copies is exactly that tiling. */
  lemma TileAxisIsTiling(m: NdArray, isInteger: bool, axis: nat, rep: int)
    requires Valid(m) && TileAxis(m, isInteger, axis, rep).Ok?
    ensures IsTiling(m, isInteger, axis, rep, TileAxis(m, isInteger, axis, rep).value)
  {
    var r := TileAxis(m, isInteger, axis, rep).value;
    SizePositive(m.shape);
    forall c: nat, h | c < rep && InBounds(m.shape, h)
      ensures InBounds(r.shape, Place(h, axis, c, m.shape[axis]))
      ensures Get(r, Place(h, axis, c, m.shape[axis])) == Relabel(isInteger, Get(m, h), Max(m.data) * c)
    {
      TileAxisCopy(m, isInteger, axis, rep, c, h);
    }
  }

  /** Copy 0 is the mask itself: its labels are raised by `n_labels*0`. */
  lemma TilingFirstCopy(m: NdArray, isInteger: bool, axis: nat, rep: int, r: NdArray, h: seq<nat>)
    requires Valid(m) && IsTiling(m, isInteger, axis, rep, r) && InBounds(m.shape, h)
    ensures InBounds(r.shape, h) && Get(r, h) == Get(m, h)
  {
    assert Place(h, axis, 0, m.shape[axis]) == h;
  }

  /** Every index of the result lies in copy `idx[axis] / n`, at index
      `idx[axis] % n` of the mask. */
  lemma TilingSplit(m: NdArray, isInteger: bool, axis: nat, rep: int, r: NdArray, idx: seq<nat>)
    returns (c: nat, h: seq<nat>)
    requires Valid(m) && IsTiling(m, isInteger, axis, rep, r) && InBounds(r.shape, idx)
    ensures c == idx[axis] / m.shape[axis] && c < rep
    ensures h == idx[axis := idx[axis] % m.shape[axis]] && InBounds(m.shape, h)
    ensures Place(h, axis, c, m.shape[axis]) == idx
    ensures Get(r, idx) == Relabel(isInteger, Get(m, h), Max(m.data) * c)
  {
    var n := m.shape[axis];
    DivBelow(idx[axis], n, rep);
    DivMod(idx[axis], n);
    c, h := idx[axis] / n, idx[axis := idx[axis] % n];
    assert Place(h, axis, c, n) == idx;
  }

  /** For an integer dtype, every positive label of copy `c` lies in
      `(n_labels*c, n_labels*(c+1)]`: the copies use disjoint ranges. */
  lemma TilingLabelRange(m: NdArray, axis: nat, rep: int, r: NdArray, c: nat, h: seq<nat>)
    requires Valid(m) && IsTiling(m, true, axis, rep, r)
    requires c < rep && InBounds(m.shape, h)
    requires Get(r, Place(h, axis, c, m.shape[axis])) > 0
    ensures InBand(Max(m.data), c, Get(r, Place(h, axis, c, m.shape[axis])))
  {
    GetIn(m, h);
    PositiveBand(Max(m.data), Get(m, h), c, Get(r, Place(h, axis, c, m.shape[axis])));
  }

  /** Hence two equal positive labels of the result lie in the same copy. */
  lemma TilingCopiesDisjoint(m: NdArray, axis: nat, rep: int, r: NdArray,
                             c1: nat, h1: seq<nat>, c2: nat, h2: seq<nat>)
    requires Valid(m) && IsTiling(m, true, axis, rep, r)
    requires c1 < rep && InBounds(m.shape, h1) && c2 < rep && InBounds(m.shape, h2)
    requires Get(r, Place(h1, axis, c1, m.shape[axis])) == Get(r, Place(h2, axis, c2, m.shape[axis])) > 0
    ensures c1 == c2
  {
    TilingLabelRange(m, axis, rep, r, c1, h1);
    TilingLabelRange(m, axis, rep, r, c2, h2);
    BandUnique(Max(m.data), Get(r, Place(h1, axis, c1, m.shape[axis])), c1, c2);
  }

  /** The largest label after a pass: `n_labels*rep` for an integer mask with
      a positive label, otherwise unchanged. */
  lemma TilingMax(m: NdArray, isInteger: bool, axis: nat, rep: int, r: NdArray)
    requires Valid(m) && IsTiling(m, isInteger, axis, rep, r)
    ensures |r.data| > 0
    ensures Max(r.data) == if isInteger && Max(m.data) > 0 then Max(m.data) * rep else Max(m.data)
  {
    var best := if isInteger && Max(m.data) > 0 then Max(m.data) * rep else Max(m.data);
    TilingTopReached(m, isInteger, axis, rep, r);
    forall x | x in r.data
      ensures x <= best
    {
      var p :| 0 <= p < |r.data| && r.data[p] == x;
      TilingBelowTop(m, isInteger, axis, rep, r, p);
    }
    MaxIs(r.data, best);
  }

  /** The largest label of the mask, raised in the last copy (or, without a
      shift, left as it is in the first), is an element of the result. */
  lemma TilingTopReached(m: NdArray, isInteger: bool, axis: nat, rep: int, r: NdArray)
    requires Valid(m) && IsTiling(m, isInteger, axis, rep, r)
    ensures (if isInteger && Max(m.data) > 0 then Max(m.data) * rep else Max(m.data)) in r.data
  {
    var n, top := m.shape[axis], Max(m.data);
    var q :| 0 <= q < |m.data| && m.data[q] == top;
    var h := OffsetOnto(m.shape, q);
    var last: nat := if isInteger && top > 0 then rep - 1 else 0;
    assert Get(m, h) == top;
    assert Get(r, Place(h, axis, last, n)) == Relabel(isInteger, top, top * last);
    LastCopyTop(isInteger, top, rep, last);
    GetIn(r, Place(h, axis, last, n));
  }

  /** The largest label, in the last copy when it is shifted. */
  lemma LastCopyTop(isInteger: bool, top: int, rep: int, last: nat)
    requires rep >= 1 && last == if isInteger && top > 0 then rep - 1 else 0
    ensures Relabel(isInteger, top, top * last) == if isInteger && top > 0 then top * rep else top
  {
    Distrib(rep - 1, 1, top);
  }

  /** No element of the result is above that label. */
  lemma TilingBelowTop(m: NdArray, isInteger: bool, axis: nat, rep: int, r: NdArray, p: nat)
    requires Valid(m) && IsTiling(m, isInteger, axis, rep, r) && p < |r.data|
    ensures r.data[p] <= if isInteger && Max(m.data) > 0 then Max(m.data) * rep else Max(m.data)
  {
    var top := Max(m.data);
    var at := OffsetOnto(r.shape, p);
    var c, h := TilingSplit(m, isInteger, axis, rep, r, at);
    assert r.data[p] == Relabel(isInteger, Get(m, h), top * c);
    GetIn(m, h);
    RelabelBelow(isInteger, Get(m, h), top, c, rep);
  }

  /** A label `x <= top` of copy `c < rep` is at most the largest label of the last copy. */
  lemma RelabelBelow(isInteger: bool, x: int, top: int, c: nat, rep: int)
    requires x <= top && c < rep
    ensures Relabel(isInteger, x, top * c) <= if isInteger && top > 0 then top * rep else top
  {
    if isInteger && top > 0 {
      MulMonotone(c + 1, rep, top);
      Distrib(c, 1, top);
    }
  }
}
