/** What the whole axis loop of `repeat` promises: when it succeeds, the
    shape it produces, its largest label, and the label at every index,
    which identifies the tile the index lies in. */
module RepeatProperties {
  import opened NdArrays
  import opened LabelTiling
  import opened TilingProperties

  /** Product of the copy counts. */
  function Prod(counts: seq<int>): nat
  {
    if |counts| == 0 then 1
    else
      MulNonneg(Count(counts[0]), Prod(counts[1..]));
      Count(counts[0]) * Prod(counts[1..])
  }

  /** Where index `idx` of the result comes from in the mask: every axis
      from `d` on is taken modulo the mask's extent. */
  function Wrap(idx: seq<nat>, shape: seq<nat>, d: nat): seq<nat>
    requires |idx| == |shape|
  {
    seq(|idx|, k requires 0 <= k < |idx| => if d <= k && shape[k] > 0 then idx[k] % shape[k] else idx[k])
  }

  /** Number of the tile that index `idx` lies in, counting in mixed radix:
      the copy along axis `d` is the lowest digit, with `counts[d]` values,
      then the copy along axis `d + 1`, and so on. */
  function TileNumber(idx: seq<nat>, shape: seq<nat>, counts: seq<int>, d: nat): nat
    requires |idx| == |shape|
    decreases |counts| - d
  {
    if d >= |counts| || d >= |shape| || shape[d] == 0 then 0
    else
      MulNonneg(Count(counts[d]), TileNumber(idx, shape, counts, d + 1));
      idx[d] / shape[d] + Count(counts[d]) * TileNumber(idx, shape, counts, d + 1)
  }

  // ---------------------------------------------------------------------
  // Outcome and shape

  /** The loop succeeds exactly when it has no axis to process, or the mask
      has elements, every requested axis exists and every count is at least 1. */
  lemma RepeatOutcome(m: NdArray, isInteger: bool, counts: seq<int>, d: nat)
    requires Valid(m) && d <= |counts|
    ensures RepeatFrom(m, isInteger, counts, d).Ok? <==>
      d == |counts|
      || (|m.data| > 0 && |counts| <= |m.shape| && CountsPositive(counts, d))
  {
    if d < |counts| {
      if RepeatFrom(m, isInteger, counts, d).Ok? {
        RepeatNeeds(m, isInteger, counts, d);
      }
      if |m.data| > 0 && |counts| <= |m.shape| && CountsPositive(counts, d) {
        RepeatSucceeds(m, isInteger, counts, d);
      }
    }
  }

  /** A successful loop had a mask with elements, existing axes and counts of at least 1. */
  lemma {:induction false} RepeatNeeds(m: NdArray, isInteger: bool, counts: seq<int>, d: nat)
    requires Valid(m) && d < |counts| && RepeatFrom(m, isInteger, counts, d).Ok?
    ensures |m.data| > 0 && |counts| <= |m.shape| && CountsPositive(counts, d)
    decreases |counts| - d
  {
    var t := TileAxis(m, isInteger, d, counts[d]);
    assert t.Ok?;
    assert |m.data| > 0 && counts[d] >= 1 && d < |m.shape|;
    if d + 1 < |counts| {
      var next := t.value;
      assert RepeatFrom(m, isInteger, counts, d) == RepeatFrom(next, isInteger, counts, d + 1);
      RepeatNeeds(next, isInteger, counts, d + 1);
      assert |counts| <= |m.shape|;
    }
    CountsFrom(counts, d);
  }

  /** Every count from axis `d` on asks for at least one copy. */
  predicate CountsPositive(counts: seq<int>, d: nat)
  {
    forall k :: d <= k < |counts| ==> counts[k] >= 1
  }

  lemma CountsFrom(counts: seq<int>, d: nat)
    requires d < |counts| && counts[d] >= 1
    requires CountsPositive(counts, d + 1)
    ensures CountsPositive(counts, d)
  {
  }

  /** With a mask with elements, existing axes and counts of at least 1, every pass succeeds. */
  lemma {:induction false} RepeatSucceeds(m: NdArray, isInteger: bool, counts: seq<int>, d: nat)
    requires Valid(m) && d < |counts|
    requires |m.data| > 0 && |counts| <= |m.shape| && CountsPositive(counts, d)
    ensures RepeatFrom(m, isInteger, counts, d).Ok?
    decreases |counts| - d
  {
    var next := TileAxis(m, isInteger, d, counts[d]).value;
    assert RepeatFrom(m, isInteger, counts, d) == RepeatFrom(next, isInteger, counts, d + 1);
    if d + 1 < |counts| {
      TileAxisKeepsElements(m, isInteger, d, counts[d]);
      RepeatSucceeds(next, isInteger, counts, d + 1);
    }
  }

  /** A successful pass leaves an array with elements. */
  lemma TileAxisKeepsElements(m: NdArray, isInteger: bool, axis: nat, rep: int)
    requires Valid(m) && TileAxis(m, isInteger, axis, rep).Ok?
    ensures |TileAxis(m, isInteger, axis, rep).value.data| > 0
  {
    var r := TileAxis(m, isInteger, axis, rep).value;
    SizePositive(m.shape);
    SizePositive(r.shape);
    MulMonotone(1, rep, m.shape[axis]);
  }

  /** On success, the extent along every processed axis `k` is multiplied
      by `counts[k]` and every other extent is unchanged. */
  lemma {:induction false} RepeatShape(m: NdArray, isInteger: bool, counts: seq<int>, d: nat)
    requires Valid(m) && d <= |counts| && RepeatFrom(m, isInteger, counts, d).Ok?
    ensures GrownFrom(m.shape, RepeatFrom(m, isInteger, counts, d).value.shape, counts, d)
    decreases |counts| - d
  {
    if d < |counts| {
      var t := TileAxis(m, isInteger, d, counts[d]);
      assert t.Ok?;
      var next := t.value;
      var r := RepeatFrom(m, isInteger, counts, d);
      assert r == RepeatFrom(next, isInteger, counts, d + 1);
      RepeatShape(next, isInteger, counts, d + 1);
      ShapeStep(m.shape, next.shape, r.value.shape, counts, d);
    }
  }

  /** `result` is `shape` with the extent along every axis `k` from `d` on
      multiplied by `counts[k]` and every other extent unchanged. */
  predicate GrownFrom(shape: seq<nat>, result: seq<nat>, counts: seq<int>, d: nat)
  {
    |result| == |shape|
    && forall k :: 0 <= k < |shape| ==>
         result[k] == if d <= k < |counts| then shape[k] * counts[k] else shape[k]
  }

  /** Growing axis `d` and then the axes after it grows every axis from `d` on. */
  lemma ShapeStep(shape: seq<nat>, next: seq<nat>, result: seq<nat>, counts: seq<int>, d: nat)
    requires d < |shape| && d < |counts| && counts[d] >= 1
    requires next == shape[d := shape[d] * counts[d]]
    requires GrownFrom(next, result, counts, d + 1)
    ensures GrownFrom(shape, result, counts, d)
  {
  }

  /** `n_labels` is recomputed on every pass, so the largest label of the
      result is the mask's times the product of the counts (for an integer
      mask with a positive label), or the mask's. */
  lemma {:induction false} RepeatMax(m: NdArray, isInteger: bool, counts: seq<int>, d: nat)
    requires Valid(m) && d <= |counts| && RepeatFrom(m, isInteger, counts, d).Ok? && |m.data| > 0
    ensures var r := RepeatFrom(m, isInteger, counts, d).value;
      |r.data| > 0
      && Max(r.data) == if isInteger && Max(m.data) > 0 then Max(m.data) * Prod(counts[d..]) else Max(m.data)
    decreases |counts| - d
  {
    if d < |counts| {
      var rep := counts[d];
      var next := TileAxis(m, isInteger, d, rep).value;
      assert RepeatFrom(m, isInteger, counts, d) == RepeatFrom(next, isInteger, counts, d + 1);
      TileAxisIsTiling(m, isInteger, d, rep);
      TilingMax(m, isInteger, d, rep, next);
      RepeatMax(next, isInteger, counts, d + 1);
      assert counts[d..][1..] == counts[d + 1..];
      var top := Max(m.data);
      if isInteger && top > 0 {
        MulMonotone(1, rep, top);
        MulAssoc(top, rep, Prod(counts[d + 1..]));
      }
    }
  }

  // ---------------------------------------------------------------------
  // Labels

  /** Shifting by `top*c` and then by the next pass's `n_labels * t` is one
      shift by `top * tile`, where `tile == c + rep*t` is the tile number
      with copy `c` as its lowest digit and `t` as the rest. */
  lemma RelabelTwice(isInteger: bool, x: int, top: int, c: nat, rep: int, t: nat, tile: int)
    requires x <= top && rep >= 1 && tile == c + rep * t
    ensures Relabel(isInteger, Relabel(isInteger, x, top * c),
                    (if isInteger && top > 0 then top * rep else top) * t)
         == Relabel(isInteger, x, top * tile)
  {
    if isInteger && x > 0 {
      MulNonneg(top, c);
      MulAssoc(top, rep, t);
    }
  }

  /** One pass of the induction behind `RepeatLabels`. */
  lemma {:induction false} LabelsStep(m: NdArray, isInteger: bool, counts: seq<int>, d: nat, next: NdArray, idx: seq<nat>, v: int)
    requires Valid(m) && d < |counts| && IsTiling(m, isInteger, d, counts[d], next)
    requires |idx| == |next.shape| && InBounds(next.shape, Wrap(idx, next.shape, d + 1))
    requires v == Relabel(isInteger, Get(next, Wrap(idx, next.shape, d + 1)),
                          Max(next.data) * TileNumber(idx, next.shape, counts, d + 1))
    ensures InBounds(m.shape, Wrap(idx, m.shape, d))
    ensures v == Relabel(isInteger, Get(m, Wrap(idx, m.shape, d)), Max(m.data) * TileNumber(idx, m.shape, counts, d))
  {
    var n := m.shape[d];
    var w := Wrap(idx, next.shape, d + 1);
    assert w == Wrap(idx, m.shape, d + 1);
    TileNumberFrame(idx, next.shape, m.shape, counts, d + 1);
    var c, h := TilingSplit(m, isInteger, d, counts[d], next, w);
    assert h == Wrap(idx, m.shape, d);
    TilingMax(m, isInteger, d, counts[d], next);
    GetIn(m, h);
    var t := TileNumber(idx, m.shape, counts, d + 1);
    assert TileNumber(idx, m.shape, counts, d) == c + counts[d] * t;
    RelabelTwice(isInteger, Get(m, h), Max(m.data), c, counts[d], t, TileNumber(idx, m.shape, counts, d));
  }

  /** The tile number reads only the extents from axis `d` on. */
  lemma {:induction false} TileNumberFrame(idx: seq<nat>, s1: seq<nat>, s2: seq<nat>, counts: seq<int>, d: nat)
    requires |idx| == |s1| == |s2| && forall k :: d <= k < |s1| ==> s1[k] == s2[k]
    ensures TileNumber(idx, s1, counts, d) == TileNumber(idx, s2, counts, d)
    decreases |counts| - d
  {
    if d < |counts| {
      TileNumberFrame(idx, s1, s2, counts, d + 1);
    }
  }

  /** On success, the label at index `idx` of the result is the mask's
      label at `Wrap(idx)`, shifted (for an integer dtype, when positive) by
      the mask's largest label times the number of the tile `idx` lies in. */
  lemma {:induction false} RepeatLabels(m: NdArray, isInteger: bool, counts: seq<int>, d: nat, idx: seq<nat>)
    requires Valid(m) && d <= |counts| && RepeatFrom(m, isInteger, counts, d).Ok?
    requires InBounds(RepeatFrom(m, isInteger, counts, d).value.shape, idx)
    ensures |m.data| > 0 && |idx| == |m.shape| && InBounds(m.shape, Wrap(idx, m.shape, d))
    ensures Get(RepeatFrom(m, isInteger, counts, d).value, idx)
         == Relabel(isInteger, Get(m, Wrap(idx, m.shape, d)), Max(m.data) * TileNumber(idx, m.shape, counts, d))
    decreases |counts| - d
  {
    if d == |counts| {
      forall k | 0 <= k < |idx|
        ensures Wrap(idx, m.shape, d)[k] == idx[k]
      {
        if d <= k {
          DivModUnique(idx[k], m.shape[k], 0, idx[k]);
        }
      }
      assert Wrap(idx, m.shape, d) == idx;
      SizePositive(m.shape);
    } else {
      var next := TileAxis(m, isInteger, d, counts[d]).value;
      assert RepeatFrom(m, isInteger, counts, d) == RepeatFrom(next, isInteger, counts, d + 1);
      TileAxisIsTiling(m, isInteger, d, counts[d]);
      RepeatLabels(next, isInteger, counts, d + 1, idx);
      LabelsStep(m, isInteger, counts, d, next, idx, Get(RepeatFrom(m, isInteger, counts, d).value, idx));
    }
  }

  // ---------------------------------------------------------------------
  // Tile numbers

  /** Index `idx` lies in copy `idx[k] / shape[k] < counts[k]` along every
      axis `k` from `d` on. */
  ghost predicate InTiles(idx: seq<nat>, shape: seq<nat>, counts: seq<int>, d: nat)
    decreases |counts| - d
  {
    d < |counts| ==>
      d < |idx| && d < |shape| && shape[d] > 0 && idx[d] / shape[d] < counts[d]
      && InTiles(idx, shape, counts, d + 1)
  }

  /** `InTiles` from its statement axis by axis. */
  lemma {:induction false} InTilesAll(idx: seq<nat>, shape: seq<nat>, counts: seq<int>, d: nat)
    requires forall k :: d <= k < |counts| ==> k < |idx| && k < |shape| && shape[k] > 0 && idx[k] / shape[k] < counts[k]
    ensures InTiles(idx, shape, counts, d)
    decreases |counts| - d
  {
    if d < |counts| {
      assert d < |idx| && d < |shape| && shape[d] > 0 && idx[d] / shape[d] < counts[d];
      InTilesAll(idx, shape, counts, d + 1);
    }
  }

  /** Tile numbers stay below the number of tiles. */
  lemma {:induction false} TileNumberBound(idx: seq<nat>, shape: seq<nat>, counts: seq<int>, d: nat)
    requires |idx| == |shape| && d <= |counts| && InTiles(idx, shape, counts, d)
    ensures TileNumber(idx, shape, counts, d) < Prod(counts[d..])
    decreases |counts| - d
  {
    if d < |counts| {
      TileNumberBound(idx, shape, counts, d + 1);
      var rep, c := counts[d], idx[d] / shape[d];
      var t, p := TileNumber(idx, shape, counts, d + 1), Prod(counts[d + 1..]);
      MulAddBound(t, p, rep, c);
      assert TileNumber(idx, shape, counts, d) == c + rep * t;
      assert Prod(counts[d..]) == rep * p by {
        assert counts[d..][1..] == counts[d + 1..];
      }
    }
  }

  /** Indices in the same copy along every axis from `d` on have the same tile number. */
  lemma {:induction false} SameTileNumber(i1: seq<nat>, i2: seq<nat>, shape: seq<nat>, counts: seq<int>, d: nat)
    requires |i1| == |shape| && |i2| == |shape| && d <= |counts|
    requires SameTile(i1, i2, shape, counts, d)
    ensures TileNumber(i1, shape, counts, d) == TileNumber(i2, shape, counts, d)
    decreases |counts| - d
  {
    if d < |counts| {
      SameTileNumber(i1, i2, shape, counts, d + 1);
    }
  }

  /** Within the tiles, equal tile numbers mean the same copy along every axis from `d` on. */
  lemma {:induction false} SameDigits(i1: seq<nat>, i2: seq<nat>, shape: seq<nat>, counts: seq<int>, d: nat)
    requires |i1| == |shape| && |i2| == |shape| && d <= |counts|
    requires InTiles(i1, shape, counts, d) && InTiles(i2, shape, counts, d)
    requires TileNumber(i1, shape, counts, d) == TileNumber(i2, shape, counts, d)
    ensures SameTile(i1, i2, shape, counts, d)
    decreases |counts| - d
  {
    if d < |counts| {
      var n := shape[d];
      var t1, t2 := TileNumber(i1, shape, counts, d + 1), TileNumber(i2, shape, counts, d + 1);
      assert i1[d] / n == i2[d] / n && t1 == t2 by {
        DigitStep(TileNumber(i1, shape, counts, d), counts[d], t1, i1[d] / n, t2, i2[d] / n);
      }
      SameDigits(i1, i2, shape, counts, d + 1);
    }
  }

  /** The lowest digit and the rest of a mixed-radix number are unique. */
  lemma DigitStep(t: nat, rep: int, t1: nat, c1: nat, t2: nat, c2: nat)
    requires c1 < rep && c2 < rep && t == c1 + rep * t1 && t == c2 + rep * t2
    ensures c1 == c2 && t1 == t2
  {
    DivModUnique(t, rep, t1, c1);
    DivModUnique(t, rep, t2, c2);
  }

  /** Two indices within the tiles have the same tile number exactly when
      they lie in the same copy along every processed axis. */
  lemma TileDigits(i1: seq<nat>, i2: seq<nat>, shape: seq<nat>, counts: seq<int>, d: nat)
    requires |i1| == |shape| && |i2| == |shape| && d <= |counts|
    requires InTiles(i1, shape, counts, d) && InTiles(i2, shape, counts, d)
    ensures TileNumber(i1, shape, counts, d) == TileNumber(i2, shape, counts, d)
        <==> SameTile(i1, i2, shape, counts, d)
  {
    if TileNumber(i1, shape, counts, d) == TileNumber(i2, shape, counts, d) {
      SameDigits(i1, i2, shape, counts, d);
    }
    if SameTile(i1, i2, shape, counts, d) {
      SameTileNumber(i1, i2, shape, counts, d);
    }
  }

  /** Every index of a successful result lies within the tiles. */
  lemma {:induction false} RepeatInTiles(m: NdArray, isInteger: bool, counts: seq<int>, d: nat, idx: seq<nat>)
    requires Valid(m) && d <= |counts| && RepeatFrom(m, isInteger, counts, d).Ok?
    requires InBounds(RepeatFrom(m, isInteger, counts, d).value.shape, idx)
    ensures |idx| == |m.shape| && InTiles(idx, m.shape, counts, d)
  {
    var r := RepeatFrom(m, isInteger, counts, d).value;
    RepeatOutcome(m, isInteger, counts, d);
    RepeatShape(m, isInteger, counts, d);
    if d < |counts| {
      SizePositive(m.shape);
    }
    forall k | d <= k < |counts|
      ensures k < |idx| && k < |m.shape| && m.shape[k] > 0 && idx[k] / m.shape[k] < counts[k]
    {
      assert idx[k] < r.shape[k];
      DivBelow(idx[k], m.shape[k], counts[k]);
    }
    InTilesAll(idx, m.shape, counts, d);
  }

  /** For an integer mask, the positive labels of tile `t` lie in
      `(n_labels*t, n_labels*(t+1)]`, `n_labels` being the mask's largest
      label, and `t` is below the number of tiles. */
  lemma {:induction false} RepeatLabelRange(m: NdArray, counts: seq<int>, d: nat, idx: seq<nat>)
    requires Valid(m) && d <= |counts| && RepeatFrom(m, true, counts, d).Ok?
    requires InBounds(RepeatFrom(m, true, counts, d).value.shape, idx)
    requires Get(RepeatFrom(m, true, counts, d).value, idx) > 0
    ensures |m.data| > 0 && |idx| == |m.shape|
    ensures InBand(Max(m.data), TileNumber(idx, m.shape, counts, d), Get(RepeatFrom(m, true, counts, d).value, idx))
    ensures TileNumber(idx, m.shape, counts, d) < Prod(counts[d..])
  {
    RepeatLabels(m, true, counts, d, idx);
    var w := Wrap(idx, m.shape, d);
    var x, v := Get(m, w), Get(RepeatFrom(m, true, counts, d).value, idx);
    assert x <= Max(m.data) by { GetIn(m, w); }
    PositiveBand(Max(m.data), x, TileNumber(idx, m.shape, counts, d), v);
    RepeatTileBound(m, true, counts, d, idx);
  }

  /** `i1` and `i2` lie in the same copy along every axis from `d` on. */
  ghost predicate SameTile(i1: seq<nat>, i2: seq<nat>, shape: seq<nat>, counts: seq<int>, d: nat)
    decreases |counts| - d
  {
    d < |counts| ==>
      d < |shape| && d < |i1| && d < |i2| && shape[d] > 0 && i1[d] / shape[d] == i2[d] / shape[d]
      && SameTile(i1, i2, shape, counts, d + 1)
  }

  /** Every index of a successful result has a tile number below the number of tiles. */
  lemma {:induction false} RepeatTileBound(m: NdArray, isInteger: bool, counts: seq<int>, d: nat, idx: seq<nat>)
    requires Valid(m) && d <= |counts| && RepeatFrom(m, isInteger, counts, d).Ok?
    requires InBounds(RepeatFrom(m, isInteger, counts, d).value.shape, idx)
    ensures |idx| == |m.shape| && TileNumber(idx, m.shape, counts, d) < Prod(counts[d..])
  {
    RepeatInTiles(m, isInteger, counts, d, idx);
    TileNumberBound(idx, m.shape, counts, d);
  }

  /** Indices of a successful result with the same tile number lie in the
      same copy along every processed axis. */
  lemma {:induction false} RepeatSameTile(m: NdArray, isInteger: bool, counts: seq<int>, d: nat, i1: seq<nat>, i2: seq<nat>)
    requires Valid(m) && d <= |counts| && RepeatFrom(m, isInteger, counts, d).Ok?
    requires InBounds(RepeatFrom(m, isInteger, counts, d).value.shape, i1)
    requires InBounds(RepeatFrom(m, isInteger, counts, d).value.shape, i2)
    requires |i1| == |m.shape| && |i2| == |m.shape|
    requires TileNumber(i1, m.shape, counts, d) == TileNumber(i2, m.shape, counts, d)
    ensures SameTile(i1, i2, m.shape, counts, d)
  {
    RepeatInTiles(m, isInteger, counts, d, i1);
    RepeatInTiles(m, isInteger, counts, d, i2);
    TileDigits(i1, i2, m.shape, counts, d);
  }

  /** Equal positive labels `x1 + top*t1 == x2 + top*t2` with `0 < x <= top`
      have `t1 == t2` and `x1 == x2`. */
  lemma SameLabel(top: int, x1: int, t1: nat, x2: int, t2: nat)
    requires x1 <= top && x2 <= top
    requires ShiftLabel(x1, top * t1) == ShiftLabel(x2, top * t2) > 0
    ensures t1 == t2 && x1 == x2
  {
    PositiveBand(top, x1, t1, ShiftLabel(x1, top * t1));
    PositiveBand(top, x2, t2, ShiftLabel(x2, top * t2));
    BandUnique(top, ShiftLabel(x1, top * t1), t1, t2);
  }

  /** For an integer mask, two equal positive labels of the result lie in
      the same tile and come from the same label of the mask: objects of
      different tiles never share an id. */
  lemma {:induction false} RepeatIds(m: NdArray, counts: seq<int>, d: nat, r: NdArray, i1: seq<nat>, i2: seq<nat>)
    requires Valid(m) && d <= |counts| && RepeatFrom(m, true, counts, d) == Ok(r)
    requires InBounds(r.shape, i1) && InBounds(r.shape, i2)
    requires Get(r, i1) == Get(r, i2) > 0
    ensures |m.data| > 0 && |i1| == |m.shape| && |i2| == |m.shape|
    ensures InBounds(m.shape, Wrap(i1, m.shape, d)) && InBounds(m.shape, Wrap(i2, m.shape, d))
    ensures SameTile(i1, i2, m.shape, counts, d)
    ensures Get(m, Wrap(i1, m.shape, d)) == Get(m, Wrap(i2, m.shape, d))
  {
    RepeatSameSource(m, counts, d, i1, i2);
    RepeatSameTile(m, true, counts, d, i1, i2);
  }

  /** The first half of `RepeatIds`: the same tile number and the same label of the mask. */
  lemma {:induction false} RepeatSameSource(m: NdArray, counts: seq<int>, d: nat, i1: seq<nat>, i2: seq<nat>)
    requires Valid(m) && d <= |counts| && RepeatFrom(m, true, counts, d).Ok?
    requires InBounds(RepeatFrom(m, true, counts, d).value.shape, i1)
    requires InBounds(RepeatFrom(m, true, counts, d).value.shape, i2)
    requires Get(RepeatFrom(m, true, counts, d).value, i1) == Get(RepeatFrom(m, true, counts, d).value, i2) > 0
    ensures |m.data| > 0 && |i1| == |m.shape| && |i2| == |m.shape|
    ensures InBounds(m.shape, Wrap(i1, m.shape, d)) && InBounds(m.shape, Wrap(i2, m.shape, d))
    ensures TileNumber(i1, m.shape, counts, d) == TileNumber(i2, m.shape, counts, d)
    ensures Get(m, Wrap(i1, m.shape, d)) == Get(m, Wrap(i2, m.shape, d))
  {
    RepeatLabels(m, true, counts, d, i1);
    RepeatLabels(m, true, counts, d, i2);
    GetIn(m, Wrap(i1, m.shape, d));
    GetIn(m, Wrap(i2, m.shape, d));
    SameLabel(Max(m.data), Get(m, Wrap(i1, m.shape, d)), TileNumber(i1, m.shape, counts, d),
              Get(m, Wrap(i2, m.shape, d)), TileNumber(i2, m.shape, counts, d));
  }

  /** With a scalar `reps`, the call succeeds exactly for a 0-d mask or a
      mask with elements and `reps >= 1`, and then every extent is
      multiplied by `reps`. */
  lemma RepeatedScalar(m: NdArray, isInteger: bool, n: int)
    requires Valid(m)
    ensures Repeated(m, isInteger, Scalar(n)).Ok? <==> |m.shape| == 0 || (|m.data| > 0 && n >= 1)
    ensures Repeated(m, isInteger, Scalar(n)).Ok? ==>
      var r := Repeated(m, isInteger, Scalar(n)).value;
      |r.shape| == |m.shape| && forall k :: 0 <= k < |m.shape| ==> r.shape[k] == m.shape[k] * n
  {
    var counts := Broadcast(Scalar(n), |m.shape|);
    RepeatOutcome(m, isInteger, counts, 0);
    if Repeated(m, isInteger, Scalar(n)).Ok? {
      RepeatShape(m, isInteger, counts, 0);
    }
  }
}
