/** The part of NumPy's array model that label tiling relies on: an
    N-dimensional integer array stored in row-major (C) order, element access
    by multi-index, the maximum reduction `a.max()` and `np.concatenate` of
    equally shaped arrays along one axis, with the errors NumPy raises. */
module NdArrays {

  /** The exceptions NumPy raises in the operations modelled here. */
  datatype Error =
    | EmptyReduction                       // `max()` of a zero-size array
    | NothingToConcatenate                 // `np.concatenate([])`
    | ZeroDimensional                      // `np.concatenate` of 0-d arrays
    | AxisOutOfBounds(axis: nat, ndim: nat)

  datatype Result<T> = Ok(value: T) | Err(error: Error)

  /** An array: its extent along every axis and its elements in row-major order. */
  datatype NdArray = NdArray(shape: seq<nat>, data: seq<int>)

  /** Number of elements of an array of the given shape (1 for a 0-d array). */
  function Size(shape: seq<nat>): nat
  {
    if |shape| == 0 then 1 else shape[0] * Size(shape[1..])
  }

  predicate Valid(a: NdArray)
  {
    |a.data| == Size(a.shape)
  }

  predicate InBounds(shape: seq<nat>, idx: seq<nat>)
  {
    |idx| == |shape| && forall k :: 0 <= k < |idx| ==> idx[k] < shape[k]
  }

  /** Row-major position of the element at multi-index `idx`. */
  function Offset(shape: seq<nat>, idx: seq<nat>): (p: nat)
    requires InBounds(shape, idx)
    ensures p < Size(shape)
  {
    if |shape| == 0 then 0
    else
      var rest := Offset(shape[1..], idx[1..]);
      MulAddBound(idx[0], shape[0], Size(shape[1..]), rest);
      idx[0] * Size(shape[1..]) + rest
  }

  function Get(a: NdArray, idx: seq<nat>): int
    requires Valid(a) && InBounds(a.shape, idx)
  {
    a.data[Offset(a.shape, idx)]
  }

  /** `a.max()`: NumPy refuses the reduction on a zero-size array, hence the requires. */
  function Max(s: seq<int>): (m: int)
    requires |s| > 0
    ensures m in s
    ensures forall x :: x in s ==> x <= m
  {
    if |s| == 1 then s[0]
    else
      var m' := Max(s[1..]);
      assert s == [s[0]] + s[1..];
      if s[0] >= m' then s[0] else m'
  }

  /** Concatenation of a sequence of sequences. */
  function Flatten(ss: seq<seq<int>>): seq<int>
  {
    if |ss| == 0 then [] else ss[0] + Flatten(ss[1..])
  }

  /** The first `block` elements of every part. */
  function Heads(parts: seq<seq<int>>, block: nat): (hs: seq<seq<int>>)
    requires forall i :: 0 <= i < |parts| ==> |parts[i]| >= block
    ensures |hs| == |parts| && forall i :: 0 <= i < |hs| ==> |hs[i]| == block
  {
    seq(|parts|, i requires 0 <= i < |parts| => parts[i][..block])
  }

  /** Every part without its first `block` elements. */
  function Tails(parts: seq<seq<int>>, block: nat): (ts: seq<seq<int>>)
    requires forall i :: 0 <= i < |parts| ==> |parts[i]| >= block
    ensures |ts| == |parts| && forall i :: 0 <= i < |ts| ==> |ts[i]| == |parts[i]| - block
  {
    seq(|parts|, i requires 0 <= i < |parts| => parts[i][block..])
  }

  /** Concatenation along an axis, in row-major storage: for each of the
      `outer` positions before the axis, the `block`-long runs of the parts
      (a run holds the axis and every axis after it) follow one another. */
  function Interleave(parts: seq<seq<int>>, outer: nat, block: nat): seq<int>
    requires forall i :: 0 <= i < |parts| ==> |parts[i]| == outer * block
    decreases outer
  {
    if outer == 0 then []
    else
      Distrib(outer - 1, 1, block);
      Flatten(Heads(parts, block)) + Interleave(Tails(parts, block), outer - 1, block)
  }

  /** `np.concatenate(parts, axis=axis)` for parts that all have shape `shape`,
      with NumPy's checks in NumPy's order. */
  function Concatenate(shape: seq<nat>, parts: seq<seq<int>>, axis: nat): (r: Result<NdArray>)
    requires forall i :: 0 <= i < |parts| ==> |parts[i]| == Size(shape)
    ensures r.Ok? <==> |parts| > 0 && axis < |shape|
    ensures r.Ok? ==> Valid(r.value) && r.value.shape == shape[axis := shape[axis] * |parts|]
  {
    if |parts| == 0 then Err(NothingToConcatenate)
    else if |shape| == 0 then Err(ZeroDimensional)
    else if axis >= |shape| then Err(AxisOutOfBounds(axis, |shape|))
    else
      SizeSplit(shape, axis);
      GrownSize(shape, axis, |parts|);
      InterleaveLength(parts, Size(shape[..axis]), Size(shape[axis..]));
      Ok(NdArray(shape[axis := shape[axis] * |parts|],
                 Interleave(parts, Size(shape[..axis]), Size(shape[axis..]))))
  }

  // ---------------------------------------------------------------------
  // Arithmetic helpers

  lemma MulAddBound(a: nat, n: nat, s: nat, r: nat)
    requires a < n && r < s
    ensures a * s + r < n * s
  {
    calc {
      a * s + r;
    <
      a * s + s;
    ==
      (a + 1) * s;
    <=  { MulMonotone(a + 1, n, s); }
      n * s;
    }
  }

  lemma MulMonotone(a: nat, b: nat, s: nat)
    requires a <= b
    ensures a * s <= b * s
  {
  }

  lemma DivMod(x: nat, n: nat)
    requires n > 0
    ensures x == (x / n) * n + x % n && 0 <= x % n < n && x / n >= 0
  {
  }

  /** `x < n*k` puts `x` in one of the first `k` runs of length `n`. */
  lemma DivBelow(x: nat, n: nat, k: nat)
    requires n > 0 && x < n * k
    ensures x / n < k
  {
    if x / n >= k {
      MulMonotone(k, x / n, n);
      assert false;
    }
  }

  /** Quotient and remainder are the only way to write `x` as `c*n + i` with `i < n`. */
  lemma DivModUnique(x: nat, n: nat, c: nat, i: nat)
    requires i < n && x == c * n + i
    ensures x / n == c && x % n == i
  {
    DivMod(x, n);
    var q := x / n;
    if q > c {
      MulMonotone(c + 1, q, n);
      Distrib(c, 1, n);
      assert false;
    }
    if q < c {
      MulMonotone(q + 1, c, n);
      Distrib(q, 1, n);
      assert false;
    }
  }

  lemma MulNonneg(a: nat, b: nat)
    ensures a * b >= 0
  {
  }

  lemma MulAssoc(a: int, b: int, c: int)
    ensures (a * b) * c == a * (b * c)
  {
  }

  lemma Distrib(a: int, b: int, c: int)
    ensures (a + b) * c == a * c + b * c
  {
  }

  // ---------------------------------------------------------------------
  // Shapes and offsets

  /** An array has elements exactly when no extent is zero. */
  lemma {:induction false} SizePositive(shape: seq<nat>)
    ensures Size(shape) > 0 <==> forall k :: 0 <= k < |shape| ==> shape[k] > 0
  {
    if |shape| > 0 {
      SizePositive(shape[1..]);
      assert forall k :: 1 <= k < |shape| ==> shape[k] == shape[1..][k - 1];
    }
  }

  lemma {:induction false} SizeConcat(a: seq<nat>, b: seq<nat>)
    ensures Size(a + b) == Size(a) * Size(b)
  {
    if |a| > 0 {
      assert (a + b)[1..] == a[1..] + b;
      SizeConcat(a[1..], b);
      calc {
        Size(a + b);
        a[0] * Size(a[1..] + b);
        a[0] * (Size(a[1..]) * Size(b));
        (a[0] * Size(a[1..])) * Size(b);
      }
    } else {
      assert a + b == b;
    }
  }

  /** The size of a shape is the size of its first `d` axes times the size of the rest. */
  lemma {:induction false} SizeSplit(shape: seq<nat>, d: nat)
    requires d <= |shape|
    ensures Size(shape) == Size(shape[..d]) * Size(shape[d..])
  {
    assert shape == shape[..d] + shape[d..];
    SizeConcat(shape[..d], shape[d..]);
  }

  /** Multiplying the extent along `axis` by `k` multiplies the size of
      every run from that axis on by `k`. */
  lemma GrownSize(shape: seq<nat>, axis: nat, k: nat)
    requires axis < |shape|
    ensures Size(shape[axis := shape[axis] * k]) == Size(shape[..axis]) * (k * Size(shape[axis..]))
  {
    var grown := shape[axis := shape[axis] * k];
    SizeSplit(grown, axis);
    assert grown[..axis] == shape[..axis];
    assert grown[axis..][1..] == shape[axis + 1..] == shape[axis..][1..];
    var n: int, size: int := shape[axis], Size(shape[axis + 1..]);
    assert Size(grown[axis..]) == (n * k) * size;
    assert Size(shape[axis..]) == n * size;
    MulAssoc(n, k, size);
    MulAssoc(k, n, size);
  }

  /** Row-major offsets factor at any axis `d`: the prefix selects a block of
      `Size(shape[d..])` elements and the suffix a position inside it. */
  lemma {:induction false} OffsetSplit(shape: seq<nat>, idx: seq<nat>, d: nat)
    requires InBounds(shape, idx) && d <= |shape|
    ensures InBounds(shape[..d], idx[..d]) && InBounds(shape[d..], idx[d..])
    ensures Offset(shape, idx) == Offset(shape[..d], idx[..d]) * Size(shape[d..]) + Offset(shape[d..], idx[d..])
  {
    assert InBounds(shape[..d], idx[..d]) && InBounds(shape[d..], idx[d..]);
    if d == 0 {
      assert shape[d..] == shape && idx[d..] == idx;
    } else {
      var s1, i1 := shape[1..], idx[1..];
      assert InBounds(s1, i1);
      OffsetSplit(s1, i1, d - 1);
      assert s1[..d - 1] == shape[..d][1..] && i1[..d - 1] == idx[..d][1..];
      assert s1[d - 1..] == shape[d..] && i1[d - 1..] == idx[d..];
      SizeSplit(s1, d - 1);
      var x: int, a: int, b: int := idx[0], Size(shape[..d][1..]), Size(shape[d..]);
      var o: int := Offset(shape[..d][1..], idx[..d][1..]);
      var r: int := Offset(shape[d..], idx[d..]);
      assert Offset(shape, idx) == x * (a * b) + (o * b + r);
      assert Offset(shape[..d], idx[..d]) == x * a + o;
      Regroup(x, a, b, o, r, Offset(shape[..d], idx[..d]));
    }
  }

  lemma Regroup(x: int, a: int, b: int, o: int, r: int, p: int)
    requires p == x * a + o
    ensures x * (a * b) + (o * b + r) == p * b + r
  {
    MulAssoc(x, a, b);
    Distrib(x * a, o, b);
  }

  // ---------------------------------------------------------------------
  // Flatten and Interleave

  /** Every row-major position is the offset of some multi-index. */
  lemma {:induction false} OffsetOnto(shape: seq<nat>, p: nat) returns (idx: seq<nat>)
    requires p < Size(shape)
    ensures InBounds(shape, idx) && Offset(shape, idx) == p
    decreases |shape|
  {
    if |shape| == 0 {
      idx := [];
    } else {
      var s := Size(shape[1..]);
      if s == 0 {
        assert false;
      }
      DivMod(p, s);
      DivBelow(p, s, shape[0]);
      var rest := OffsetOnto(shape[1..], p % s);
      idx := [p / s] + rest;
      assert idx[1..] == rest;
    }
  }

  lemma {:induction false} FlattenLength(ss: seq<seq<int>>, len: nat)
    requires forall i :: 0 <= i < |ss| ==> |ss[i]| == len
    ensures |Flatten(ss)| == |ss| * len
  {
    if |ss| > 0 {
      FlattenLength(ss[1..], len);
    }
  }

  lemma {:induction false} FlattenAt(ss: seq<seq<int>>, len: nat, t: nat, j: nat)
    requires forall i :: 0 <= i < |ss| ==> |ss[i]| == len
    requires t < |ss| && j < len
    ensures |Flatten(ss)| == |ss| * len
    ensures t * len + j < |ss| * len
    ensures Flatten(ss)[t * len + j] == ss[t][j]
  {
    FlattenLength(ss, len);
    MulAddBound(t, |ss|, len, j);
    if t > 0 {
      FlattenAt(ss[1..], len, t - 1, j);
      assert t * len + j == len + ((t - 1) * len + j);
    }
  }

  lemma {:induction false} InterleaveLength(parts: seq<seq<int>>, outer: nat, block: nat)
    requires forall i :: 0 <= i < |parts| ==> |parts[i]| == outer * block
    ensures |Interleave(parts, outer, block)| == outer * (|parts| * block)
    decreases outer
  {
    if outer > 0 {
      Distrib(outer - 1, 1, block);
      FlattenLength(Heads(parts, block), block);
      InterleaveLength(Tails(parts, block), outer - 1, block);
      Distrib(outer - 1, 1, |parts| * block);
    }
  }

  /** Unfolding of Interleave: the first `k*block` positions hold the heads
      of the parts, the positions after them the interleaving of the tails. */
  lemma InterleaveUnfold(parts: seq<seq<int>>, outer: nat, block: nat)
    requires forall t :: 0 <= t < |parts| ==> |parts[t]| == outer * block
    requires outer > 0
    ensures forall t :: 0 <= t < |parts| ==> |parts[t]| >= block
    ensures forall t :: 0 <= t < |Tails(parts, block)| ==> |Tails(parts, block)[t]| == (outer - 1) * block
    ensures Interleave(parts, outer, block)
         == Flatten(Heads(parts, block)) + Interleave(Tails(parts, block), outer - 1, block)
    ensures |Flatten(Heads(parts, block))| == |parts| * block
  {
    Distrib(outer - 1, 1, block);
    FlattenLength(Heads(parts, block), block);
  }

  lemma HeadsAt(parts: seq<seq<int>>, block: nat, i: nat, j: nat)
    requires forall t :: 0 <= t < |parts| ==> |parts[t]| >= block
    requires i < |parts| && j < block
    ensures Heads(parts, block)[i][j] == parts[i][j]
  {
  }

  lemma TailsAt(parts: seq<seq<int>>, block: nat, i: nat, y: nat)
    requires forall t :: 0 <= t < |parts| ==> |parts[t]| >= block
    requires i < |parts| && block + y < |parts[i]|
    ensures Tails(parts, block)[i][y] == parts[i][block + y]
  {
  }

  lemma AppendAt(a: seq<int>, b: seq<int>, x: nat)
    requires x < |b|
    ensures (a + b)[|a| + x] == b[x]
  {
  }

  /** Element `j` of run `o` of part `i` lands at position `o*(k*block) + i*block + j`
      of the concatenation of `k` parts. */
  lemma {:induction false} InterleaveAt(parts: seq<seq<int>>, outer: nat, block: nat, o: nat, i: nat, j: nat)
    requires forall t :: 0 <= t < |parts| ==> |parts[t]| == outer * block
    requires o < outer && i < |parts| && j < block
    ensures 0 <= o * (|parts| * block) + i * block + j < |Interleave(parts, outer, block)|
    ensures 0 <= o * block + j < |parts[i]|
    ensures Interleave(parts, outer, block)[o * (|parts| * block) + i * block + j] == parts[i][o * block + j]
    decreases outer, 1
  {
    if o == 0 {
      InterleaveFirstRun(parts, outer, block, i, j);
      assert o * (|parts| * block) == 0 && o * block == 0;
    } else {
      InterleaveLaterRun(parts, outer, block, o, i, j);
    }
  }

  lemma InterleaveBounds(parts: seq<seq<int>>, outer: nat, block: nat, o: nat, i: nat, j: nat)
    requires forall t :: 0 <= t < |parts| ==> |parts[t]| == outer * block
    requires o < outer && i < |parts| && j < block
    ensures 0 <= o * (|parts| * block) + i * block + j < |Interleave(parts, outer, block)|
    ensures 0 <= o * block + j < |parts[i]|
  {
    InterleaveLength(parts, outer, block);
    RunBound(outer, |parts|, block, o, i, j);
    MulNonneg(o, block);
    MulAddBound(o, outer, block, j);
  }

  /** The first run of every part comes first, part after part. */
  lemma InterleaveFirstRun(parts: seq<seq<int>>, outer: nat, block: nat, i: nat, j: nat)
    requires forall t :: 0 <= t < |parts| ==> |parts[t]| == outer * block
    requires 0 < outer && i < |parts| && j < block
    ensures 0 <= i * block + j < |Interleave(parts, outer, block)|
    ensures j < |parts[i]|
    ensures Interleave(parts, outer, block)[i * block + j] == parts[i][j]
  {
    InterleaveUnfold(parts, outer, block);
    var heads := Heads(parts, block);
    FlattenAt(heads, block, i, j);
    HeadsAt(parts, block, i, j);
    MulMonotone(1, outer, block);
    MulNonneg(i, block);
  }

  /** Run `o > 0` of every part follows the first runs of all parts, as run
      `o - 1` of the interleaving of their tails. */
  lemma {:induction false} InterleaveLaterRun(parts: seq<seq<int>>, outer: nat, block: nat, o: nat, i: nat, j: nat)
    requires forall t :: 0 <= t < |parts| ==> |parts[t]| == outer * block
    requires 0 < o < outer && i < |parts| && j < block
    ensures 0 <= o * (|parts| * block) + i * block + j < |Interleave(parts, outer, block)|
    ensures 0 <= o * block + j < |parts[i]|
    ensures Interleave(parts, outer, block)[o * (|parts| * block) + i * block + j] == parts[i][o * block + j]
    decreases outer, 0
  {
    InterleaveBounds(parts, outer, block, o, i, j);
    InterleaveUnfold(parts, outer, block);
    var run := |parts| * block;
    var heads, tails := Heads(parts, block), Tails(parts, block);
    var front, back := Flatten(heads), Interleave(tails, outer - 1, block);
    InterleaveAt(tails, outer - 1, block, o - 1, i, j);
    var x, y := RunStep(run, block, o, i, j);
    assert back[x] == tails[i][y];
    TailsAt(parts, block, i, y);
    AppendAt(front, back, x);
    assert Interleave(parts, outer, block)[run + x] == parts[i][o * block + j];
  }

  /** The position of element `j` of run `o` of part `i` is inside the `outer` runs. */
  lemma RunBound(outer: nat, k: nat, block: nat, o: nat, i: nat, j: nat)
    requires o < outer && i < k && j < block
    ensures 0 <= o * (k * block) + i * block + j < outer * (k * block)
  {
    MulNonneg(o, k * block);
    MulNonneg(i, block);
    MulAddBound(i, k, block, j);
    MulAddBound(o, outer, k * block, i * block + j);
  }

  /** Positions in run `o` are one run further on than those in run `o - 1`. */
  lemma RunStep(run: nat, block: nat, o: nat, i: nat, j: nat) returns (x: nat, y: nat)
    requires o > 0
    ensures x == (o - 1) * run + i * block + j && o * run + i * block + j == run + x
    ensures y == (o - 1) * block + j && block + y == o * block + j
  {
    MulNonneg(o - 1, run);
    MulNonneg(i, block);
    MulNonneg(o - 1, block);
    x, y := (o - 1) * run + i * block + j, (o - 1) * block + j;
    Distrib(o - 1, 1, run);
    Distrib(o - 1, 1, block);
  }

  // ---------------------------------------------------------------------
  // Concatenate, element by element

  /** Where index `idx` of one part, moved to copy `c` along `axis`, sits in
      the row-major storage of the concatenation of `k` such parts. */
  lemma GrownOffset(shape: seq<nat>, axis: nat, k: nat, c: nat, idx: seq<nat>) returns (o: nat, j: nat)
    requires axis < |shape| && c < k && InBounds(shape, idx)
    ensures InBounds(shape[axis := shape[axis] * k], idx[axis := idx[axis] + c * shape[axis]])
    ensures o < Size(shape[..axis]) && j < Size(shape[axis..])
    ensures Offset(shape, idx) == o * Size(shape[axis..]) + j
    ensures Offset(shape[axis := shape[axis] * k], idx[axis := idx[axis] + c * shape[axis]])
         == o * (k * Size(shape[axis..])) + c * Size(shape[axis..]) + j
  {
    var grown := shape[axis := shape[axis] * k];
    var n, e := shape[axis], idx[axis];
    var at := idx[axis := e + c * n];
    assert InBounds(grown, at) by {
      MulNonneg(c, n);
      MulAddBound(c, k, n, e);
      assert c * n + e < k * n;
    }
    var tail := shape[axis + 1..];
    assert shape[axis..] == [n] + tail && shape[axis..][1..] == tail;
    assert grown[..axis] == shape[..axis] && at[..axis] == idx[..axis];
    assert grown[axis..] == [k * n] + tail && grown[axis..][1..] == tail;
    assert at[axis..] == [e + c * n] + idx[axis + 1..] && at[axis..][1..] == idx[axis + 1..];
    assert idx[axis..] == [e] + idx[axis + 1..] && idx[axis..][1..] == idx[axis + 1..];
    OffsetSplit(shape, idx, axis);
    OffsetSplit(grown, at, axis);
    o := Offset(shape[..axis], idx[..axis]);
    var size, rest := Size(tail), Offset(tail, idx[axis + 1..]);
    j := Offset(shape[axis..], idx[axis..]);
    assert Size(shape[axis..]) == n * size && Size(grown[axis..]) == (k * n) * size;
    assert Offset(grown[axis..], at[axis..]) == (e + c * n) * size + rest && j == e * size + rest;
    GrownArith(o, e, c, n, size, rest, k);
  }

  /** The arithmetic behind `GrownOffset`, for outer position `o`, index `e`
      along the axis, copy `c`, extent `n` along the axis, element count
      `size` and offset `rest` of the axes after it, and `k` copies: the run
      of `k` copies is `k` times longer, and copy `c` starts `c` runs in. */
  lemma GrownArith(o: int, e: int, c: int, n: int, size: int, rest: int, k: int)
    ensures o * ((k * n) * size) + ((e + c * n) * size + rest)
         == o * (k * (n * size)) + c * (n * size) + (e * size + rest)
  {
    MulAssoc(k, n, size);
    MulAssoc(c, n, size);
    Distrib(e, c * n, size);
  }

  /** Copy `c` of a concatenation of equally shaped parts along `axis`
      occupies indices `c*n .. c*n + n - 1` on that axis (`n` the part's
      extent), and holds part `c` there. */
  lemma ConcatenateAt(shape: seq<nat>, parts: seq<seq<int>>, axis: nat, c: nat, idx: seq<nat>)
    requires forall i :: 0 <= i < |parts| ==> |parts[i]| == Size(shape)
    requires axis < |shape| && c < |parts| && InBounds(shape, idx)
    ensures Concatenate(shape, parts, axis).Ok?
    ensures InBounds(Concatenate(shape, parts, axis).value.shape, idx[axis := idx[axis] + c * shape[axis]])
    ensures Get(Concatenate(shape, parts, axis).value, idx[axis := idx[axis] + c * shape[axis]])
         == parts[c][Offset(shape, idx)]
  {
    var o, j := GrownOffset(shape, axis, |parts|, c, idx);
    SizeSplit(shape, axis);
    InterleaveAt(parts, Size(shape[..axis]), Size(shape[axis..]), o, c, j);
  }
}
