/** `repeat(mask, reps)` from the tests of the big-image tiling: it tiles a
    label image `reps[d]` times along every axis `d`, and raises every
    positive label of copy `i` along an axis by `i` times the largest label
    of the image so far, so that objects of different copies keep different
    ids. Arrays whose dtype is not an integer type are tiled unchanged. */
module LabelTiling {
  import opened NdArrays

  /** The `reps` argument: one count for every axis, or one count per axis. */
  datatype Reps = Scalar(count: int) | PerAxis(counts: seq<int>)

  /** One count per axis: a scalar count is repeated for each of the `ndim`
      axes, a sequence of counts is taken as it is. */
  function Broadcast(reps: Reps, ndim: nat): (counts: seq<int>)
    ensures reps.Scalar? ==> |counts| == ndim && forall d :: 0 <= d < ndim ==> counts[d] == reps.count
    ensures reps.PerAxis? ==> counts == reps.counts
  {
    match reps
    case Scalar(n) => seq(ndim, _ => n)
    case PerAxis(ns) => ns
  }

  /** What `shift` does to one entry: positive labels grow by `v`, background
      and negative entries stay as they are. */
  function ShiftLabel(x: int, v: int): int
  {
    if x > 0 then x + v else x
  }

  function Shifted(s: seq<int>, v: int): seq<int>
  {
    seq(|s|, k requires 0 <= k < |s| => ShiftLabel(s[k], v))
  }

  /** What the dtype-dependent shift does to one entry: for an integer dtype
      a positive label grows by `v`, and every other entry, as well as every
      entry of a non-integer array, is kept. With `v >= 0` background stays
      background and objects stay objects. */
  function Relabel(isInteger: bool, x: int, v: int): (y: int)
    ensures !isInteger || x <= 0 ==> y == x
    ensures isInteger && x > 0 ==> y == x + v
    ensures v >= 0 ==> (y > 0 <==> x > 0)
  {
    if isInteger then ShiftLabel(x, v) else x
  }

  /** The shift chosen by dtype: `shift` for an integer dtype, the identity
      for any other. It acts entry by entry. */
  function ShiftFor(isInteger: bool, s: seq<int>, v: int): (r: seq<int>)
    ensures |r| == |s| && forall k :: 0 <= k < |s| ==> r[k] == Relabel(isInteger, s[k], v)
    ensures !isInteger ==> r == s
  {
    if isInteger then Shifted(s, v) else s
  }

  /** `shift(mask, v)`: copies the mask, then adds `v` in place to the
      entries of the copy that are positive. The argument is not in any
      modifies clause, so it is left as it was. */
  method Shift(mask: array<int>, v: int) returns (shifted: array<int>)
    ensures fresh(shifted)
    ensures shifted.Length == mask.Length
    ensures forall k :: 0 <= k < mask.Length ==>
      shifted[k] == (if mask[k] > 0 then mask[k] + v else mask[k])
    ensures shifted[..] == Shifted(mask[..], v)
  {
    shifted := new int[mask.Length](k requires 0 <= k < mask.Length reads mask => mask[k]);
    for k := 0 to shifted.Length
      invariant forall j :: 0 <= j < k ==> shifted[j] == ShiftLabel(mask[j], v)
      invariant forall j :: k <= j < shifted.Length ==> shifted[j] == mask[j]
    {
      if shifted[k] > 0 {
        shifted[k] := shifted[k] + v;
      }
    }
  }

  /** Number of copies `range(rep)` yields. */
  function Count(rep: int): nat
  {
    if rep > 0 then rep else 0
  }

  /** The `count` copies of one pass: copy `i` is the mask shifted by
      `nLabels * i`, so copy 0 is the mask itself. */
  function Copies(s: seq<int>, isInteger: bool, nLabels: int, count: nat): (cs: seq<seq<int>>)
    ensures |cs| == count && forall i :: 0 <= i < count ==> |cs[i]| == |s|
    ensures forall i :: 0 <= i < count ==> cs[i] == ShiftFor(isInteger, s, nLabels * i)
    ensures count > 0 ==> cs[0] == s
  {
    seq(count, i requires 0 <= i < count => ShiftFor(isInteger, s, nLabels * i))
  }

  /** One pass of the loop for axis `axis`: `n_labels = mask.max()`, the
      copies, and `np.concatenate(copies, axis=axis)`. It succeeds exactly
      when the mask has elements, at least one copy is asked for and the
      axis exists, and then only the extent along `axis` changes, `rep`-fold. */
  function TileAxis(m: NdArray, isInteger: bool, axis: nat, rep: int): (r: Result<NdArray>)
    requires Valid(m)
    ensures r.Ok? <==> |m.data| > 0 && rep >= 1 && axis < |m.shape|
    ensures r.Ok? ==> Valid(r.value) && r.value.shape == m.shape[axis := m.shape[axis] * rep]
  {
    if |m.data| == 0 then Err(EmptyReduction)
    else Concatenate(m.shape, Copies(m.data, isInteger, Max(m.data), Count(rep)), axis)
  }

  /** The axis loop from axis `d` on: one pass per remaining count, each on
      the result of the previous one, stopping at the first error. With no
      count left the mask is returned as it is; a result keeps the number of
      axes. */
  function RepeatFrom(m: NdArray, isInteger: bool, counts: seq<int>, d: nat): (r: Result<NdArray>)
    requires Valid(m) && d <= |counts|
    ensures r.Ok? ==> Valid(r.value) && |r.value.shape| == |m.shape|
    ensures d == |counts| ==> r == Ok(m)
    decreases |counts| - d
  {
    if d == |counts| then Ok(m)
    else
      match TileAxis(m, isInteger, d, counts[d])
      case Err(e) => Err(e)
      case Ok(next) => RepeatFrom(next, isInteger, counts, d + 1)
  }

  /** `repeat(mask, reps)` for a mask whose dtype is an integer type exactly
      when `isInteger`. A 0-d mask has no axis to tile and comes back as it
      is; any result has as many axes as the mask. */
  function Repeated(m: NdArray, isInteger: bool, reps: Reps): (r: Result<NdArray>)
    requires Valid(m)
    ensures r.Ok? ==> Valid(r.value) && |r.value.shape| == |m.shape|
    ensures |m.shape| == 0 && (reps.Scalar? || reps.counts == []) ==> r == Ok(m)
  {
    RepeatFrom(m, isInteger, Broadcast(reps, |m.shape|), 0)
  }

  /** The body of the axis loop: `n_labels = mask.max()`, the list of
      shifted copies (each made by `Shift`, or the mask itself for a
      non-integer dtype) and their concatenation along `axis`. */
  method TileAlong(shape: seq<nat>, mask: array<int>, isInteger: bool, axis: nat, rep: int)
    returns (tiled: Result<NdArray>)
    requires mask.Length == Size(shape)
    ensures tiled == TileAxis(NdArray(shape, mask[..]), isInteger, axis, rep)
  {
    if mask.Length == 0 {
      return Err(EmptyReduction);
    }
    var nLabels := Max(mask[..]);
    var copies: seq<seq<int>> := [];
    for i := 0 to Count(rep)
      invariant copies == Copies(mask[..], isInteger, nLabels, i)
    {
      var copy := mask;
      if isInteger {
        copy := Shift(mask, nLabels * i);
      }
      copies := copies + [copy[..]];
    }
    tiled := Concatenate(shape, copies, axis);
  }

  /** A new array holding `s`: `np.concatenate` returns a fresh array. */
  method NewArray(s: seq<int>) returns (a: array<int>)
    ensures fresh(a) && a[..] == s
  {
    a := new int[|s|](k requires 0 <= k < |s| => s[k]);
  }

  /** `repeat(mask, reps)`, step by step: the axis loop reassigns the mask
      and recomputes the largest label on every pass. */
  method Repeat(shape: seq<nat>, mask: array<int>, isInteger: bool, reps: Reps) returns (r: Result<NdArray>)
    requires mask.Length == Size(shape)
    ensures r == Repeated(NdArray(shape, mask[..]), isInteger, reps)
  {
    var counts := Broadcast(reps, |shape|);
    ghost var whole := RepeatFrom(NdArray(shape, mask[..]), isInteger, counts, 0);
    var current, currentShape := mask, shape;
    for d := 0 to |counts|
      invariant current.Length == Size(currentShape)
      invariant whole == RepeatFrom(NdArray(currentShape, current[..]), isInteger, counts, d)
    {
      var tiled := TileAlong(currentShape, current, isInteger, d, counts[d]);
      if tiled.Err? {
        return Err(tiled.error);
      }
      current := NewArray(tiled.value.data);
      currentShape := tiled.value.shape;
    }
    r := Ok(NdArray(currentShape, current[..]));
  }
}
