# Label tiling for the big-image tests of StarDist

The tests of StarDist's big-image prediction (`stardist.big`) need large label
images. They build them by tiling a small one with `repeat(mask, reps)`. The
function tiles a label image `reps[d]` times along every axis `d`, and a scalar
`reps` means the same count for every axis. An integer label image's copies
must keep their objects apart: on each pass along an axis, `n_labels` is the
current largest label, and every positive label of copy `i` is raised by
`n_labels * i` with the nested helper `shift`. Background (0) is left as it is.
For an array whose dtype is not an integer type, such as a normalised float
image, the copies are left unshifted.

The project models that function and the part of NumPy it relies on:

- `ndarray.dfy` (module `NdArrays`):
  - an N-dimensional array as a shape and its row-major element sequence;
  - `a.max()`;
  - `np.concatenate` of equally shaped arrays along one axis, with the errors
    NumPy raises, and a proof of where every element of every part goes.
- `repeat.dfy` (module `LabelTiling`):
  - `shift` as a method that copies an array and adds to its positive entries
    in place;
  - one pass of the axis loop, both as a function (`TileAxis`) and as a method
    that builds the list of copies (`TileAlong`);
  - `repeat` as a method whose loop reassigns the mask. It is proved to compute
    `Repeated`, the function that folds the passes.
- `properties.dfy` (module `TilingProperties`): what one pass does, stated
  without reference to `np.concatenate`. Copy `c` sits at indices
  `c*n .. c*n+n-1` along the axis. It holds the mask relabelled by
  `n_labels*c`. Copies use disjoint label ranges. The largest label becomes
  `n_labels*rep`.
- `loop.dfy` (module `RepeatProperties`): what the whole loop does. It covers:
  - when it succeeds;
  - the final shape;
  - the final largest label;
  - the label at every index, in terms of the mask and the number of the tile
    holding that index;
  - the fact that tiles never share an object id.

The array's dtype is a flag `isInteger`. Values are integers. For a
non-integer dtype they stand in for the values, which `repeat` only copies.

## Model

| member | source | states |
|---|---|---|
| LabelTiling.Broadcast | tests/test_big.py:20-21 | a scalar `reps` becomes one count per axis, all equal to it; a tuple is used as given |
| LabelTiling.Relabel | tests/test_big.py:24-26 | one entry under the dtype-dependent shift: for an integer dtype a positive label grows by `v`; a non-positive entry, or any entry of a non-integer array, is kept; with `v >= 0` an entry is positive afterwards exactly when it was before |
| LabelTiling.ShiftFor | tests/test_big.py:26 | `_shift` acts entry by entry as `Relabel`, keeps the length, and is the identity for a non-integer dtype |
| LabelTiling.Copies | tests/test_big.py:29 | the list of one pass has `count` copies, each as long as the mask; copy `i` is the mask under `_shift` by `n_labels*i`, so copy 0 is the mask itself |
| LabelTiling.RepeatFrom | tests/test_big.py:27-30 | the axis loop from axis `d` on as a fold of the passes: with no count left it returns the mask, and any result is a valid array with as many axes as the mask |
| LabelTiling.Repeated | tests/test_big.py:19-31 | `repeat` itself: any result is a valid array with as many axes as the mask, and a 0-d mask with a scalar or empty `reps` comes back unchanged |
| LabelTiling.Shift | tests/test_big.py:22-25 | returns a fresh array of the same length in which exactly the positive entries of the argument are raised by `v`, the others copied; the argument is not modified |
| LabelTiling.TileAxis | tests/test_big.py:28-30 | one pass fails exactly when the mask has no elements (`max` of an empty array), `rep < 1` (no copies to concatenate) or the axis does not exist; on success the extent along the axis is multiplied by `rep` and every other extent is kept |
| LabelTiling.TileAlong | tests/test_big.py:28-30 | the loop building `[_shift(mask, n_labels*i) for i in range(rep)]` with `Shift` for an integer dtype, followed by the concatenation, computes the pass `TileAxis` |
| LabelTiling.Repeat | tests/test_big.py:19-31 | the axis loop, which reassigns the mask and recomputes `n_labels` on every pass, returns `Repeated`, the fold of the passes over the broadcast counts |
| NdArrays.Max | tests/test_big.py:28 | `mask.max()` is an element of the array and no element is above it |
| NdArrays.Concatenate | tests/test_big.py:30 | `np.concatenate` of equally shaped parts succeeds exactly when there is a part and the axis exists, and then has the shape with the axis extent multiplied by the number of parts |
| NdArrays.ConcatenateAt | tests/test_big.py:30 | element `idx` of part `c` is at index `idx` with `c*n` added along the axis of the concatenation |
| NdArrays.InterleaveAt | tests/test_big.py:30 | in row-major storage, element `j` of run `o` of part `i` is at position `o*(k*block) + i*block + j` of the concatenation of `k` parts |
| NdArrays.GrownOffset | tests/test_big.py:30 | the row-major position of an index moved into copy `c` along an axis, in terms of its position in one part |
| TilingProperties.TileAxisCopy | tests/test_big.py:28-30 | index `h` of the mask, moved into copy `c` along the axis, holds the mask's label at `h` raised by `n_labels*c` (for an integer dtype, when positive) |
| TilingProperties.TileAxisIsTiling | tests/test_big.py:28-30 | the result of a pass is exactly the `rep`-fold tiling of the mask along the axis with copy `c` relabelled by `n_labels*c` |
| TilingProperties.TilingFirstCopy | tests/test_big.py:28-29 | copy 0 is the mask itself, unshifted |
| TilingProperties.TilingSplit | tests/test_big.py:28-30 | every index of the pass's result lies in copy `idx[axis] / n` below `rep`, at index `idx[axis] % n` of the mask, and holds that label relabelled by `n_labels*c` |
| TilingProperties.TilingLabelRange | tests/test_big.py:27-30 | for an integer dtype, a positive label of copy `c` lies in `(n_labels*c, n_labels*(c+1)]` |
| TilingProperties.TilingCopiesDisjoint | tests/test_big.py:27-30 | for an integer dtype, equal positive labels lie in the same copy |
| TilingProperties.TilingMax | tests/test_big.py:27-30 | after a pass the largest label is `n_labels*rep` for an integer mask with a positive label, else `n_labels` |
| TilingProperties.PositiveBand | tests/test_big.py:24-29 | a positive label made by shifting a label `x <= n_labels` by `n_labels*c` lies in `(n_labels*c, n_labels*(c+1)]` |
| TilingProperties.BandUnique | tests/test_big.py:29 | the label bands of different copies do not overlap |
| RepeatProperties.RepeatOutcome | tests/test_big.py:26-31 | the loop succeeds exactly when it has no axis to process, or the mask has elements, every axis named by the counts exists and every count is at least 1 |
| RepeatProperties.RepeatShape | tests/test_big.py:27-30 | on success, the extent along every axis `k` that has a count is multiplied by `counts[k]`, and every other extent is unchanged |
| RepeatProperties.RepeatMax | tests/test_big.py:27-30 | since `n_labels` is recomputed on every pass, the final largest label is the mask's times the product of the counts (integer mask with a positive label), otherwise the mask's |
| RepeatProperties.RepeatLabels | tests/test_big.py:26-30 | the label at every index of the result is the mask's label at the index taken modulo the mask's shape, raised (integer dtype, positive label) by the mask's largest label times the number of the tile holding the index; for a non-integer dtype it is that label unchanged |
| RepeatProperties.RepeatTileBound | tests/test_big.py:27-30 | every index of the result has a tile number below the product of the counts |
| RepeatProperties.RepeatLabelRange | tests/test_big.py:27-30 | for an integer mask, a positive label of tile `t` lies in `(n_labels*t, n_labels*(t+1)]`, `n_labels` being the mask's largest label |
| RepeatProperties.TileDigits | tests/test_big.py:27-30 | two indices within the tiles have the same tile number exactly when they lie in the same copy along every processed axis |
| RepeatProperties.RepeatSameTile | tests/test_big.py:27-30 | indices of the result with the same tile number lie in the same copy along every processed axis |
| RepeatProperties.RepeatIds | tests/test_big.py:27-30 | for an integer mask, two equal positive labels of the result lie in the same copy along every axis and come from the same label of the mask, so objects of different tiles never share an id |
| RepeatProperties.RepeatedScalar | tests/test_big.py:20-21 | with a scalar `reps` the call succeeds exactly for a 0-d mask, or a mask with elements and `reps >= 1`, and then every extent is multiplied by `reps` |

## Left out

- `Block`, `BlockND`, `cover`, `read`, `crop_context`, `filter_objects` and `write` of `stardist.big`, and the `reassemble` driver around them (tests/test_big.py:35-46): `stardist.big` is not part of this model.
- `Polygon`, `Polyhedron` and `render_polygons` (tests/test_big.py:14-15, 202-230): their rasterisation lives in `stardist.geometry` and `stardist.big`, which are not part of this model, and works on floating point.
- The prediction tests, `calculate_extents`, `normalize`, `matching` and the image loaders: they run neural networks, floating point and code that is not part of this model.
- The commented-out repaint tests (tests/test_big.py:153-198): not live code.
- LabelTiling.Shift: does not model fixed-width integer wrap-around. Labels are unbounded integers, while `_mask[_mask>0] += v` on an `int32` array wraps past 2^31 - 1.
- TilingProperties.TilingMax, TilingProperties.TilingLabelRange and TilingProperties.TilingCopiesDisjoint: they hold for the program only while `n_labels * rep` fits the mask's dtype. For an `int32` mask with largest label 2^30 and `rep = 4`, copy 2's labels exceed 2^31 - 1, so they wrap to negative values.
- RepeatProperties.RepeatMax, RepeatProperties.RepeatLabels, RepeatProperties.RepeatLabelRange and RepeatProperties.RepeatIds: they hold for the program only while the mask's largest label times the product of the counts fits the mask's dtype. Beyond that bound, the computed labels `n_labels*i` and `_mask + v` wrap.
- LabelTiling.TileAxis: `np.concatenate` is modelled only for parts of one shape, which is all `repeat` passes. NumPy's shape-mismatch errors are left out.
- Values of a non-integer dtype are modelled as integers: `repeat` only copies them. `np.issubdtype(mask.dtype, np.integer)` is the flag `isInteger`.
- `np.isscalar`: `reps` is a `Reps` value that is either one count or a sequence of counts. NumPy scalars and other iterables are not distinguished.
- NumPy's views, memory layout flags and dtype promotion are left out. Arrays are values in row-major order, and `Repeat` copies each pass's result into a fresh array, as `np.concatenate` returns one.
