# Histogram1D: a verified model

The histogram package keeps a grid of one-dimensional histograms that share one set of
bin edges. A `Histogram1D` holds three unsigned count arrays:

- `data`, shaped `data_shape + (n_bins,)`;
- `underflow` and `overflow`, shaped `data_shape`.

`data_shape` is the grid of cells and has at most two axes. The object also holds sorted
`bins`: there are `n_bins + 1` edges. This project models the core of
`histogram/histogram.py`:

- the constructor;
- `reset`, `is_empty`, `_is_compatible`, `__add__`, `__eq__`, `__ne__`, `combine`;
- the per-cell statistics `mode`, `min` and `max`;
- the argument checks that `fill` makes before it calls its binning kernel;
- the index normaliser `_convert_item` that backs `__getitem__`.

Modules:

- `Wrappers` (`wrappers.dfy`): `Option` and `Result`.
- `Sorting` (`sorting.dfy`): `np.sort` on the edges, as a sorting function with sortedness and permutation proved.
- `Sums` (`sums.dfy`): flat count buffers and their sums. It covers source-order sums, chunking into cells, summing one axis of a C-order array, and reduction modulo the width of the element type.
- `Selectors` (`selectors.dfy`): `_convert_item`.
  - `Resolve` is its specification.
  - `ConvertItem` is the two-loop method, proved equal to it.
- `Histograms` (`histograms.dfy`): the histogram as a value.
  - Arrays are flat C-order sequences; cells are row-major and bins are the fastest axis.
  - Also here: the dtype, the operations returning `Result` for every exception they raise, and their algebra.
- `Statistics` (`statistics.dfy`): `mode`, `min`, `max` per cell. A statistic is `NaN`, `Masked` (an unoccupied cell) or a bin edge.
- `HistogramClass` (`histogram_class.dfy`): the mutable `Histogram1D` object.
  - The three count arrays are `array<nat>` fields that `Reset` zeroes in place.
  - A flag records when `underflow` and `overflow` are numpy scalars, as `+` and `combine` leave them for the cell shape `()`. `ResetAsWritten` models `reset` as it stands, which cannot zero such scalars (see "## Findings").
  - `Plus` and `Combined` return fresh objects.
  - `Value()` reads the object as a `Histograms.Histogram`, and every method is stated through it.

Counts are natural numbers, reduced explicitly modulo 2^32 or 2^64 where numpy's fixed-width arithmetic wraps:

- `__add__` keeps `uint32`, or promotes to `uint64` when either operand is `uint64`, and wraps.
- `combine` sums with `np.sum`, which on 64-bit Linux and macOS accumulates unsigned 32-bit arrays in `uint64`. The result is therefore `uint64`, reduced modulo 2^64.

Edges are `real`. Calls into the C kernel, files, plotting and the clock are not modelled.

## Model

| member | source | states |
|---|---|---|
| Sorting.Sort | histogram/histogram.py:41 | the edges after `np.sort` are sorted, a permutation of the input, and of the same length |
| Sorting.SortSorted | histogram/histogram.py:41 | sorting edges that are already sorted changes nothing, so rebuilding a histogram from its own `bins` keeps them |
| Sums.SumZeroIff | histogram/histogram.py:250-258 | the total is zero exactly when every count is zero |
| Sums.SumAxis | histogram/histogram.py:237-239 | summing the middle axis of a C-order `(outer, len, inner)` array leaves `outer * inner` entries, the shape without that axis |
| Sums.SumAxisAt | histogram/histogram.py:237-239 | entry `(o, i)` of the axis sum is the sum of the `len` entries `(o, j, i)` of the input |
| Sums.SumAxisTotal | histogram/histogram.py:237-239 | summing one axis of a C-order array keeps the grand total |
| Sums.SumVecsAt | histogram/histogram.py:237 | after summing the cells, entry `j` is the sum of column `j` over all cells |
| Sums.SumAddVec | histogram/histogram.py:78-80 | the total of an element-wise sum is the sum of the totals |
| Sums.WrapBelowTotal | histogram/histogram.py:78-80 | reduction modulo m changes nothing while the total is below m |
| Sums.WrapSumAxisTotal | histogram/histogram.py:237-239 | a summed and reduced axis keeps the total while the total is below the modulus |
| Selectors.Resolve | histogram/histogram.py:427-483 | a non-iterable item raises TypeError; an accepted item yields one slice per axis and a shape shorter than `shape` |
| Selectors.ConvertItem | histogram/histogram.py:427-483 | the validation loop and the construction loop produce exactly `Resolve(item, shape)` |
| Selectors.ResolveErrors | histogram/histogram.py:432-456 | an item is accepted if and only if it is an integer or iterable and every entry passes its check; a rejected iterable item reports the error of its first failing entry |
| Selectors.ResolveAxes | histogram/histogram.py:458-481 | an accepted item yields one slice per axis: an integer becomes `slice(n, n+1, 1)`, `None` and open slices become `slice(None)`, bounded slices stay, and missing axes are taken whole |
| Selectors.ResolveIntInRange | histogram/histogram.py:445-447 | every integer in an accepted item lies in `[0, shape[i])` |
| Selectors.ResolveIntOutOfRange | histogram/histogram.py:445-454 | an integer outside its axis raises IndexError for that axis, once the earlier entries pass |
| Selectors.ResolveDataShape | histogram/histogram.py:458-483 | the returned shape is the sizes of the whole axes among the item's entries, followed by all trailing axes, with the last element dropped; entries past the last axis take no part |
| Selectors.ResolveLongItem | histogram/histogram.py:435-483 | item `(0, slice(None), None)` on shape `(3, 4)` is accepted; its extra `None` is ignored |
| Selectors.ResolveCellShape | histogram/histogram.py:466-483 | when the bin axis is taken whole, the returned shape is exactly the sizes of the whole cell axes |
| Selectors.ResolveEmptyTuple | histogram/histogram.py:458-483 | the empty item selects every axis whole and returns `shape[:-1]` |
| Selectors.NoneIsOpenSlice | histogram/histogram.py:448-476 | a `None` entry behaves exactly like `slice(None)`: it is not checked, it takes the axis whole and inserts no new axis |
| Selectors.ScalarIsIntTuple | histogram/histogram.py:432-433 | a bare integer item behaves like the one-entry tuple holding that integer |
| Selectors.ResolveCongruent | histogram/histogram.py:435-481 | items whose entries pass or fail alike and keep the same axes whole resolve alike |
| Selectors.ResolveOneOfThree | histogram/histogram.py:427-483 | item `(1,)` on shape `(3, 4)` gives `(slice(1, 2, 1), slice(None))` and the shape `()` |
| Selectors.ResolveFiveOfThree | histogram/histogram.py:445-456 | item `(5,)` on shape `(3, 4)` raises IndexError for axis 0 of size 3 |
| Selectors.ResolveBoundedBinAxis | histogram/histogram.py:466-483 | a bounded slice on the bin axis makes the function drop the size of the last cell axis instead |
| Histograms.IsEmpty | histogram/histogram.py:248-258 | a histogram is empty exactly when all its counts are zero |
| Histograms.Init | histogram/histogram.py:30-45 | a new histogram is well formed and empty. It has the requested cell shape, one bin fewer than there are edges, sorted edges that permute the input, all three arrays zero, and a `uint32` dtype |
| Histograms.Construct | histogram/histogram.py:30-45 | construction fails exactly when there are more than two cell axes (checked first) or no edge; otherwise it gives a well-formed empty histogram of the requested cell shape |
| Histograms.Promote | histogram/histogram.py:78-80 | the element type of a sum is the wider of the two operands' types |
| Histograms.Compatible | histogram/histogram.py:104-111 | two histograms are compatible exactly when their cell shapes and their edges are equal; different cell shapes or bin counts raise the shape error, equal shapes with different edges the assertion |
| Histograms.Add | histogram/histogram.py:72-82 | the sum fails exactly when `_is_compatible` fails, with its error. Otherwise the result is well formed with the operands' shape and edges and the promoted dtype; every count, underflow and overflow is the operands' sum modulo the width |
| Histograms.AddCommutes | histogram/histogram.py:72-82 | addition is commutative |
| Histograms.AddEmpty | histogram/histogram.py:72-82 | adding a fresh histogram with the same edges and cell shape gives back the original |
| Histograms.AddTotals | histogram/histogram.py:78-80 | the totals of the sum are the sums of the totals while they stay below the modulus |
| Histograms.AddSelfDoubles | histogram/histogram.py:78 | `h + h` doubles every count while the doubled total stays below the modulus |
| Histograms.Equal | histogram/histogram.py:84-98 | a non-histogram operand raises TypeError; otherwise `==` raises exactly when `_is_compatible` does |
| Histograms.EqualIff | histogram/histogram.py:84-98 | `==` raises nothing exactly for equal shapes and edges, and is true exactly when the two agree in everything but dtype |
| Histograms.EqualReflexive | histogram/histogram.py:84-102 | every histogram is `==` to itself and not `!=` |
| Histograms.NotEqual | histogram/histogram.py:100-102 | `!=` is the negation of `==` and raises what `==` raises |
| Histograms.Combine | histogram/histogram.py:235-246 | combining fails with AxisError exactly when the axis is not a cell axis; otherwise the result is well formed with the same edges, the `uint64` dtype, and the cell shape without that axis (its values: `CombineDataAt`, `CombineFlowsAt`) |
| Histograms.CombineTotals | histogram/histogram.py:235-246 | combining keeps the total count, underflow and overflow while each stays below 2^64 |
| Histograms.CombineDataAt | histogram/histogram.py:237 | each count of the combined histogram, at flat position `(o, i)` of the remaining axes, is the sum modulo 2^64 of the counts at `(o, j, i)` over the combined axis `j` |
| Histograms.CombineFlowsAt | histogram/histogram.py:238-239 | each underflow and overflow of the combined histogram is the sum modulo 2^64 of those along the combined axis |
| Histograms.CombineVector | histogram/histogram.py:237 | combining a one-axis grid leaves one cell; its count in bin `b` is the sum over all cells of their counts in bin `b`, modulo 2^64 |
| Histograms.Cleared | histogram/histogram.py:136-140 | the intended result of `reset`: same shape, edges and dtype, all three arrays zero, empty and `==` to a freshly built histogram |
| Histograms.ClearedAsWritten | histogram/histogram.py:136-140 | the result of `reset` as written: empty, with shape, edges and dtype kept; scalar underflow and overflow keep their values, array ones become zero |
| Histograms.ClearedAsWrittenIsFresh | histogram/histogram.py:136-140 | after `reset` as written a histogram is `==` to a fresh one exactly when its underflow and overflow are arrays or already zero |
| Histograms.ResetScalarFlowsDiffer | histogram/histogram.py:72-82 | for a `()`-grid histogram `a` with underflow 1, `a + a` has underflow 2, and after `reset` as written it is still not `==` to a fresh histogram |
| Histograms.FillWholeGrid | histogram/histogram.py:120-125 | `fill` without indices accepts the samples exactly when their leading axes equal the cell shape |
| Histograms.FillOneRow | histogram/histogram.py:122-125 | `fill` at a valid first-axis index accepts the samples exactly when their leading axes equal the remaining cell axes |
| Histograms.FillCheck | histogram/histogram.py:120-125 | an index that is neither an integer nor `()`, or an integer at or past the first axis size, fails `fill`'s assertions; an accepted integer index lies in `[-size, size)` |
| Statistics.ArgMax | histogram/histogram.py:201 | `np.argmax` returns the first position of the maximum count |
| Statistics.MaskedMin | histogram/histogram.py:213-216 | the masked minimum is absent exactly for an unoccupied cell; otherwise it is an occupied bin's left edge and at most every other occupied bin's left edge |
| Statistics.MaskedMax | histogram/histogram.py:228-231 | the masked maximum is absent exactly for an unoccupied cell; otherwise it is an occupied bin's left edge and at least every other occupied bin's left edge |
| Statistics.LowestOccupiedEdge | histogram/histogram.py:213-216 | with sorted edges the masked minimum is the left edge of the lowest occupied bin |
| Statistics.HighestOccupiedEdge | histogram/histogram.py:228-231 | with sorted edges the masked maximum is the left edge of the highest occupied bin |
| Statistics.CellMin | histogram/histogram.py:213-216 | a cell's minimum is masked exactly when the cell is unoccupied; otherwise it is the left edge of its lowest occupied bin |
| Statistics.CellMax | histogram/histogram.py:228-231 | a cell's maximum is masked exactly when the cell is unoccupied; otherwise it is the left edge of its highest occupied bin |
| Statistics.CellMode | histogram/histogram.py:201 | a cell's mode is the left edge of its first fullest bin |
| Statistics.Mode | histogram/histogram.py:192-203 | there is one mode per cell: NaN everywhere for an empty histogram, otherwise the left edge of the cell's first fullest bin |
| Statistics.Min | histogram/histogram.py:205-218 | there is one minimum per cell: NaN everywhere for an empty histogram, otherwise masked for an unoccupied cell and the lowest occupied bin's left edge for the others |
| Statistics.Max | histogram/histogram.py:220-233 | there is one maximum per cell: NaN everywhere for an empty histogram, otherwise masked for an unoccupied cell and the highest occupied bin's left edge for the others |
| Statistics.EmptyCellStatistics | histogram/histogram.py:192-233 | in a non-empty histogram an unoccupied cell has mode `bins[0]` while its minimum and maximum are masked |
| Statistics.SingleBinStatistics | histogram/histogram.py:192-233 | a cell with a single occupied bin `k` has mode, minimum and maximum all equal to `bins[k]` |
| Statistics.OrderedStatistics | histogram/histogram.py:192-233 | in an occupied cell, minimum ≤ mode ≤ maximum |
| Statistics.FreshStatistics | histogram/histogram.py:30-45 | every statistic of a freshly constructed histogram is NaN |
| HistogramClass.Histogram1D.constructor | histogram/histogram.py:30-45 | the new object is valid, owns three fresh arrays and holds `Init(edges, data_shape)` |
| HistogramClass.Histogram1D.Create | histogram/histogram.py:30-45 | constructing fails with the error of `Construct`, or yields a fresh valid object holding its value |
| HistogramClass.Histogram1D.Reset | histogram/histogram.py:136-140 | `reset` as intended: zeroes the three arrays in place, keeping shape, edges and dtype; the object stays valid, holds `Cleared` of its old value, is empty and is `==` to a freshly constructed one |
| HistogramClass.Histogram1D.ResetAsWritten | histogram/histogram.py:136-140 | `reset` as written: zeroes `data` in place, and `underflow` and `overflow` only when they are arrays; the object holds `ClearedAsWritten` of its old value |
| HistogramClass.Histogram1D.Plus | histogram/histogram.py:72-82 | leaves both operands unchanged, and fails as `Add` fails or returns a fresh valid object holding `Add` of the two values, whose underflow and overflow are scalars exactly for the cell shape `()` |
| HistogramClass.Histogram1D.Combined | histogram/histogram.py:235-246 | leaves the object unchanged, and fails exactly for a non-cell axis or returns a fresh valid object holding `Combine` of its value, whose underflow and overflow are scalars exactly when a one-axis grid was combined |
| HistogramClass.Histogram1D.SetCounts | histogram/histogram.py:78-80 | installs fresh arrays holding the given counts and their dtype, and records that underflow and overflow are scalars exactly for the cell shape `()`; the object is valid and holds exactly the given value |
| HistogramClass.ZeroOut | histogram/histogram.py:138-140 | `fill(0)` leaves every element of the buffer zero |

## Left out

- The binning kernel that `fill` calls (the C library behind `histogram`) is not part of this model. Only `fill`'s argument checks are modelled; the counts it adds are not.
- `__getitem__` itself (numpy fancy indexing and `np.squeeze`): only the normaliser `_convert_item` behind it is modelled.
- `mean`, `std`, `errors` and `bin_centers` use floating point. They are not modelled.
- `draw`, `save_figures`, `save`, `load` and `_write_info` do file I/O and plotting. They are not modelled.
- Edges are `real`: the conversion of `bins` to `float32`, rounding, and NaN edges are not modelled.
- The `n_0` and `n_1` attributes feed only the C kernel. They are not modelled.
- `self.shape` and `self.size` are not stored; `Histograms.DataShape` and the array lengths give them.
- The `index` argument of `mode`, `min` and `max` is not modelled: the statistics are given for every cell, which is what the default `[...]` selects with numpy before 1.23, and selecting from them is numpy indexing. From numpy 1.23 on, a list index is no longer read as a tuple, so the default raises IndexError; that is not modelled.
- Histograms.Combine: the axis is a `nat`. numpy's negative axes resolve against different ranks for `data` and for `underflow`/`overflow`, and are not modelled.
- Histograms.Construct: a negative `data_shape` entry (numpy's negative-dimension ValueError) cannot be expressed, because cell sizes are `nat`.
- Histograms.Add: an operand that is not a histogram (Python raises AttributeError) is not modelled, because the operands are typed.
- Histograms.IsEmpty: `np.sum` of the counts is taken as an exact sum. A `uint64` total that wraps to 0 would make the source report a non-empty histogram as empty.
- Selectors.ConvertItem: an entry inside a tuple that is neither an integer, a slice nor `None` (the source then reuses or lacks `is_valid_index`) is not modelled. Python's `bool`-is-`int` is not modelled either, nor iterable items other than tuples (a list or a string).
- Histograms.FillCheck: the conversion of the samples to `float32` and the C-contiguity check of the kernel's argument types are not modelled; `FillIndex.OtherIndex` stands for every index value that is neither an integer nor `()`.

## Findings

| source | as written | input that shows it | evidently intended | confidence | as-written member | corrected member |
|---|---|---|---|---|---|---|
| histogram/histogram.py:136-140 | `reset` calls `fill(0)` on `underflow` and `overflow`. When the cell shape is `()`, `+` (79-80) and `combine` of a one-axis grid (238-239) store numpy scalars there, and a scalar's `fill` acts on a temporary copy | `h = a + a` for a histogram `a` of cell shape `()` with underflow 1, then `h.reset()`: the underflow stays 2 and `h` is not `==` to a fresh histogram | `reset` zeroes all three counters, whatever their form | not executed; rests on numpy returning scalars for 0-d results | HistogramClass.Histogram1D.ResetAsWritten | HistogramClass.Histogram1D.Reset |

`Histograms.ResetScalarFlowsDiffer` exhibits the input, and `Histograms.ClearedAsWrittenIsFresh` states exactly when the two resets differ. `Histograms.Cleared` is the corrected result, which the rest of the model uses.

## Behaviours a reader might expect that the code does not have

- Item `(1,)` on a `(3, 4)` count array: `_convert_item` returns the cell shape `()` (`Selectors.ResolveOneOfThree`). The last recorded size is dropped, and that size, the bin axis, is the only one recorded. The `(4,)` of the selected count array is the cell shape plus the bin axis.
- A `None` entry does not insert a new axis. It is treated as `slice(None)` (`Selectors.NoneIsOpenSlice`).
- The size that `_convert_item` drops is the last whole axis, which is the bin axis only when the bin axis is taken whole (`Selectors.ResolveBoundedBinAxis`).
- Incompatible operands raise ValueError for different shapes and AssertionError for different edges. `__eq__` raises TypeError for a non-histogram. There is no dedicated incompatibility exception.
- In a non-empty histogram the mode of an unoccupied cell is `bins[0]`, because `np.argmax` of all zeros is 0. Its minimum and maximum are masked values, not NaN (`Statistics.EmptyCellStatistics`).
