/**
 * The contents of a `Histogram1D` as a value, and the operations of the class that
 * read it and return new values: the empty histogram built by the constructor,
 * `_is_compatible`, `__add__`, `__eq__`, `__ne__`, `combine`, `is_empty` and the
 * argument checks that `fill` makes before calling its C kernel.
 *
 * Every array is kept as numpy keeps it, a flat buffer in C order: `data` has shape
 * cellShape + [nBins], `underflow` and `overflow` have shape cellShape.
 */
module Histograms {
  import opened Wrappers
  import opened Sorting
  import opened Sums
  import Selectors

  /** The unsigned element type of the count arrays. */
  datatype Dtype = UInt32 | UInt64

  function Modulus(d: Dtype): nat
  {
    match d
    case UInt32 => 0x1_0000_0000
    case UInt64 => 0x1_0000_0000_0000_0000
  }

  /** The element type numpy gives the sum of two unsigned arrays. */
  function Promote(a: Dtype, b: Dtype): (r: Dtype)
    ensures r == a || r == b
    ensures Modulus(a) <= Modulus(r) && Modulus(b) <= Modulus(r)
  {
    match (a, b)
    case (UInt32, UInt32) => UInt32
    case _ => UInt64
  }

  datatype Histogram = Histogram(
    cellShape: seq<nat>,
    bins: seq<real>,
    data: seq<nat>,
    underflow: seq<nat>,
    overflow: seq<nat>,
    dtype: Dtype)

  /** The operand of `==`: a histogram, or any other Python object. */
  datatype Operand = HistogramOperand(h: Histogram) | NotAHistogram

  /** Which cells `fill` is asked to fill: `()`, an integer, or anything else. */
  datatype FillIndex = WholeGrid | AtCell(i: int) | OtherIndex

  /** The exceptions the modelled operations raise. */
  datatype HistError =
      /** `__eq__` with an operand that is not a Histogram1D. */
    | TypeError
      /** The ValueError of `_is_compatible`: the count arrays have different shapes. */
    | ShapeMismatch(left: seq<nat>, right: seq<nat>)
      /** The failed assertion of `_is_compatible`: the bin edges differ. */
    | BinsDiffer
      /** numpy's AxisError: `combine` sums an axis the underflow and overflow arrays lack. */
    | AxisError(axis: nat)
      /** The failed assertion of the constructor: more than two cell axes. */
    | RankTooLarge(rank: nat)
      /** numpy's ValueError for the negative bin count of an empty edge array. */
    | NoEdges
      /** Failed assertion of `fill`: the indices are neither an integer nor `()`. */
    | IndicesNotIntOrEmpty
      /** Failed assertion of `fill`: the integer index is not below the first axis size. */
    | IndexTooLarge(index: int, dim: nat)
      /** numpy's IndexError: a negative index below minus the first axis size. */
    | IndexOutOfBounds(index: int, dim: nat)
      /** Failed assertion of `fill`: the samples' leading axes do not match the selected cells. */
    | PointsShapeMismatch(points: seq<nat>, expected: seq<nat>)

  function Prod(s: seq<nat>): nat
  {
    if s == [] then 1 else s[0] * Prod(s[1..])
  }

  function NumCells(h: Histogram): nat
  {
    Prod(h.cellShape)
  }

  function NBins(h: Histogram): nat
    requires |h.bins| >= 1
  {
    |h.bins| - 1
  }

  /** `self.shape`: the shape of the count array, the bin axis last. */
  function DataShape(h: Histogram): seq<nat>
    requires |h.bins| >= 1
  {
    h.cellShape + [NBins(h)]
  }

  /** The invariant every histogram the class builds satisfies. */
  predicate WellFormed(h: Histogram)
  {
    |h.bins| >= 1 && Sorted(h.bins) && |h.cellShape| <= 2 &&
    |h.data| == NumCells(h) * NBins(h) &&
    |h.underflow| == NumCells(h) && |h.overflow| == NumCells(h) &&
    AllBelow(h.data, Modulus(h.dtype)) &&
    AllBelow(h.underflow, Modulus(h.dtype)) &&
    AllBelow(h.overflow, Modulus(h.dtype))
  }

  /** The count vectors of the cells, in row-major cell order. */
  function Cells(h: Histogram): (r: seq<seq<nat>>)
    requires WellFormed(h)
    ensures |r| == NumCells(h)
    ensures forall c :: 0 <= c < |r| ==> |r[c]| == NBins(h)
  {
    Chunk(h.data, NumCells(h), NBins(h))
  }

  /** `is_empty`: no count in any bin of any cell; underflow and overflow are not consulted. */
  function IsEmpty(h: Histogram): (r: bool)
    ensures r <==> AllZero(h.data)
  {
    SumZeroIff(h.data);
    !(Sum(h.data) > 0)
  }

  /** The constructor: zero counts of uint32, sorted edges. */
  function Init(edges: seq<real>, cellShape: seq<nat>): (h: Histogram)
    requires |edges| >= 1 && |cellShape| <= 2
    ensures WellFormed(h) && IsEmpty(h)
    ensures h.cellShape == cellShape && NBins(h) == |edges| - 1
    ensures Sorted(h.bins) && multiset(h.bins) == multiset(edges)
    ensures AllZero(h.data) && AllZero(h.underflow) && AllZero(h.overflow)
    ensures h.dtype == UInt32
  {
    var n := Prod(cellShape);
    var bins := Sort(edges);
    var nb: nat := |bins| - 1;
    var size := n * nb;
    assert size >= 0 by { MulNonNegative(n, nb); }
    var h := Histogram(cellShape, bins, Zeros(size), Zeros(n), Zeros(n), UInt32);
    assert AllZero(h.data) && AllZero(h.underflow) && AllZero(h.overflow);
    assert WellFormed(h);
    h
  }

  /** The constructor with its failures: more than two cell axes, or no edge at all. */
  function Construct(edges: seq<real>, cellShape: seq<nat>): (r: Result<Histogram, HistError>)
    ensures r.Err? <==> |cellShape| > 2 || |edges| == 0
    ensures |cellShape| > 2 ==> r == Err(RankTooLarge(|cellShape|))
    ensures r.Ok? ==> WellFormed(r.value) && IsEmpty(r.value) && r.value.cellShape == cellShape
  {
    if |cellShape| > 2 then Err(RankTooLarge(|cellShape|))
    else if |edges| == 0 then Err(NoEdges)
    else Ok(Init(edges, cellShape))
  }

  /** `_is_compatible`: the count arrays have the same shape and the edges agree. */
  function Compatible(a: Histogram, b: Histogram): (r: Result<(), HistError>)
    requires WellFormed(a) && WellFormed(b)
    ensures r.Ok? <==> a.cellShape == b.cellShape && a.bins == b.bins
    ensures (a.cellShape != b.cellShape || |a.bins| != |b.bins|) ==> r.Err? && r.error.ShapeMismatch?
    ensures a.cellShape == b.cellShape && |a.bins| == |b.bins| && a.bins != b.bins ==> r == Err(BinsDiffer)
  {
    assert DataShape(a) == DataShape(b) ==>
      a.cellShape == DataShape(a)[..|a.cellShape|] && b.cellShape == DataShape(b)[..|b.cellShape|];
    if DataShape(a) != DataShape(b) then Err(ShapeMismatch(DataShape(a), DataShape(b)))
    else if a.bins != b.bins then Err(BinsDiffer)
    else Ok(())
  }

  /** `__add__`: element-wise sums of the three arrays, in numpy's unsigned arithmetic. */
  function Add(a: Histogram, b: Histogram): (r: Result<Histogram, HistError>)
    requires WellFormed(a) && WellFormed(b)
    ensures r.Err? <==> Compatible(a, b).Err?
    ensures r.Err? ==> r.error == Compatible(a, b).error
    ensures r.Ok? ==> (WellFormed(r.value) && r.value.cellShape == a.cellShape &&
                       r.value.bins == a.bins && r.value.dtype == Promote(a.dtype, b.dtype))
    ensures r.Ok? ==> a.cellShape == b.cellShape && a.bins == b.bins
    ensures r.Ok? ==> forall i :: 0 <= i < |a.data| ==>
              r.value.data[i] == (a.data[i] + b.data[i]) % Modulus(r.value.dtype)
    ensures r.Ok? ==> forall c :: 0 <= c < NumCells(a) ==>
              r.value.underflow[c] == (a.underflow[c] + b.underflow[c]) % Modulus(r.value.dtype) &&
              r.value.overflow[c] == (a.overflow[c] + b.overflow[c]) % Modulus(r.value.dtype)
  {
    var c := Compatible(a, b);
    if c.Err? then Err(c.error)
    else
      var d := Promote(a.dtype, b.dtype);
      var m := Modulus(d);
      var h := Histogram(a.cellShape, a.bins,
                         Wrap(AddVec(a.data, b.data), m),
                         Wrap(AddVec(a.underflow, b.underflow), m),
                         Wrap(AddVec(a.overflow, b.overflow), m),
                         d);
      assert WellFormed(h);
      assert forall i :: 0 <= i < |a.data| ==> h.data[i] == (a.data[i] + b.data[i]) % m;
      assert forall c :: 0 <= c < NumCells(a) ==> h.underflow[c] == (a.underflow[c] + b.underflow[c]) % m;
      assert forall c :: 0 <= c < NumCells(a) ==> h.overflow[c] == (a.overflow[c] + b.overflow[c]) % m;
      Ok(h)
  }

  /** `__eq__`: incomparable operands raise; otherwise all arrays and the edges are compared. */
  function Equal(a: Histogram, other: Operand): (r: Result<bool, HistError>)
    requires WellFormed(a)
    requires other.HistogramOperand? ==> WellFormed(other.h)
    ensures other.NotAHistogram? ==> r == Err(TypeError)
    ensures other.HistogramOperand? ==> (r.Err? <==> Compatible(a, other.h).Err?)
  {
    match other
    case NotAHistogram => Err(TypeError)
    case HistogramOperand(b) =>
      var c := Compatible(a, b);
      if c.Err? then Err(c.error)
      else Ok(a.data == b.data && a.overflow == b.overflow && a.underflow == b.underflow && a.bins == b.bins)
  }

  /** `__ne__`: the negation of `__eq__`, raising what it raises. */
  function NotEqual(a: Histogram, other: Operand): (r: Result<bool, HistError>)
    requires WellFormed(a)
    requires other.HistogramOperand? ==> WellFormed(other.h)
    ensures r.Ok? <==> Equal(a, other).Ok?
    ensures r.Ok? ==> r.value == !Equal(a, other).value
    ensures r.Err? ==> r.error == Equal(a, other).error
  {
    var e := Equal(a, other);
    if e.Err? then Err(e.error) else Ok(!e.value)
  }

  /**
   * `combine(axis)`: sums the three arrays over cell axis `axis`. numpy's `sum`
   * accumulates uint32 and uint64 counts in uint64, so the result is uint64.
   */
  function Combine(h: Histogram, axis: nat): (r: Result<Histogram, HistError>)
    requires WellFormed(h)
    ensures r.Err? <==> axis >= |h.cellShape|
    ensures r.Err? ==> r.error == AxisError(axis)
    ensures r.Ok? ==> (WellFormed(r.value) && r.value.bins == h.bins && r.value.dtype == UInt64 &&
                       r.value.cellShape == h.cellShape[..axis] + h.cellShape[axis + 1..])
  {
    if axis >= |h.cellShape| then Err(AxisError(axis))
    else
      var s := h.cellShape;
      var outer, len, inner := Prod(s[..axis]), s[axis], Prod(s[axis + 1..]);
      var nb := NBins(h);
      ProdSplit(s, axis);
      ProdConcat(s[..axis], s[axis + 1..]);
      MulAssoc(outer, len * inner, nb);
      MulAssoc(len, inner, nb);
      MulAssoc(outer, inner, nb);
      assert |h.data| == outer * (len * (inner * nb));
      var m := Modulus(UInt64);
      Ok(Histogram(s[..axis] + s[axis + 1..], h.bins,
                   Wrap(SumAxis(h.data, outer, len, inner * nb), m),
                   Wrap(SumAxis(h.underflow, outer, len, inner), m),
                   Wrap(SumAxis(h.overflow, outer, len, inner), m),
                   UInt64))
  }

  /**
   * What `reset` is meant to leave: the same histogram with zero counts, underflow
   * and overflow, `==` to a freshly built one with the same edges and cells.
   */
  function Cleared(h: Histogram): (r: Histogram)
    requires WellFormed(h)
    ensures WellFormed(r) && IsEmpty(r)
    ensures r.cellShape == h.cellShape && r.bins == h.bins && r.dtype == h.dtype
    ensures |r.data| == |h.data| && |r.underflow| == |h.underflow| && |r.overflow| == |h.overflow|
    ensures AllZero(r.data) && AllZero(r.underflow) && AllZero(r.overflow)
    ensures Equal(r, HistogramOperand(Init(h.bins, h.cellShape))) == Ok(true)
  {
    var r := h.(data := Zeros(|h.data|), underflow := Zeros(|h.underflow|), overflow := Zeros(|h.overflow|));
    SortSorted(h.bins);
    EqualIff(r, Init(h.bins, h.cellShape));
    r
  }

  /**
   * What `reset` leaves as written. `fill(0)` zeroes the counts; when the underflow
   * and overflow are numpy scalars (`scalarFlows`), which is how `+` and `combine`
   * leave them for a cell shape `()`, it acts on a temporary copy and they keep
   * their values.
   */
  function ClearedAsWritten(h: Histogram, scalarFlows: bool): (r: Histogram)
    requires WellFormed(h)
    ensures WellFormed(r) && IsEmpty(r)
    ensures r.cellShape == h.cellShape && r.bins == h.bins && r.dtype == h.dtype && |r.data| == |h.data|
    ensures scalarFlows ==> r.underflow == h.underflow && r.overflow == h.overflow
    ensures !scalarFlows ==> AllZero(r.underflow) && AllZero(r.overflow)
  {
    if scalarFlows then h.(data := Zeros(|h.data|)) else Cleared(h)
  }

  /**
   * The assertions `fill` makes before it calls the kernel: `indices` is an integer
   * or `()`; an integer is below the first axis of the count array and (numpy's own
   * check) not below minus that size; the samples' leading axes equal those of the
   * selected part of the count array, bin axis excluded.
   */
  function FillCheck(h: Histogram, pointsShape: seq<nat>, indices: FillIndex): (r: Result<(), HistError>)
    requires WellFormed(h)
    ensures indices.OtherIndex? ==> r == Err(IndicesNotIntOrEmpty)
    ensures indices.AtCell? && indices.i >= DataShape(h)[0] ==> r == Err(IndexTooLarge(indices.i, DataShape(h)[0]))
    ensures r.Ok? && indices.AtCell? ==> -(DataShape(h)[0] as int) <= indices.i < DataShape(h)[0]
  {
    var ds := DataShape(h);
    match indices
    case OtherIndex => Err(IndicesNotIntOrEmpty)
    case WholeGrid =>
      if Selectors.DropLast(pointsShape) == Selectors.DropLast(ds) then Ok(())
      else Err(PointsShapeMismatch(pointsShape, ds))
    case AtCell(i) =>
      if !(i < ds[0]) then Err(IndexTooLarge(i, ds[0]))
      else if i < -(ds[0] as int) then Err(IndexOutOfBounds(i, ds[0]))
      else if Selectors.DropLast(pointsShape) == Selectors.DropLast(ds[1..]) then Ok(())
      else Err(PointsShapeMismatch(pointsShape, ds[1..]))
  }

  // ---------------------------------------------------------------- lemmas

  lemma {:induction false} ProdConcat(a: seq<nat>, b: seq<nat>)
    ensures Prod(a + b) == Prod(a) * Prod(b)
  {
    if a == [] {
      assert a + b == b;
    } else {
      assert (a + b)[1..] == a[1..] + b;
      ProdConcat(a[1..], b);
    }
  }

  lemma ProdSplit(s: seq<nat>, k: nat)
    requires k < |s|
    ensures Prod(s) == Prod(s[..k]) * (s[k] * Prod(s[k + 1..]))
  {
    assert s == s[..k] + s[k..];
    ProdConcat(s[..k], s[k..]);
    assert s[k..][1..] == s[k + 1..];
  }

  /** Addition is commutative. */
  lemma AddCommutes(a: Histogram, b: Histogram)
    requires WellFormed(a) && WellFormed(b) && Add(a, b).Ok?
    ensures Add(b, a) == Add(a, b)
  {
    assert AddVec(a.data, b.data) == AddVec(b.data, a.data);
    assert AddVec(a.underflow, b.underflow) == AddVec(b.underflow, a.underflow);
    assert AddVec(a.overflow, b.overflow) == AddVec(b.overflow, a.overflow);
  }

  /** Adding the freshly built histogram with the same edges and cells changes nothing. */
  lemma AddEmpty(h: Histogram)
    requires WellFormed(h)
    ensures Add(h, Init(h.bins, h.cellShape)) == Ok(h)
  {
    var z := Init(h.bins, h.cellShape);
    SortSorted(h.bins);
    var m := Modulus(h.dtype);
    assert Promote(h.dtype, z.dtype) == h.dtype;
    WrapAddZero(h.data, z.data, m);
    WrapAddZero(h.underflow, z.underflow, m);
    WrapAddZero(h.overflow, z.overflow, m);
  }

  /** Totals add up, array by array, as long as they stay below the element type's modulus. */
  lemma AddTotals(a: Histogram, b: Histogram)
    requires WellFormed(a) && WellFormed(b) && Add(a, b).Ok?
    ensures var r := Add(a, b).value; var m := Modulus(r.dtype);
      (Sum(a.data) + Sum(b.data) < m ==> Sum(r.data) == Sum(a.data) + Sum(b.data)) &&
      (Sum(a.underflow) + Sum(b.underflow) < m ==> Sum(r.underflow) == Sum(a.underflow) + Sum(b.underflow)) &&
      (Sum(a.overflow) + Sum(b.overflow) < m ==> Sum(r.overflow) == Sum(a.overflow) + Sum(b.overflow))
  {
    var m := Modulus(Promote(a.dtype, b.dtype));
    SumAddVec(a.data, b.data);
    SumAddVec(a.underflow, b.underflow);
    SumAddVec(a.overflow, b.overflow);
    if Sum(a.data) + Sum(b.data) < m {
      WrapBelowTotal(AddVec(a.data, b.data), m);
    }
    if Sum(a.underflow) + Sum(b.underflow) < m {
      WrapBelowTotal(AddVec(a.underflow, b.underflow), m);
    }
    if Sum(a.overflow) + Sum(b.overflow) < m {
      WrapBelowTotal(AddVec(a.overflow, b.overflow), m);
    }
  }

  /** `h + h` doubles every count unless the total reaches the modulus. */
  lemma AddSelfDoubles(h: Histogram)
    requires WellFormed(h)
    ensures Add(h, h).Ok?
    ensures 2 * Sum(h.data) < Modulus(h.dtype) ==>
              forall i :: 0 <= i < |h.data| ==> Add(h, h).value.data[i] == 2 * h.data[i]
  {
    if 2 * Sum(h.data) < Modulus(h.dtype) {
      SumAddVec(h.data, h.data);
      WrapBelowTotal(AddVec(h.data, h.data), Modulus(h.dtype));
    }
  }

  /**
   * For comparable histograms `==` holds exactly when the two agree in everything
   * but the element type of their arrays.
   */
  lemma EqualIff(a: Histogram, b: Histogram)
    requires WellFormed(a) && WellFormed(b)
    ensures Equal(a, HistogramOperand(b)).Ok? <==> a.cellShape == b.cellShape && a.bins == b.bins
    ensures Equal(a, HistogramOperand(b)) == Ok(true) <==> a.(dtype := b.dtype) == b
  {
  }

  /**
   * Resetting as written leaves a histogram `==` to a fresh one exactly when its
   * underflow and overflow are arrays, or already zero.
   */
  lemma ClearedAsWrittenIsFresh(h: Histogram, scalarFlows: bool)
    requires WellFormed(h)
    ensures Equal(ClearedAsWritten(h, scalarFlows), HistogramOperand(Init(h.bins, h.cellShape))) == Ok(true) <==>
              !scalarFlows || (AllZero(h.underflow) && AllZero(h.overflow))
  {
    var r, z := ClearedAsWritten(h, scalarFlows), Init(h.bins, h.cellShape);
    SortSorted(h.bins);
    EqualIff(r, z);
    if !scalarFlows || (AllZero(h.underflow) && AllZero(h.overflow)) {
      assert r.underflow == z.underflow && r.overflow == z.overflow;
      assert r.data == z.data;
    }
  }

  /**
   * `a + a` for any histogram `a` of cell shape `()` with one underflow: the sum's
   * underflow is 2, and after `reset` as written the sum is still not `==` to a
   * fresh histogram with the same edges.
   */
  lemma ResetScalarFlowsDiffer(a: Histogram)
    requires WellFormed(a) && a.cellShape == [] && a.underflow == [1]
    ensures Add(a, a).Ok? && Add(a, a).value.underflow == [2]
    ensures Equal(ClearedAsWritten(Add(a, a).value, true), HistogramOperand(Init(a.bins, []))) == Ok(false)
  {
    var h := Add(a, a).value;
    assert |h.underflow| == 1 && h.underflow[0] == 2;
    assert !AllZero(h.underflow);
    SortSorted(a.bins);
    ClearedAsWrittenIsFresh(h, true);
    EqualIff(ClearedAsWritten(h, true), Init(a.bins, []));
  }

  /** Every histogram equals itself, and `!=` on it is false. */
  lemma EqualReflexive(h: Histogram)
    requires WellFormed(h)
    ensures Equal(h, HistogramOperand(h)) == Ok(true)
    ensures NotEqual(h, HistogramOperand(h)) == Ok(false)
  {
    EqualIff(h, h);
  }

  /** `combine` keeps the total count, underflow and overflow while they stay below 2^64. */
  lemma CombineTotals(h: Histogram, axis: nat)
    requires WellFormed(h) && axis < |h.cellShape|
    ensures var r := Combine(h, axis).value; var m := Modulus(UInt64);
      (Sum(h.data) < m ==> Sum(r.data) == Sum(h.data)) &&
      (Sum(h.underflow) < m ==> Sum(r.underflow) == Sum(h.underflow)) &&
      (Sum(h.overflow) < m ==> Sum(r.overflow) == Sum(h.overflow))
  {
    var s := h.cellShape;
    var outer, len, inner := Prod(s[..axis]), s[axis], Prod(s[axis + 1..]);
    var nb := NBins(h);
    var m := Modulus(UInt64);
    ProdSplit(s, axis);
    MulAssoc(outer, len * inner, nb);
    MulAssoc(len, inner, nb);
    assert |h.data| == outer * (len * (inner * nb));
    var r := Combine(h, axis).value;
    assert r.data == Wrap(SumAxis(h.data, outer, len, inner * nb), m);
    assert r.underflow == Wrap(SumAxis(h.underflow, outer, len, inner), m);
    assert r.overflow == Wrap(SumAxis(h.overflow, outer, len, inner), m);
    WrapSumAxisTotal(h.data, outer, len, inner * nb, m);
    WrapSumAxisTotal(h.underflow, outer, len, inner, m);
    WrapSumAxisTotal(h.overflow, outer, len, inner, m);
  }

  /**
   * Each count of the combined histogram is the sum, along the combined axis, of
   * the counts at the same position of the other axes, modulo 2^64. Cells before
   * the axis number `outer`, the cells after it times the bins are `inner`, and the
   * result's flat index of (o, i) is `o * inner + i`.
   */
  lemma CombineDataAt(h: Histogram, axis: nat, o: nat, i: nat)
    requires WellFormed(h) && axis < |h.cellShape|
    requires o < Prod(h.cellShape[..axis]) && i < Prod(h.cellShape[axis + 1..]) * NBins(h)
    ensures var s := h.cellShape;
      var outer, len, inner := Prod(s[..axis]), s[axis], Prod(s[axis + 1..]) * NBins(h);
      |h.data| == outer * (len * inner) && o * inner + i < |Combine(h, axis).value.data| &&
      Combine(h, axis).value.data[o * inner + i] == Sum(Fiber(h.data, outer, len, inner, o, i)) % Modulus(UInt64)
  {
    var s := h.cellShape;
    var outer, len, inner := Prod(s[..axis]), s[axis], Prod(s[axis + 1..]);
    var nb := NBins(h);
    ProdSplit(s, axis);
    MulAssoc(outer, len * inner, nb);
    MulAssoc(len, inner, nb);
    assert |h.data| == outer * (len * (inner * nb));
    var sums := SumAxis(h.data, outer, len, inner * nb);
    assert Combine(h, axis).value.data == Wrap(sums, Modulus(UInt64));
    SumAxisAt(h.data, outer, len, inner * nb, o, i);
  }

  /** The same for the underflow and the overflow, which have no bin axis. */
  lemma CombineFlowsAt(h: Histogram, axis: nat, o: nat, i: nat)
    requires WellFormed(h) && axis < |h.cellShape|
    requires o < Prod(h.cellShape[..axis]) && i < Prod(h.cellShape[axis + 1..])
    ensures var s := h.cellShape;
      var outer, len, inner := Prod(s[..axis]), s[axis], Prod(s[axis + 1..]);
      var r := Combine(h, axis).value;
      |h.underflow| == outer * (len * inner) && o * inner + i < |r.underflow| &&
      r.underflow[o * inner + i] == Sum(Fiber(h.underflow, outer, len, inner, o, i)) % Modulus(UInt64) &&
      r.overflow[o * inner + i] == Sum(Fiber(h.overflow, outer, len, inner, o, i)) % Modulus(UInt64)
  {
    var s := h.cellShape;
    var outer, len, inner := Prod(s[..axis]), s[axis], Prod(s[axis + 1..]);
    ProdSplit(s, axis);
    var r := Combine(h, axis).value;
    assert r.underflow == Wrap(SumAxis(h.underflow, outer, len, inner), Modulus(UInt64));
    assert r.overflow == Wrap(SumAxis(h.overflow, outer, len, inner), Modulus(UInt64));
    SumAxisAt(h.underflow, outer, len, inner, o, i);
    SumAxisAt(h.overflow, outer, len, inner, o, i);
  }

  /**
   * Combining a one-axis grid leaves a single cell whose count in bin `b` is the sum,
   * over all cells, of their counts in bin `b` (modulo 2^64).
   */
  lemma CombineVector(h: Histogram, b: nat)
    requires WellFormed(h) && |h.cellShape| == 1 && b < NBins(h)
    ensures var r := Combine(h, 0).value;
      r.cellShape == [] && |r.data| == NBins(h) &&
      r.data[b] == Sum(Column(Cells(h), b)) % Modulus(UInt64)
  {
    var s := h.cellShape;
    var nb := NBins(h);
    assert s[..0] == [] && s[1..] == [];
    assert Prod(s) == s[0];
    var blocks := Chunk(h.data[..s[0] * nb], s[0], nb);
    assert h.data[..s[0] * nb] == h.data;
    assert SumAxis(h.data, 1, s[0], 1 * nb) == SumVecs(blocks, nb) + SumAxis(h.data[s[0] * nb..], 0, s[0], nb);
    SumVecsAt(blocks, nb, b);
  }

  /** `fill()` without indices accepts samples whose leading axes are exactly the cell shape. */
  lemma FillWholeGrid(h: Histogram, pointsShape: seq<nat>)
    requires WellFormed(h)
    ensures FillCheck(h, pointsShape, WholeGrid).Ok? <==> Selectors.DropLast(pointsShape) == h.cellShape
  {
    assert DataShape(h)[..|DataShape(h)| - 1] == h.cellShape;
  }

  /**
   * `fill(points, i)` on a grid with cell axes and `i` a valid (possibly negative)
   * index of the first axis accepts samples whose leading axes are the remaining cell axes.
   */
  lemma FillOneRow(h: Histogram, pointsShape: seq<nat>, i: int)
    requires WellFormed(h) && |h.cellShape| >= 1 && -h.cellShape[0] <= i < h.cellShape[0]
    ensures FillCheck(h, pointsShape, AtCell(i)).Ok? <==>
              Selectors.DropLast(pointsShape) == h.cellShape[1..]
  {
    var ds := DataShape(h);
    assert ds[0] == h.cellShape[0];
    assert ds[1..] == h.cellShape[1..] + [NBins(h)];
    assert Selectors.DropLast(ds[1..]) == h.cellShape[1..];
  }
}
