/**
 * The `Histogram1D` object itself: its count arrays are numpy buffers that
 * `__add__` and `combine` replace, on a new object, by freshly computed ones.
 * `reset` zeroes them in place, except for underflow and overflow that those
 * operations left as numpy scalars, which `fill(0)` cannot change
 * (`ResetAsWritten`; `Reset` is the intended behaviour).
 */
module HistogramClass {
  import opened Wrappers
  import opened Sorting
  import opened Sums
  import opened Histograms

  /** A fresh buffer holding `s`. */
  method NewBuffer(s: seq<nat>) returns (a: array<nat>)
    ensures fresh(a) && a[..] == s
  {
    a := new nat[|s|](i requires 0 <= i < |s| => s[i]);
  }

  /** `ndarray.fill(0)`: zeroes a buffer in place. */
  method ZeroOut(a: array<nat>)
    modifies a
    ensures a[..] == Zeros(a.Length)
  {
    var i := 0;
    while i < a.Length
      invariant 0 <= i <= a.Length
      invariant forall k :: 0 <= k < i ==> a[k] == 0
    {
      a[i] := 0;
      i := i + 1;
    }
  }

  /** A zero-filled buffer holds any all-zero sequence of its length. */
  lemma ZerosMatch(a: array<nat>, s: seq<nat>)
    requires a.Length == |s| && AllZero(s)
    requires forall i :: 0 <= i < a.Length ==> a[i] == 0
    ensures a[..] == s
  {
  }

  class Histogram1D {
    /** `data_shape`: the shape of the grid of cells. */
    const cellShape: seq<nat>
    /** The bin edges, sorted at construction. */
    const bins: seq<real>
    /** `n_bins`: one bin fewer than there are edges. */
    const nBins: nat
    /** The element type of the three count arrays. */
    var dtype: Dtype
    /** The counts, cells times bins, in C order. */
    var data: array<nat>
    var underflow: array<nat>
    var overflow: array<nat>
    /**
     * The underflow and overflow are numpy scalars rather than arrays: `+` and
     * `combine` leave them so when the resulting cell shape is `()`.
     */
    var scalarFlows: bool

    ghost predicate Valid()
      reads this, data, underflow, overflow
    {
      data != underflow && data != overflow && underflow != overflow &&
      (scalarFlows ==> cellShape == []) &&
      |bins| >= 1 && nBins == |bins| - 1 && WellFormed(Value())
    }

    /** The histogram the object currently holds. */
    function Value(): Histogram
      reads this, data, underflow, overflow
    {
      Histogram(cellShape, bins, data[..], underflow[..], overflow[..], dtype)
    }

    /** `Histogram1D(bin_edges, data_shape)`: zero counts and sorted edges. */
    constructor (edges: seq<real>, dataShape: seq<nat>)
      requires |edges| >= 1 && |dataShape| <= 2
      ensures Valid() && fresh(data) && fresh(underflow) && fresh(overflow)
      ensures Value() == Init(edges, dataShape)
      ensures nBins == |edges| - 1 && IsEmpty(Value()) && !scalarFlows
    {
      var h := Init(edges, dataShape);
      cellShape := h.cellShape;
      bins := h.bins;
      nBins := NBins(h);
      dtype := h.dtype;
      scalarFlows := false;
      data := new nat[|h.data|](_ => 0);
      underflow := new nat[|h.underflow|](_ => 0);
      overflow := new nat[|h.overflow|](_ => 0);
      new;
      ZerosMatch(data, h.data);
      ZerosMatch(underflow, h.underflow);
      ZerosMatch(overflow, h.overflow);
    }

    /** The constructor with its failures: more than two cell axes, or no edge at all. */
    static method Create(edges: seq<real>, dataShape: seq<nat>) returns (r: Result<Histogram1D, HistError>)
      ensures r.Err? <==> Construct(edges, dataShape).Err?
      ensures r.Err? ==> r.error == Construct(edges, dataShape).error
      ensures r.Ok? ==> fresh(r.value) && fresh(r.value.data) && fresh(r.value.underflow) &&
                        fresh(r.value.overflow) && r.value.Valid() && !r.value.scalarFlows &&
                        r.value.Value() == Construct(edges, dataShape).value
    {
      if |dataShape| > 2 {
        return Err(RankTooLarge(|dataShape|));
      }
      if |edges| == 0 {
        return Err(NoEdges);
      }
      var h := new Histogram1D(edges, dataShape);
      r := Ok(h);
    }

    /**
     * `reset` as intended: zeroes the counts, the underflow and the overflow in
     * place, whatever form the underflow and overflow take.
     */
    method Reset()
      requires Valid()
      modifies data, underflow, overflow
      ensures Valid()
      ensures Value() == Cleared(old(Value()))
      ensures IsEmpty(Value())
      ensures Equal(Value(), HistogramOperand(Init(bins, cellShape))) == Ok(true)
    {
      ZeroOut(data);
      ZeroOut(underflow);
      ZeroOut(overflow);
    }

    /**
     * `reset` as written: `fill(0)` on each of the three. On scalar underflow and
     * overflow it acts on a temporary copy, so those keep their values.
     */
    method ResetAsWritten()
      requires Valid()
      modifies data, underflow, overflow
      ensures Valid()
      ensures Value() == ClearedAsWritten(old(Value()), scalarFlows)
    {
      ZeroOut(data);
      if !scalarFlows {
        ZeroOut(underflow);
        ZeroOut(overflow);
      }
    }

    /**
     * Installs freshly built count arrays, and with them their dtype, the way
     * `__add__` and `combine` overwrite the arrays of the histogram they just built.
     * For a cell shape `()` numpy's results for the underflow and overflow are scalars.
     */
    method SetCounts(v: Histogram)
      requires WellFormed(v) && v.cellShape == cellShape && v.bins == bins && nBins == |bins| - 1
      modifies this
      ensures Valid() && Value() == v && scalarFlows == (v.cellShape == [])
      ensures fresh(data) && fresh(underflow) && fresh(overflow)
    {
      data := NewBuffer(v.data);
      overflow := NewBuffer(v.overflow);
      underflow := NewBuffer(v.underflow);
      dtype := v.dtype;
      scalarFlows := v.cellShape == [];
    }

    /** `self + other`: a new object holding the sum; both operands are left as they were. */
    method Plus(other: Histogram1D) returns (r: Result<Histogram1D, HistError>)
      requires Valid() && other.Valid()
      ensures Value() == old(Value()) && other.Value() == old(other.Value())
      ensures r.Err? <==> Add(Value(), other.Value()).Err?
      ensures r.Err? ==> r.error == Add(Value(), other.Value()).error
      ensures r.Ok? ==> fresh(r.value) && fresh(r.value.data) && fresh(r.value.underflow) &&
                        fresh(r.value.overflow) && r.value.Valid() &&
                        r.value.Value() == Add(Value(), other.Value()).value &&
                        r.value.scalarFlows == (cellShape == [])
    {
      var sum := Add(Value(), other.Value());
      if sum.Err? {
        return Err(sum.error);
      }
      SortSorted(bins);
      var h := new Histogram1D(bins, cellShape);
      h.SetCounts(sum.value);
      r := Ok(h);
    }

    /** `combine(axis)`: a new object holding the sums over cell axis `axis`. */
    method Combined(axis: nat) returns (r: Result<Histogram1D, HistError>)
      requires Valid()
      ensures r.Err? <==> axis >= |cellShape|
      ensures r.Err? ==> r.error == Combine(Value(), axis).error
      ensures r.Ok? ==> fresh(r.value) && fresh(r.value.data) && fresh(r.value.underflow) &&
                        fresh(r.value.overflow) && r.value.Valid() &&
                        r.value.Value() == Combine(Value(), axis).value &&
                        r.value.scalarFlows == (|cellShape| == 1)
    {
      var sums := Combine(Value(), axis);
      if sums.Err? {
        return Err(sums.error);
      }
      SortSorted(bins);
      var h := new Histogram1D(bins, sums.value.cellShape);
      h.SetCounts(sums.value);
      r := Ok(h);
    }
  }
}
