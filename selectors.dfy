/**
 * The index normaliser of the histogram package (`_convert_item`): it turns an
 * index item (a bare integer, or a tuple of integers, slices and `None`) and the
 * full shape of the count array, bin axis included, into one canonical slice per
 * axis and the shape of the selected cells.
 */
module Selectors {
  import opened Wrappers

  /** One entry of an index tuple; every field of a slice may be left out (`None`). */
  datatype Selector =
    | Int(n: int)
    | Slice(start: Option<int>, stop: Option<int>, step: Option<int>)
    | NoneSel

  /**
   * An index item as the caller passes it: a bare integer, a tuple of selectors, or
   * an object that is neither an integer nor iterable (a bare slice, `None`, `...`).
   */
  datatype Item = Scalar(i: int) | Tuple(entries: seq<Selector>) | NotIterable

  /** The exceptions that `_convert_item` raises. */
  datatype IndexError =
      /** The IndexError the function raises itself: the entry does not fit axis `axis` of size `dim`. */
    | OutOfRange(axis: nat, sel: Selector, dim: nat)
      /** Looking up `shape[axis]` fails: the item addresses an axis the shape does not have. */
    | NoSuchAxis(axis: nat)
      /** A slice with start and step but no stop: comparing `None <= shape[axis]` raises TypeError. */
    | StopIsNone(axis: nat)
      /** `enumerate(item)` raises TypeError: the item is neither an integer nor iterable. */
    | ItemNotIterable

  /** The canonical selection: one slice per axis, and the shape of the selected cells. */
  datatype Selection = Selection(indices: seq<Selector>, dataShape: seq<nat>)

  /** The slice that takes a whole axis, `slice(None, None, None)`. */
  const Full: Selector := Slice(None, None, None)

  /** The slice `slice(n, n + 1, 1)` that narrows an axis to the single coordinate `n`. */
  function UnitSlice(n: int): Selector
  {
    Slice(Some(n), Some(n + 1), Some(1))
  }

  /**
   * The entries the validation pass enumerates. A bare integer item is first rewritten
   * into a one-entry tuple holding its unit slice; a non-iterable item has none, as
   * enumerating it fails.
   */
  function Entries(item: Item): seq<Selector>
  {
    match item
    case Scalar(i) => [UnitSlice(i)]
    case Tuple(es) => es
    case NotIterable => []
  }

  /**
   * The validation of one entry at position `axis`: integers must lie in
   * [0, shape[axis]); a slice is looked at only when both its start and its step
   * are given, and then needs start >= 0 and stop <= shape[axis]; `None` passes.
   */
  function Check(sel: Selector, axis: nat, shape: seq<nat>): Option<IndexError>
  {
    match sel
    case NoneSel => None
    case Int(n) =>
      if axis >= |shape| then Some(NoSuchAxis(axis))
      else if 0 <= n < shape[axis] then None
      else Some(OutOfRange(axis, sel, shape[axis]))
    case Slice(start, stop, step) =>
      if start.None? || step.None? then None
      else if axis >= |shape| then Some(NoSuchAxis(axis))
      else if start.value < 0 then Some(OutOfRange(axis, sel, shape[axis]))
      else if stop.None? then Some(StopIsNone(axis))
      else if stop.value <= shape[axis] then None
      else Some(OutOfRange(axis, sel, shape[axis]))
  }

  /** The error of the first entry at position `k` or later that fails its check. */
  function FirstError(es: seq<Selector>, shape: seq<nat>, k: nat): Option<IndexError>
    decreases |es| - k
  {
    if k >= |es| then None
    else if Check(es[k], k, shape).Some? then Check(es[k], k, shape)
    else FirstError(es, shape, k + 1)
  }

  /** A selector keeps its axis whole: a slice without start and stop, or `None`. */
  predicate KeepsAxis(sel: Selector)
  {
    sel.NoneSel? || (sel.Slice? && sel.start.None? && sel.stop.None?)
  }

  /** The canonical slice an entry becomes. */
  function Canonical(sel: Selector): Selector
  {
    match sel
    case Int(n) => UnitSlice(n)
    case NoneSel => Full
    case Slice(start, stop, _) => if start.None? && stop.None? then Full else sel
  }

  /** The selection of axis `i`; axes past the end of the item are taken whole. */
  function AxisSelection(es: seq<Selector>, i: nat): Selector
  {
    if i < |es| then Canonical(es[i]) else Full
  }

  /** Axis `i` is taken whole, so its size is recorded in the result shape. */
  predicate AxisKept(es: seq<Selector>, i: nat)
  {
    i >= |es| || KeepsAxis(es[i])
  }

  /** The selections of axes 0 .. n-1. */
  function Selections(es: seq<Selector>, n: nat): seq<Selector>
  {
    if n == 0 then [] else Selections(es, n - 1) + [AxisSelection(es, n - 1)]
  }

  /** The sizes of the axes among 0 .. n-1 that are taken whole, in axis order. */
  function Recorded(es: seq<Selector>, shape: seq<nat>, n: nat): seq<nat>
    requires n <= |shape|
  {
    if n == 0 then []
    else Recorded(es, shape, n - 1) + (if AxisKept(es, n - 1) then [shape[n - 1]] else [])
  }

  /** `s[:-1]`: all but the last element; empty for an empty sequence. */
  function DropLast<T>(s: seq<T>): seq<T>
  {
    if s == [] then [] else s[..|s| - 1]
  }

  /** What `_convert_item(item, shape)` returns or raises. */
  function Resolve(item: Item, shape: seq<nat>): (r: Result<Selection, IndexError>)
    ensures item.NotIterable? ==> r == Err(ItemNotIterable)
    ensures r.Ok? ==> |r.value.indices| == |shape| && (|shape| == 0 || |r.value.dataShape| < |shape|)
  {
    var es := Entries(item);
    var e := FirstError(es, shape, 0);
    SelectionsAt(es, |shape|);
    RecordedFromKeptAxes(es, shape, |shape|);
    if item.NotIterable? then Err(ItemNotIterable)
    else if e.Some? then Err(e.value)
    else Ok(Selection(Selections(es, |shape|), DropLast(Recorded(es, shape, |shape|))))
  }

  /**
   * The normaliser as the source runs it: a validation pass over the entries of the
   * item, then a construction pass over the axes of `shape` accumulating the
   * selection and the recorded sizes, whose last element is finally dropped.
   */
  method ConvertItem(item: Item, shape: seq<nat>) returns (r: Result<Selection, IndexError>)
    ensures r == Resolve(item, shape)
  {
    if item.NotIterable? {
      return Err(ItemNotIterable);
    }
    var es := Entries(item);
    var i := 0;
    while i < |es|
      invariant 0 <= i <= |es|
      invariant FirstError(es, shape, i) == FirstError(es, shape, 0)
    {
      var c := Check(es[i], i, shape);
      if c.Some? {
        return Err(c.value);
      }
      i := i + 1;
    }
    var indices: seq<Selector> := [];
    var dataShape: seq<nat> := [];
    i := 0;
    while i < |shape|
      invariant 0 <= i <= |shape|
      invariant indices == Selections(es, i)
      invariant dataShape == Recorded(es, shape, i)
    {
      if i < |es| {
        match es[i]
        case Int(n) =>
          indices := indices + [UnitSlice(n)];
        case Slice(start, stop, _) =>
          if start.None? && stop.None? {
            indices := indices + [Full];
            dataShape := dataShape + [shape[i]];
          } else {
            indices := indices + [es[i]];
          }
        case NoneSel =>
          indices := indices + [Full];
          dataShape := dataShape + [shape[i]];
      } else {
        indices := indices + [Full];
        dataShape := dataShape + [shape[i]];
      }
      i := i + 1;
    }
    r := Ok(Selection(indices, DropLast(dataShape)));
  }

  // ---------------------------------------------------------------- lemmas

  /** `FirstError` finds nothing exactly when every entry from `k` on passes its check. */
  lemma {:induction false} FirstErrorNone(es: seq<Selector>, shape: seq<nat>, k: nat)
    ensures FirstError(es, shape, k).None? <==>
              forall j :: k <= j < |es| ==> Check(es[j], j, shape).None?
    decreases |es| - k
  {
    if k < |es| {
      FirstErrorNone(es, shape, k + 1);
    }
  }

  /** An error found by `FirstError` is the error of the first failing entry from `k` on. */
  lemma {:induction false} FirstErrorSome(es: seq<Selector>, shape: seq<nat>, k: nat)
    requires FirstError(es, shape, k).Some?
    ensures exists j :: k <= j < |es| && Check(es[j], j, shape) == FirstError(es, shape, k) &&
              forall m :: k <= m < j ==> Check(es[m], m, shape).None?
    decreases |es| - k
  {
    if Check(es[k], k, shape).None? {
      FirstErrorSome(es, shape, k + 1);
      var j :| k + 1 <= j < |es| && Check(es[j], j, shape) == FirstError(es, shape, k + 1) &&
                forall m :: k + 1 <= m < j ==> Check(es[m], m, shape).None?;
      assert forall m :: k <= m < j ==> Check(es[m], m, shape).None?;
    }
  }

  lemma {:induction false} SelectionsAt(es: seq<Selector>, n: nat)
    ensures |Selections(es, n)| == n
    ensures forall i :: 0 <= i < n ==> Selections(es, n)[i] == AxisSelection(es, i)
  {
    if n > 0 {
      SelectionsAt(es, n - 1);
    }
  }

  /** Axes past the end of the item contribute their sizes, in order. */
  lemma {:induction false} RecordedTrailing(es: seq<Selector>, shape: seq<nat>, n: nat)
    requires |es| <= n <= |shape|
    ensures Recorded(es, shape, n) == Recorded(es, shape, |es|) + shape[|es|..n]
  {
    if n > |es| {
      RecordedTrailing(es, shape, n - 1);
      assert shape[|es|..n] == shape[|es|..n - 1] + [shape[n - 1]];
    }
  }

  /** Every recorded size is the size of some axis taken whole; at most one per axis. */
  lemma {:induction false} RecordedFromKeptAxes(es: seq<Selector>, shape: seq<nat>, n: nat)
    requires n <= |shape|
    ensures |Recorded(es, shape, n)| <= n
    ensures forall k :: 0 <= k < |Recorded(es, shape, n)| ==>
              exists i :: 0 <= i < n && AxisKept(es, i) && Recorded(es, shape, n)[k] == shape[i]
  {
    if n > 0 {
      RecordedFromKeptAxes(es, shape, n - 1);
      var r, p := Recorded(es, shape, n), Recorded(es, shape, n - 1);
      forall k | 0 <= k < |r|
        ensures exists i :: 0 <= i < n && AxisKept(es, i) && r[k] == shape[i]
      {
        if k < |p| {
          assert r[k] == p[k];
          var i :| 0 <= i < n - 1 && AxisKept(es, i) && p[k] == shape[i];
        } else {
          assert AxisKept(es, n - 1) && r[k] == shape[n - 1];
        }
      }
      assert r == Recorded(es, shape, n);
      assert forall k :: 0 <= k < |Recorded(es, shape, n)| ==>
        exists i :: 0 <= i < n && AxisKept(es, i) && Recorded(es, shape, n)[k] == shape[i];
    } else {
      assert Recorded(es, shape, n) == [];
    }
  }

  /**
   * The item is accepted exactly when every entry passes its check; a rejected item
   * reports the error of its first failing entry.
   */
  lemma ResolveErrors(item: Item, shape: seq<nat>)
    ensures Resolve(item, shape).Ok? <==>
              (!item.NotIterable? &&
               forall k :: 0 <= k < |Entries(item)| ==> Check(Entries(item)[k], k, shape).None?)
    ensures Resolve(item, shape).Err? && !item.NotIterable? ==>
              exists k :: 0 <= k < |Entries(item)| &&
                Check(Entries(item)[k], k, shape) == Some(Resolve(item, shape).error) &&
                forall m :: 0 <= m < k ==> Check(Entries(item)[m], m, shape).None?
  {
    FirstErrorNone(Entries(item), shape, 0);
    if Resolve(item, shape).Err? && !item.NotIterable? {
      FirstErrorSome(Entries(item), shape, 0);
    }
  }

  /**
   * An accepted item yields exactly one slice per axis of `shape`: integers become
   * their unit slice, `None` and open slices the full slice, bounded slices stay as
   * they are, and axes past the end of the item are taken whole.
   */
  lemma ResolveAxes(item: Item, shape: seq<nat>)
    requires Resolve(item, shape).Ok?
    ensures var r := Resolve(item, shape).value; var es := Entries(item);
      |r.indices| == |shape| &&
      (forall i :: |es| <= i < |shape| ==> r.indices[i] == Full) &&
      (forall i :: 0 <= i < |shape| && i < |es| && es[i].Int? ==> r.indices[i] == UnitSlice(es[i].n)) &&
      (forall i :: 0 <= i < |shape| && i < |es| && KeepsAxis(es[i]) ==> r.indices[i] == Full) &&
      (forall i :: 0 <= i < |shape| && i < |es| && es[i].Slice? && !KeepsAxis(es[i]) ==>
         r.indices[i] == es[i])
  {
    SelectionsAt(Entries(item), |shape|);
  }

  /** In an accepted item every integer lies inside its axis. */
  lemma ResolveIntInRange(item: Item, shape: seq<nat>, i: nat)
    requires Resolve(item, shape).Ok?
    requires i < |Entries(item)| && Entries(item)[i].Int?
    ensures i < |shape| && 0 <= Entries(item)[i].n < shape[i]
  {
    ResolveErrors(item, shape);
    assert Check(Entries(item)[i], i, shape).None?;
  }

  /**
   * An integer outside [0, shape[i]) after entries that all pass makes the item fail
   * with an IndexError naming the axis, the entry and the axis size.
   */
  lemma ResolveIntOutOfRange(es: seq<Selector>, shape: seq<nat>, i: nat)
    requires i < |es| && i < |shape| && es[i].Int?
    requires es[i].n < 0 || es[i].n >= shape[i]
    requires forall m :: 0 <= m < i ==> Check(es[m], m, shape).None?
    ensures Resolve(Tuple(es), shape) == Err(OutOfRange(i, es[i], shape[i]))
  {
    var k := 0;
    while k < i
      invariant 0 <= k <= i
      invariant FirstError(es, shape, k) == FirstError(es, shape, 0)
    {
      k := k + 1;
    }
  }

  /**
   * The recorded shape of an accepted item: the sizes of the whole axes among the
   * item's entries, then every trailing axis, the last size dropped. Entries past the
   * last axis (which the validation pass lets through when they are `None` or
   * unchecked slices) take no part.
   */
  lemma ResolveDataShape(item: Item, shape: seq<nat>)
    requires Resolve(item, shape).Ok?
    ensures var es := Entries(item); var n := if |es| <= |shape| then |es| else |shape|;
      Resolve(item, shape).value.dataShape == DropLast(Recorded(es, shape, n) + shape[n..])
  {
    var es := Entries(item);
    assert Resolve(item, shape).value.dataShape == DropLast(Recorded(es, shape, |shape|));
    if |es| <= |shape| {
      RecordedTrailing(es, shape, |shape|);
      assert shape[|es|..|shape|] == shape[|es|..];
    } else {
      assert shape[|shape|..] == [];
      assert Recorded(es, shape, |shape|) + [] == Recorded(es, shape, |shape|);
    }
  }

  /** An item longer than the shape: the extra `None` is let through and ignored. */
  lemma ResolveLongItem()
    ensures Resolve(Tuple([Int(0), Full, NoneSel]), [3, 4]) == Ok(Selection([UnitSlice(0), Full], []))
  {
    var es := [Int(0), Full, NoneSel];
    assert FirstError(es, [3, 4], 3) == None;
    assert FirstError(es, [3, 4], 2) == None;
    assert FirstError(es, [3, 4], 1) == None;
    assert FirstError(es, [3, 4], 0) == None;
    assert Recorded(es, [3, 4], 1) == [];
    assert Recorded(es, [3, 4], 2) == [4];
    assert Selections(es, 1) == [UnitSlice(0)];
    assert Selections(es, 2) == [UnitSlice(0), Full];
    assert DropLast([4]) == [];
  }

  /**
   * When the last axis (the bin axis) is taken whole, dropping the last recorded size
   * leaves exactly the sizes of the whole cell axes.
   */
  lemma ResolveCellShape(item: Item, shape: seq<nat>)
    requires Resolve(item, shape).Ok? && |shape| > 0 && AxisKept(Entries(item), |shape| - 1)
    ensures Resolve(item, shape).value.dataShape == Recorded(Entries(item), shape, |shape| - 1)
  {
    var es := Entries(item);
    var pre := Recorded(es, shape, |shape| - 1);
    assert Recorded(es, shape, |shape|) == pre + [shape[|shape| - 1]];
    assert (pre + [shape[|shape| - 1]])[..|pre|] == pre;
  }

  /** The empty tuple takes every axis whole, and the shape is everything but the bin axis. */
  lemma ResolveEmptyTuple(shape: seq<nat>)
    ensures Resolve(Tuple([]), shape) == Ok(Selection(seq(|shape|, _ => Full), DropLast(shape)))
  {
    RecordedTrailing([], shape, |shape|);
    SelectionsAt([], |shape|);
    assert shape[0..] == shape;
    assert Recorded([], shape, |shape|) == shape;
    assert Selections([], |shape|) == seq(|shape|, _ => Full);
  }

  /**
   * Entries that pass and fail alike and produce the same slices and recorded sizes
   * give the same result; with identical checks, also the same error.
   */
  lemma {:induction false} ResolveCongruent(es1: seq<Selector>, es2: seq<Selector>, shape: seq<nat>)
    requires |es1| == |es2|
    requires forall k :: 0 <= k < |es1| ==>
               Check(es1[k], k, shape).None? == Check(es2[k], k, shape).None? &&
               Canonical(es1[k]) == Canonical(es2[k]) && KeepsAxis(es1[k]) == KeepsAxis(es2[k])
    ensures Resolve(Tuple(es1), shape).Ok? == Resolve(Tuple(es2), shape).Ok?
    ensures Resolve(Tuple(es1), shape).Ok? ==> Resolve(Tuple(es1), shape) == Resolve(Tuple(es2), shape)
    ensures (forall k :: 0 <= k < |es1| ==> Check(es1[k], k, shape) == Check(es2[k], k, shape)) ==>
              Resolve(Tuple(es1), shape) == Resolve(Tuple(es2), shape)
  {
    FirstErrorNone(es1, shape, 0);
    FirstErrorNone(es2, shape, 0);
    SelectionsAt(es1, |shape|);
    SelectionsAt(es2, |shape|);
    RecordedCongruent(es1, es2, shape, |shape|);
    assert Selections(es1, |shape|) == Selections(es2, |shape|);
    if forall k :: 0 <= k < |es1| ==> Check(es1[k], k, shape) == Check(es2[k], k, shape) {
      FirstErrorCongruent(es1, es2, shape, 0);
    }
  }

  lemma {:induction false} RecordedCongruent(es1: seq<Selector>, es2: seq<Selector>, shape: seq<nat>, n: nat)
    requires |es1| == |es2| && n <= |shape|
    requires forall k :: 0 <= k < |es1| ==> KeepsAxis(es1[k]) == KeepsAxis(es2[k])
    ensures Recorded(es1, shape, n) == Recorded(es2, shape, n)
  {
    if n > 0 {
      RecordedCongruent(es1, es2, shape, n - 1);
    }
  }

  lemma {:induction false} FirstErrorCongruent(es1: seq<Selector>, es2: seq<Selector>, shape: seq<nat>, k: nat)
    requires |es1| == |es2|
    requires forall j :: 0 <= j < |es1| ==> Check(es1[j], j, shape) == Check(es2[j], j, shape)
    ensures FirstError(es1, shape, k) == FirstError(es2, shape, k)
    decreases |es1| - k
  {
    if k < |es1| {
      FirstErrorCongruent(es1, es2, shape, k + 1);
    }
  }

  /** `None` consumes one axis and takes it whole, exactly like an open slice: it inserts no axis. */
  lemma NoneIsOpenSlice(es: seq<Selector>, shape: seq<nat>, i: nat)
    requires i < |es| && es[i] == NoneSel
    ensures Resolve(Tuple(es), shape) == Resolve(Tuple(es[i := Full]), shape)
    ensures Resolve(Tuple(es), shape).Ok? ==> |Resolve(Tuple(es), shape).value.indices| == |shape|
  {
    ResolveCongruent(es, es[i := Full], shape);
    if Resolve(Tuple(es), shape).Ok? {
      SelectionsAt(es, |shape|);
    }
  }

  /** A bare integer is accepted exactly when the same integer in a one-entry tuple is, with the same result. */
  lemma ScalarIsIntTuple(n: int, shape: seq<nat>)
    ensures Resolve(Scalar(n), shape).Ok? == Resolve(Tuple([Int(n)]), shape).Ok?
    ensures Resolve(Scalar(n), shape).Ok? ==> Resolve(Scalar(n), shape) == Resolve(Tuple([Int(n)]), shape)
  {
    ResolveCongruent([UnitSlice(n)], [Int(n)], shape);
  }

  /** Selecting cell 1 of a (3, 4) array: axis 0 narrowed, axis 1 whole, and its size dropped as the bin axis. */
  lemma ResolveOneOfThree()
    ensures Resolve(Tuple([Int(1)]), [3, 4]) == Ok(Selection([UnitSlice(1), Full], []))
  {
    var es := [Int(1)];
    assert Recorded(es, [3, 4], 1) == [];
    assert Recorded(es, [3, 4], 2) == [4];
    assert FirstError(es, [3, 4], 1) == None;
    assert Selections(es, 1) == [UnitSlice(1)];
    assert Selections(es, 2) == [UnitSlice(1), Full];
    assert FirstError(es, [3, 4], 0) == None;
    assert DropLast([4]) == [];
  }

  /** Index 5 on an axis of size 3 is an IndexError naming axis 0, the entry and the size 3. */
  lemma ResolveFiveOfThree()
    ensures Resolve(Tuple([Int(5)]), [3, 4]) == Err(OutOfRange(0, Int(5), 3))
  {
  }

  /**
   * When the bin axis is narrowed by a bounded slice, the size dropped at the end is
   * that of a cell axis: here the whole cell axis of size 3 disappears from the shape.
   */
  lemma ResolveBoundedBinAxis()
    ensures Resolve(Tuple([Full, Slice(Some(0), Some(5), Some(1))]), [3, 10]) ==
              Ok(Selection([Full, Slice(Some(0), Some(5), Some(1))], []))
  {
    var es := [Full, Slice(Some(0), Some(5), Some(1))];
    assert Recorded(es, [3, 10], 1) == [3];
    assert Recorded(es, [3, 10], 2) == [3];
    assert FirstError(es, [3, 10], 2) == None;
    assert FirstError(es, [3, 10], 1) == None;
    assert Selections(es, 1) == [Full];
    assert Selections(es, 2) == es;
    assert FirstError(es, [3, 10], 0) == None;
    assert DropLast([3]) == [];
  }
}
