/**
 * The index-valued statistics of `Histogram1D`: `mode`, `min` and `max`, computed
 * for every cell in row-major cell order. Each picks a bin and returns its left
 * edge; an empty histogram gives NaN for every cell, and `min`/`max` leave a cell
 * without any count masked.
 */
module Statistics {
  import opened Wrappers
  import opened Sorting
  import opened Sums
  import opened Histograms

  /** A statistic of one cell. */
  datatype Stat = NaN | Masked | Edge(x: real)

  /** `k` is the first index of a largest element of `s`. */
  predicate IsFirstMax(s: seq<nat>, k: nat)
  {
    k < |s| && (forall j :: 0 <= j < |s| ==> s[j] <= s[k]) && (forall j :: 0 <= j < k ==> s[j] < s[k])
  }

  /** `k` is the lowest bin of the cell with a count. */
  predicate IsLowestOccupied(cell: seq<nat>, k: nat)
  {
    k < |cell| && cell[k] > 0 && forall j :: 0 <= j < k ==> cell[j] == 0
  }

  /** `k` is the highest bin of the cell with a count. */
  predicate IsHighestOccupied(cell: seq<nat>, k: nat)
  {
    k < |cell| && cell[k] > 0 && forall j :: k < j < |cell| ==> cell[j] == 0
  }

  /** `np.argmax`: scanning from the left, an index is replaced only by a strictly larger element. */
  function ArgMax(s: seq<nat>): (k: nat)
    requires |s| > 0
    ensures IsFirstMax(s, k)
  {
    if |s| == 1 then 0
    else
      var k := ArgMax(s[..|s| - 1]);
      if s[|s| - 1] > s[k] then |s| - 1 else k
  }

  /** The minimum of the left edges of the bins with a count (numpy's min of a masked array). */
  function MaskedMin(cell: seq<nat>, lefts: seq<real>): (r: Option<real>)
    requires |cell| == |lefts|
    ensures r.None? <==> AllZero(cell)
    ensures r.Some? ==> exists k :: 0 <= k < |cell| && cell[k] > 0 && r.value == lefts[k]
    ensures r.Some? ==> forall k :: 0 <= k < |cell| && cell[k] > 0 ==> r.value <= lefts[k]
  {
    if cell == [] then None
    else
      var rest := MaskedMin(cell[1..], lefts[1..]);
      assert forall k :: 1 <= k < |cell| ==> cell[k] == cell[1..][k - 1] && lefts[k] == lefts[1..][k - 1];
      if cell[0] == 0 then rest
      else if rest.None? || lefts[0] <= rest.value then Some(lefts[0])
      else rest
  }

  /** The maximum of the left edges of the bins with a count (numpy's max of a masked array). */
  function MaskedMax(cell: seq<nat>, lefts: seq<real>): (r: Option<real>)
    requires |cell| == |lefts|
    ensures r.None? <==> AllZero(cell)
    ensures r.Some? ==> exists k :: 0 <= k < |cell| && cell[k] > 0 && r.value == lefts[k]
    ensures r.Some? ==> forall k :: 0 <= k < |cell| && cell[k] > 0 ==> lefts[k] <= r.value
  {
    if cell == [] then None
    else
      var rest := MaskedMax(cell[1..], lefts[1..]);
      assert forall k :: 1 <= k < |cell| ==> cell[k] == cell[1..][k - 1] && lefts[k] == lefts[1..][k - 1];
      if cell[0] == 0 then rest
      else if rest.None? || lefts[0] >= rest.value then Some(lefts[0])
      else rest
  }

  function FirstOccupied(cell: seq<nat>): (k: nat)
    requires !AllZero(cell)
    ensures IsLowestOccupied(cell, k)
  {
    if cell[0] > 0 then 0
    else
      assert forall k :: 1 <= k < |cell| ==> cell[k] == cell[1..][k - 1];
      1 + FirstOccupied(cell[1..])
  }

  function LastOccupied(cell: seq<nat>): (k: nat)
    requires !AllZero(cell)
    ensures IsHighestOccupied(cell, k)
  {
    if cell[|cell| - 1] > 0 then |cell| - 1
    else
      assert forall k :: 0 <= k < |cell| - 1 ==> cell[k] == cell[..|cell| - 1][k];
      LastOccupied(cell[..|cell| - 1])
  }

  /** With sorted edges the masked minimum is the left edge of the lowest occupied bin. */
  lemma LowestOccupiedEdge(cell: seq<nat>, lefts: seq<real>)
    requires |cell| == |lefts| && Sorted(lefts) && !AllZero(cell)
    ensures IsLowestOccupied(cell, FirstOccupied(cell))
    ensures MaskedMin(cell, lefts) == Some(lefts[FirstOccupied(cell)])
  {
    var k0 := FirstOccupied(cell);
    var r := MaskedMin(cell, lefts);
    assert r.Some?;
    var k :| 0 <= k < |cell| && cell[k] > 0 && r.value == lefts[k];
    assert k0 <= k;
    assert lefts[k0] <= lefts[k] by {
      if k0 < k {
        assert 0 <= k0 < k < |lefts|;
      }
    }
    assert r.value <= lefts[k0] by {
      assert 0 <= k0 < |cell| && cell[k0] > 0;
    }
  }

  /** With sorted edges the masked maximum is the left edge of the highest occupied bin. */
  lemma HighestOccupiedEdge(cell: seq<nat>, lefts: seq<real>)
    requires |cell| == |lefts| && Sorted(lefts) && !AllZero(cell)
    ensures IsHighestOccupied(cell, LastOccupied(cell))
    ensures MaskedMax(cell, lefts) == Some(lefts[LastOccupied(cell)])
  {
    var k1 := LastOccupied(cell);
    var r := MaskedMax(cell, lefts);
    assert r.Some?;
    var k :| 0 <= k < |cell| && cell[k] > 0 && r.value == lefts[k];
    assert k <= k1;
    assert lefts[k] <= lefts[k1] by {
      if k < k1 {
        assert 0 <= k < k1 < |lefts|;
      }
    }
    assert lefts[k1] <= r.value by {
      assert 0 <= k1 < |cell| && cell[k1] > 0;
    }
  }

  /** `min` of one cell of a non-empty histogram. */
  function CellMin(cell: seq<nat>, lefts: seq<real>): (s: Stat)
    requires |cell| == |lefts| && Sorted(lefts)
    ensures s.Masked? <==> AllZero(cell)
    ensures s.Edge? || s.Masked?
    ensures s.Edge? ==> exists k: nat :: IsLowestOccupied(cell, k) && s.x == lefts[k]
  {
    match MaskedMin(cell, lefts)
    case None => Masked
    case Some(x) =>
      LowestOccupiedEdge(cell, lefts);
      Edge(x)
  }

  /** `max` of one cell of a non-empty histogram. */
  function CellMax(cell: seq<nat>, lefts: seq<real>): (s: Stat)
    requires |cell| == |lefts| && Sorted(lefts)
    ensures s.Masked? <==> AllZero(cell)
    ensures s.Edge? || s.Masked?
    ensures s.Edge? ==> exists k: nat :: IsHighestOccupied(cell, k) && s.x == lefts[k]
  {
    match MaskedMax(cell, lefts)
    case None => Masked
    case Some(x) =>
      HighestOccupiedEdge(cell, lefts);
      Edge(x)
  }

  /** `bins[:-1]`: the left edges of the bins. */
  function Lefts(h: Histogram): (r: seq<real>)
    requires WellFormed(h)
    ensures |r| == NBins(h) && Sorted(r)
    ensures forall k :: 0 <= k < |r| ==> r[k] == h.bins[k]
  {
    h.bins[..NBins(h)]
  }

  lemma NonEmptyHasBins(h: Histogram)
    requires WellFormed(h) && !IsEmpty(h)
    ensures NBins(h) > 0 && NumCells(h) > 0
  {
    assert |h.data| > 0;
  }

  /** The mode of one cell: the left edge of its first fullest bin. */
  function CellMode(cell: seq<nat>, lefts: seq<real>): (s: Stat)
    requires |cell| == |lefts| && |cell| > 0
    ensures s.Edge? && exists k: nat :: IsFirstMax(cell, k) && s.x == lefts[k]
  {
    Edge(lefts[ArgMax(cell)])
  }

  /** `mode`: NaN everywhere for an empty histogram, else the left edge of each cell's first fullest bin. */
  function Mode(h: Histogram): (r: seq<Stat>)
    requires WellFormed(h)
    ensures |r| == NumCells(h)
    ensures IsEmpty(h) ==> forall c :: 0 <= c < |r| ==> r[c] == NaN
    ensures !IsEmpty(h) ==> forall c :: 0 <= c < |r| ==>
              r[c].Edge? && exists k: nat :: IsFirstMax(Cells(h)[c], k) && r[c].x == h.bins[k]
  {
    var n := NumCells(h);
    if IsEmpty(h) then seq(n, _ => NaN)
    else
      NonEmptyHasBins(h);
      var cells, lefts := Cells(h), Lefts(h);
      seq(n, c requires 0 <= c < n => CellMode(cells[c], lefts))
  }

  /**
   * `min`: NaN everywhere for an empty histogram; otherwise masked for a cell without
   * counts and else the left edge of its lowest occupied bin.
   */
  function Min(h: Histogram): (r: seq<Stat>)
    requires WellFormed(h)
    ensures |r| == NumCells(h)
    ensures IsEmpty(h) ==> forall c :: 0 <= c < |r| ==> r[c] == NaN
    ensures !IsEmpty(h) ==> forall c :: 0 <= c < |r| ==>
              (r[c].Masked? <==> AllZero(Cells(h)[c])) && (r[c].Edge? || r[c].Masked?) &&
              (r[c].Edge? ==> exists k: nat :: IsLowestOccupied(Cells(h)[c], k) && r[c].x == h.bins[k])
  {
    var n := NumCells(h);
    if IsEmpty(h) then seq(n, _ => NaN)
    else
      var cells, lefts := Cells(h), Lefts(h);
      seq(n, c requires 0 <= c < n => CellMin(cells[c], lefts))
  }

  /**
   * `max`: NaN everywhere for an empty histogram; otherwise masked for a cell without
   * counts and else the left edge of its highest occupied bin.
   */
  function Max(h: Histogram): (r: seq<Stat>)
    requires WellFormed(h)
    ensures |r| == NumCells(h)
    ensures IsEmpty(h) ==> forall c :: 0 <= c < |r| ==> r[c] == NaN
    ensures !IsEmpty(h) ==> forall c :: 0 <= c < |r| ==>
              (r[c].Masked? <==> AllZero(Cells(h)[c])) && (r[c].Edge? || r[c].Masked?) &&
              (r[c].Edge? ==> exists k: nat :: IsHighestOccupied(Cells(h)[c], k) && r[c].x == h.bins[k])
  {
    var n := NumCells(h);
    if IsEmpty(h) then seq(n, _ => NaN)
    else
      var cells, lefts := Cells(h), Lefts(h);
      seq(n, c requires 0 <= c < n => CellMax(cells[c], lefts))
  }

  // ---------------------------------------------------------------- lemmas

  lemma {:induction false} ChunkAllZero(s: seq<nat>, n: nat, w: nat, c: nat)
    requires |s| == n * w && AllZero(s) && c < n
    ensures AllZero(Chunk(s, n, w)[c])
    decreases n
  {
    assert |s| == (n - 1) * w + w;
    if c > 0 {
      assert Chunk(s, n, w)[c] == Chunk(s[w..], n - 1, w)[c - 1];
      ChunkAllZero(s[w..], n - 1, w, c - 1);
    }
  }

  /** A cell with a count makes the histogram non-empty. */
  lemma OccupiedCellNotEmpty(h: Histogram, c: nat)
    requires WellFormed(h) && c < NumCells(h) && !AllZero(Cells(h)[c])
    ensures !IsEmpty(h)
  {
    if IsEmpty(h) {
      ChunkAllZero(h.data, NumCells(h), NBins(h), c);
    }
  }

  /**
   * In a non-empty histogram a cell without counts has mode at the first left edge
   * (argmax of zeros is 0), while `min` and `max` leave it masked.
   */
  lemma EmptyCellStatistics(h: Histogram, c: nat)
    requires WellFormed(h) && !IsEmpty(h) && c < NumCells(h) && AllZero(Cells(h)[c])
    ensures Mode(h)[c] == Edge(h.bins[0])
    ensures Min(h)[c] == Masked && Max(h)[c] == Masked
  {
    NonEmptyHasBins(h);
    var cell, lefts := Cells(h)[c], Lefts(h);
    assert Mode(h)[c] == CellMode(cell, lefts);
    assert cell[0] == 0 && cell[ArgMax(cell)] == 0;
    assert Min(h)[c] == CellMin(cell, lefts);
    assert Max(h)[c] == CellMax(cell, lefts);
  }

  /** In a cell whose counts all fall into bin `k`, that bin is the fullest, the lowest and the highest. */
  lemma SingleBinCell(cell: seq<nat>, lefts: seq<real>, k: nat)
    requires |cell| == |lefts| && Sorted(lefts) && k < |cell| && cell[k] > 0
    requires forall j :: 0 <= j < |cell| && j != k ==> cell[j] == 0
    ensures CellMode(cell, lefts) == CellMin(cell, lefts) == CellMax(cell, lefts) == Edge(lefts[k])
  {
    var km := ArgMax(cell);
    assert cell[km] >= cell[k];
    LowestOccupiedEdge(cell, lefts);
    HighestOccupiedEdge(cell, lefts);
    assert FirstOccupied(cell) == k && LastOccupied(cell) == k;
  }

  /** For an occupied cell the fullest bin lies between the lowest and the highest occupied one. */
  lemma OrderedCell(cell: seq<nat>, lefts: seq<real>)
    requires |cell| == |lefts| && Sorted(lefts) && !AllZero(cell)
    ensures CellMin(cell, lefts).Edge? && CellMax(cell, lefts).Edge?
    ensures CellMin(cell, lefts).x <= CellMode(cell, lefts).x <= CellMax(cell, lefts).x
  {
    var km := ArgMax(cell);
    var j :| 0 <= j < |cell| && cell[j] != 0;
    assert cell[km] >= cell[j] > 0;
    LowestOccupiedEdge(cell, lefts);
    HighestOccupiedEdge(cell, lefts);
    var k0, k1 := FirstOccupied(cell), LastOccupied(cell);
    assert k0 <= km <= k1;
    assert lefts[k0] <= lefts[km] <= lefts[k1];
  }

  /** A cell whose counts all fall into bin `k` has mode, min and max at the left edge of `k`. */
  lemma SingleBinStatistics(h: Histogram, c: nat, k: nat)
    requires WellFormed(h) && c < NumCells(h) && k < NBins(h)
    requires Cells(h)[c][k] > 0
    requires forall j :: 0 <= j < NBins(h) && j != k ==> Cells(h)[c][j] == 0
    ensures Mode(h)[c] == Min(h)[c] == Max(h)[c] == Edge(h.bins[k])
  {
    var cell, lefts := Cells(h)[c], Lefts(h);
    OccupiedCellNotEmpty(h, c);
    SingleBinCell(cell, lefts, k);
    assert Mode(h)[c] == CellMode(cell, lefts);
    assert Min(h)[c] == CellMin(cell, lefts);
    assert Max(h)[c] == CellMax(cell, lefts);
  }

  /** For an occupied cell the edges come in order: min, then mode, then max. */
  lemma OrderedStatistics(h: Histogram, c: nat)
    requires WellFormed(h) && c < NumCells(h) && !AllZero(Cells(h)[c])
    ensures Min(h)[c].Edge? && Mode(h)[c].Edge? && Max(h)[c].Edge?
    ensures Min(h)[c].x <= Mode(h)[c].x <= Max(h)[c].x
  {
    var cell, lefts := Cells(h)[c], Lefts(h);
    OccupiedCellNotEmpty(h, c);
    OrderedCell(cell, lefts);
    assert Mode(h)[c] == CellMode(cell, lefts);
    assert Min(h)[c] == CellMin(cell, lefts);
    assert Max(h)[c] == CellMax(cell, lefts);
  }

  /** Right after construction every statistic of every cell is NaN. */
  lemma FreshStatistics(edges: seq<real>, cellShape: seq<nat>)
    requires |edges| >= 1 && |cellShape| <= 2
    ensures var h := Init(edges, cellShape);
      forall c :: 0 <= c < NumCells(h) ==> Mode(h)[c] == NaN && Min(h)[c] == NaN && Max(h)[c] == NaN
  {
  }
}
