/**
 * Sequences of counts: totals, element-wise sums, unsigned wrap-around and the
 * reduction of a C-ordered buffer along one axis, which is what numpy's `+` and
 * `sum(axis=…)` do to the histogram's count arrays.
 */
module Sums {

  function Sum(s: seq<nat>): nat
  {
    if s == [] then 0 else s[0] + Sum(s[1..])
  }

  function Zeros(n: nat): (r: seq<nat>)
    ensures |r| == n
  {
    seq(n, _ => 0)
  }

  predicate AllZero(s: seq<nat>)
  {
    forall i :: 0 <= i < |s| ==> s[i] == 0
  }

  /** Every element is below `m`: the values fit an unsigned integer type of modulus `m`. */
  predicate AllBelow(s: seq<nat>, m: nat)
  {
    forall i :: 0 <= i < |s| ==> s[i] < m
  }

  /** Element-wise sum of two buffers of the same length. */
  function AddVec(a: seq<nat>, b: seq<nat>): (r: seq<nat>)
    requires |a| == |b|
    ensures |r| == |a|
  {
    seq(|a|, i requires 0 <= i < |a| => a[i] + b[i])
  }

  /** Reduces every element modulo `m`, as an unsigned integer type of modulus `m` stores it. */
  function Wrap(s: seq<nat>, m: nat): (r: seq<nat>)
    requires m > 0
    ensures |r| == |s| && AllBelow(r, m)
  {
    seq(|s|, i requires 0 <= i < |s| => s[i] % m)
  }

  /** Splits a buffer of `n * w` elements into `n` consecutive pieces of width `w`. */
  function Chunk(s: seq<nat>, n: nat, w: nat): (r: seq<seq<nat>>)
    requires |s| == n * w
    ensures |r| == n
    ensures forall k :: 0 <= k < n ==> |r[k]| == w
    decreases n
  {
    if n == 0 then []
    else
      assert |s| == (n - 1) * w + w;
      [s[..w]] + Chunk(s[w..], n - 1, w)
  }

  /** Element-wise sum of `vs`, all of width `w`. */
  function SumVecs(vs: seq<seq<nat>>, w: nat): (r: seq<nat>)
    requires forall k :: 0 <= k < |vs| ==> |vs[k]| == w
    ensures |r| == w
  {
    if vs == [] then Zeros(w) else AddVec(vs[0], SumVecs(vs[1..], w))
  }

  /**
   * A buffer in C order of shape (outer, len, inner), summed over its middle axis:
   * the result has shape (outer, inner).
   */
  function SumAxis(s: seq<nat>, outer: nat, len: nat, inner: nat): (r: seq<nat>)
    requires |s| == outer * (len * inner)
    ensures |r| == outer * inner
    decreases outer
  {
    if outer == 0 then []
    else
      var b := len * inner;
      PeelOuter(outer, b);
      PeelOuter(outer, inner);
      SumVecs(Chunk(s[..b], len, inner), inner) + SumAxis(s[b..], outer - 1, len, inner)
  }

  lemma MulNonNegative(a: nat, b: nat)
    ensures a * b >= 0
  {
  }

  lemma MulAssoc(a: nat, b: nat, c: nat)
    ensures a * (b * c) == (a * b) * c
  {
  }

  lemma MulLe(a: nat, b: nat, c: nat)
    requires a <= b
    ensures a * c <= b * c
  {
    MulNonNegative(b - a, c);
    assert b * c == a * c + (b - a) * c;
  }

  /** Flat index `o * inner + i` of position (o, i) in a row-major (outer, inner) grid is in range. */
  lemma FlatIndex(o: nat, i: nat, outer: nat, inner: nat)
    requires o < outer && i < inner
    ensures o * inner + i < outer * inner
  {
    MulLe(o + 1, outer, inner);
    assert (o + 1) * inner == o * inner + inner;
  }

  /** Position (o, j, i) of a C-order (outer, len, inner) buffer is in range. */
  lemma FiberIndex(outer: nat, len: nat, inner: nat, o: nat, j: nat, i: nat)
    requires o < outer && j < len && i < inner
    ensures (o * len + j) * inner + i < outer * (len * inner)
  {
    FlatIndex(o, j, outer, len);
    FlatIndex(o * len + j, i, outer * len, inner);
    MulAssoc(outer, len, inner);
  }

  /** Dropping the first block of `len * inner` elements shifts block o to block o - 1. */
  lemma ShiftIndex(o: nat, len: nat, j: nat, inner: nat)
    requires o > 0
    ensures len * inner + ((o - 1) * len + j) * inner == (o * len + j) * inner
  {
    PeelOuter(o, len);
    assert (o * len + j) * inner == ((o - 1) * len + j + len) * inner;
    assert ((o - 1) * len + j + len) * inner == ((o - 1) * len + j) * inner + len * inner;
  }

  lemma PeelOuter(outer: nat, b: nat)
    requires outer > 0
    ensures outer * b == (outer - 1) * b + b
    ensures (outer - 1) * b >= 0
  {
  }

  function Column(vs: seq<seq<nat>>, j: nat): (r: seq<nat>)
    requires forall k :: 0 <= k < |vs| ==> j < |vs[k]|
    ensures |r| == |vs|
  {
    seq(|vs|, k requires 0 <= k < |vs| => vs[k][j])
  }

  /** Sum of the totals of the pieces. */
  function SumOfSums(vs: seq<seq<nat>>): nat
  {
    if vs == [] then 0 else Sum(vs[0]) + SumOfSums(vs[1..])
  }

  // ---------------------------------------------------------------- lemmas

  lemma {:induction false} SumConcat(a: seq<nat>, b: seq<nat>)
    ensures Sum(a + b) == Sum(a) + Sum(b)
  {
    if a == [] {
      assert a + b == b;
    } else {
      assert (a + b)[1..] == a[1..] + b;
      SumConcat(a[1..], b);
    }
  }

  /** A buffer sums to zero exactly when all of its elements are zero. */
  lemma {:induction false} SumZeroIff(s: seq<nat>)
    ensures Sum(s) == 0 <==> AllZero(s)
  {
    if s != [] {
      SumZeroIff(s[1..]);
      assert forall i :: 1 <= i < |s| ==> s[i] == s[1..][i - 1];
    }
  }

  lemma {:induction false} ElementAtMostSum(s: seq<nat>, i: nat)
    requires i < |s|
    ensures s[i] <= Sum(s)
  {
    if i > 0 {
      ElementAtMostSum(s[1..], i - 1);
    }
  }

  lemma SumZeros(n: nat)
    ensures Sum(Zeros(n)) == 0
  {
    SumZeroIff(Zeros(n));
  }

  lemma {:induction false} SumAddVec(a: seq<nat>, b: seq<nat>)
    requires |a| == |b|
    ensures Sum(AddVec(a, b)) == Sum(a) + Sum(b)
  {
    if a != [] {
      assert AddVec(a, b)[1..] == AddVec(a[1..], b[1..]);
      SumAddVec(a[1..], b[1..]);
    }
  }

  lemma ModBelow(x: nat, m: nat)
    requires x < m
    ensures x % m == x
  {
  }

  /** Wrapping changes nothing when every element already fits. */
  lemma WrapBelowAll(s: seq<nat>, m: nat)
    requires m > 0 && AllBelow(s, m)
    ensures Wrap(s, m) == s
  {
    forall i | 0 <= i < |s| ensures Wrap(s, m)[i] == s[i] {
      ModBelow(s[i], m);
    }
  }

  /** Wrapping changes nothing while the total stays below the modulus. */
  lemma WrapBelowTotal(s: seq<nat>, m: nat)
    requires m > 0 && Sum(s) < m
    ensures Wrap(s, m) == s
  {
    forall i | 0 <= i < |s| ensures s[i] < m {
      ElementAtMostSum(s, i);
    }
    WrapBelowAll(s, m);
  }

  /** Adding zeros to values that fit changes nothing. */
  lemma WrapAddZero(a: seq<nat>, z: seq<nat>, m: nat)
    requires |a| == |z| && m > 0 && AllZero(z) && AllBelow(a, m)
    ensures Wrap(AddVec(a, z), m) == a
  {
    forall i | 0 <= i < |a| ensures AddVec(a, z)[i] == a[i] {
      assert z[i] == 0;
    }
    assert AddVec(a, z) == a;
    WrapBelowAll(a, m);
  }

  lemma {:induction false} SumChunk(s: seq<nat>, n: nat, w: nat)
    requires |s| == n * w
    ensures SumOfSums(Chunk(s, n, w)) == Sum(s)
    decreases n
  {
    if n > 0 {
      assert |s| == (n - 1) * w + w;
      var c := Chunk(s, n, w);
      assert c[1..] == Chunk(s[w..], n - 1, w);
      SumChunk(s[w..], n - 1, w);
      assert s == s[..w] + s[w..];
      SumConcat(s[..w], s[w..]);
    }
  }

  lemma {:induction false} SumSumVecs(vs: seq<seq<nat>>, w: nat)
    requires forall k :: 0 <= k < |vs| ==> |vs[k]| == w
    ensures Sum(SumVecs(vs, w)) == SumOfSums(vs)
  {
    if vs == [] {
      SumZeros(w);
    } else {
      SumSumVecs(vs[1..], w);
      SumAddVec(vs[0], SumVecs(vs[1..], w));
    }
  }

  /** Summing over an axis keeps the grand total. */
  lemma {:induction false} SumAxisTotal(s: seq<nat>, outer: nat, len: nat, inner: nat)
    requires |s| == outer * (len * inner)
    ensures Sum(SumAxis(s, outer, len, inner)) == Sum(s)
    decreases outer
  {
    if outer > 0 {
      var b := len * inner;
      PeelOuter(outer, b);
      SumSumVecs(Chunk(s[..b], len, inner), inner);
      SumChunk(s[..b], len, inner);
      SumAxisTotal(s[b..], outer - 1, len, inner);
      SumConcat(SumVecs(Chunk(s[..b], len, inner), inner), SumAxis(s[b..], outer - 1, len, inner));
      assert s == s[..b] + s[b..];
      SumConcat(s[..b], s[b..]);
    }
  }

  /**
   * The `len` elements that summing the middle axis of a C-order buffer of shape
   * (outer, len, inner) adds up into position (o, i) of the result.
   */
  function Fiber(s: seq<nat>, outer: nat, len: nat, inner: nat, o: nat, i: nat): (r: seq<nat>)
    requires |s| == outer * (len * inner) && o < outer && i < inner
    ensures |r| == len
  {
    seq(len, j requires 0 <= j < len =>
      FiberIndex(outer, len, inner, o, j, i);
      s[(o * len + j) * inner + i])
  }

  /**
   * Position (o, i) of the axis sum, flat index `o * inner + i`, is the sum of the
   * elements `(o * len + j) * inner + i` for j in [0, len).
   */
  lemma {:induction false} SumAxisAt(s: seq<nat>, outer: nat, len: nat, inner: nat, o: nat, i: nat)
    requires |s| == outer * (len * inner) && o < outer && i < inner
    ensures o * inner + i < |SumAxis(s, outer, len, inner)|
    ensures SumAxis(s, outer, len, inner)[o * inner + i] == Sum(Fiber(s, outer, len, inner, o, i))
    decreases outer
  {
    var b := len * inner;
    PeelOuter(outer, b);
    PeelOuter(outer, inner);
    FlatIndex(o, i, outer, inner);
    var blocks := Chunk(s[..b], len, inner);
    var head := SumVecs(blocks, inner);
    var tail := SumAxis(s[b..], outer - 1, len, inner);
    var whole := SumAxis(s, outer, len, inner);
    assert whole == head + tail;
    var at := o * inner + i;
    if o == 0 {
      assert at == i;
      assert whole[at] == head[i];
      SumVecsAt(blocks, inner, i);
      FiberHead(s, outer, len, inner, i);
      assert head[i] == Sum(Fiber(s, outer, len, inner, o, i));
    } else {
      SumAxisAt(s[b..], outer - 1, len, inner, o - 1, i);
      PeelOuter(o, inner);
      var p := (o - 1) * inner + i;
      assert at == inner + p;
      assert whole[at] == tail[p];
      FiberShift(s, outer, len, inner, o, i);
      assert tail[p] == Sum(Fiber(s, outer, len, inner, o, i));
    }
  }

  /** The fibers of the first block are the columns of its chunks. */
  lemma FiberHead(s: seq<nat>, outer: nat, len: nat, inner: nat, i: nat)
    requires |s| == outer * (len * inner) && 0 < outer && i < inner
    ensures len * inner <= |s|
    ensures Column(Chunk(s[..len * inner], len, inner), i) == Fiber(s, outer, len, inner, 0, i)
  {
    PeelOuter(outer, len * inner);
    var b := len * inner;
    var blocks := Chunk(s[..b], len, inner);
    var f := Fiber(s, outer, len, inner, 0, i);
    forall j | 0 <= j < len ensures Column(blocks, i)[j] == f[j] {
      ChunkAt(s[..b], len, inner, j, i);
      FiberIndex(outer, len, inner, 0, j, i);
      var x := j * inner + i;
      assert (0 * len + j) * inner + i == x;
      assert f[j] == s[x];
    }
  }

  /** Dropping the first block shifts every fiber of block o to block o - 1. */
  lemma FiberShift(s: seq<nat>, outer: nat, len: nat, inner: nat, o: nat, i: nat)
    requires |s| == outer * (len * inner) && 0 < o < outer && i < inner
    ensures len * inner <= |s| && |s[len * inner..]| == (outer - 1) * (len * inner)
    ensures Fiber(s[len * inner..], outer - 1, len, inner, o - 1, i) == Fiber(s, outer, len, inner, o, i)
  {
    PeelOuter(outer, len * inner);
    var b := len * inner;
    var f, g := Fiber(s[b..], outer - 1, len, inner, o - 1, i), Fiber(s, outer, len, inner, o, i);
    forall j | 0 <= j < len ensures f[j] == g[j] {
      FiberIndex(outer - 1, len, inner, o - 1, j, i);
      FiberIndex(outer, len, inner, o, j, i);
      ShiftIndex(o, len, j, inner);
      var x, y := ((o - 1) * len + j) * inner + i, (o * len + j) * inner + i;
      assert b + x == y;
      assert f[j] == s[b..][x];
      assert g[j] == s[y];
    }
  }

  /** Element x of piece k of a chunked buffer is element `k * w + x` of the buffer. */
  lemma {:induction false} ChunkAt(s: seq<nat>, n: nat, w: nat, k: nat, x: nat)
    requires |s| == n * w && k < n && x < w
    ensures k * w + x < |s| && Chunk(s, n, w)[k][x] == s[k * w + x]
    decreases k
  {
    PeelOuter(n, w);
    FlatIndex(k, x, n, w);
    if k > 0 {
      ChunkAt(s[w..], n - 1, w, k - 1, x);
      PeelOuter(k, w);
    }
  }

  /** Summing over an axis and wrapping keeps the total while the total stays below the modulus. */
  lemma WrapSumAxisTotal(s: seq<nat>, outer: nat, len: nat, inner: nat, m: nat)
    requires |s| == outer * (len * inner) && m > 0
    ensures Sum(s) < m ==> Sum(Wrap(SumAxis(s, outer, len, inner), m)) == Sum(s)
  {
    SumAxisTotal(s, outer, len, inner);
    if Sum(s) < m {
      WrapBelowTotal(SumAxis(s, outer, len, inner), m);
    }
  }

  /** Element `j` of an element-wise sum is the sum of the elements `j` of the pieces. */
  lemma {:induction false} SumVecsAt(vs: seq<seq<nat>>, w: nat, j: nat)
    requires forall k :: 0 <= k < |vs| ==> |vs[k]| == w
    requires j < w
    ensures SumVecs(vs, w)[j] == Sum(Column(vs, j))
  {
    if vs != [] {
      assert Column(vs, j)[1..] == Column(vs[1..], j);
      SumVecsAt(vs[1..], w, j);
    }
  }
}
