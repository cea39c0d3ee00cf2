/**
 * Flat indexing of a three-dimensional grid (gamer.h, Vect2Index).
 *
 * A grid of d0 x d1 x d2 cells is stored in one flat array with the first
 * index innermost: cell (i, j, k) lives at k*d0*d1 + j*d0 + i.  The lemmas
 * below show that this is a bijection between the in-range triples and
 * 0 .. d0*d1*d2-1, that it has the documented strides, that numeric order of
 * the flat index is the order of the k-j-i loop nest, and that for in-range
 * triples the size_t arithmetic of gamer.h never wraps around.
 */
module FlatIndex {

  /** The extents of a grid, one per axis (a szt3Vector in gamer.h). */
  datatype Dims = Dims(d0: nat, d1: nat, d2: nat)

  /** A cell position (i, j, k). */
  datatype Triple = Triple(i: nat, j: nat, k: nat)

  /** Number of cells in the grid. */
  function Volume(dim: Dims): nat {
    dim.d0 * dim.d1 * dim.d2
  }

  predicate InRange(i: nat, j: nat, k: nat, dim: Dims) {
    i < dim.d0 && j < dim.d1 && k < dim.d2
  }

  /**
   * The flat index of cell (i, j, k), on unbounded naturals.  With i in
   * range, i is the remainder modulo d0 (the innermost, fastest-moving
   * coordinate) and the quotient is the flat index of (j, k) in a d1-wide
   * plane.
   */
  function Vect2Index(i: nat, j: nat, k: nat, dim: Dims): (r: nat)
    ensures i < dim.d0 ==> r % dim.d0 == i && r / dim.d0 == k * dim.d1 + j
  {
    InnermostDigit(i, j, k, dim.d0, dim.d1);
    k * dim.d0 * dim.d1 + j * dim.d0 + i
  }

  /** The inverse map: a flat index split into its three coordinates. */
  function Index2Vect(n: nat, dim: Dims): (t: Triple)
    requires dim.d0 > 0 && dim.d1 > 0
  {
    Triple(n % dim.d0, (n / dim.d0) % dim.d1, n / (dim.d0 * dim.d1))
  }

  // ---------------------------------------------------------------------
  // Machine-word view: std::size_t is 64 bits wide and every * and + wraps.
  // ---------------------------------------------------------------------

  const WORD: nat := 0x1_0000_0000_0000_0000

  function Wrap(x: nat): (r: nat)
    ensures r < WORD
    ensures x < WORD ==> r == x
  {
    x % WORD
  }

  /**
   * Vect2Index as gamer.h evaluates it: ((k*d0)*d1 + j*d0) + i with
   * each operation reduced modulo 2^64.
   */
  function Vect2IndexWord(i: nat, j: nat, k: nat, dim: Dims): (r: nat)
    ensures r < WORD
  {
    Wrap(Wrap(Wrap(Wrap(k * dim.d0) * dim.d1) + Wrap(j * dim.d0)) + i)
  }

  // ---------------------------------------------------------------------
  // Arithmetic helpers
  // ---------------------------------------------------------------------

  /** Division and remainder are determined by any decomposition n == q*d + r with r < d. */
  lemma DivModUnique(n: nat, q: nat, r: nat, d: nat)
    requires 0 <= r < d
    requires n == q * d + r
    ensures n / d == q && n % d == r
  {
    var q', r' := n / d, n % d;
    assert n == q' * d + r';
    if q' < q {
      assert (q - q') * d == r' - r;
      assert (q - q') * d >= d by { MulAtLeast(q - q', d); }
    } else if q' > q {
      assert (q' - q) * d == r - r';
      assert (q' - q) * d >= d by { MulAtLeast(q' - q, d); }
    }
  }

  lemma MulAtLeast(a: nat, d: nat)
    requires a >= 1
    ensures a * d >= d
  {
  }

  lemma MulMono(a: nat, b: nat, c: nat)
    requires a <= b
    ensures a * c <= b * c
  {
  }

  /** k*d0*d1 + j*d0 + i splits as quotient k*d1 + j and remainder i by d0. */
  lemma InnermostDigit(i: nat, j: nat, k: nat, d0: nat, d1: nat)
    ensures i < d0 ==> (k * d0 * d1 + j * d0 + i) % d0 == i
    ensures i < d0 ==> (k * d0 * d1 + j * d0 + i) / d0 == k * d1 + j
  {
    if i < d0 {
      assert k * d0 * d1 == (k * d1) * d0;
      Distrib(k * d1, j, d0);
      DivModUnique(k * d0 * d1 + j * d0 + i, k * d1 + j, i, d0);
    }
  }

  /** A quotient bounded by n < d2*p, with q*p <= n, is below d2. */
  lemma QuotientBelow(n: nat, q: nat, p: nat, d2: nat)
    requires q * p <= n < d2 * p
    ensures q < d2
  {
    if q >= d2 {
      MulMono(d2, q, p);
    }
  }

  // ---------------------------------------------------------------------
  // Properties of Vect2Index
  // ---------------------------------------------------------------------

  /** The origin is stored first. */
  lemma Origin(dim: Dims)
    ensures Vect2Index(0, 0, 0, dim) == 0
  {
  }

  /** Stepping one index adds its stride: 1 for i, d0 for j, d0*d1 for k. */
  lemma Strides(i: nat, j: nat, k: nat, dim: Dims)
    ensures Vect2Index(i + 1, j, k, dim) == Vect2Index(i, j, k, dim) + 1
    ensures Vect2Index(i, j + 1, k, dim) == Vect2Index(i, j, k, dim) + dim.d0
    ensures Vect2Index(i, j, k + 1, dim) == Vect2Index(i, j, k, dim) + dim.d0 * dim.d1
  {
    assert (k + 1) * dim.d0 * dim.d1 == k * dim.d0 * dim.d1 + dim.d0 * dim.d1;
    assert (j + 1) * dim.d0 == j * dim.d0 + dim.d0;
  }

  /** Every cell of slab k lies below the first cell of slab k+1. */
  lemma SlabBound(i: nat, j: nat, k: nat, dim: Dims)
    requires i < dim.d0 && j < dim.d1
    ensures Vect2Index(i, j, k, dim) < (k + 1) * (dim.d0 * dim.d1)
  {
    MulMono(j, dim.d1 - 1, dim.d0);
    assert j * dim.d0 + i < dim.d1 * dim.d0;
    assert (k + 1) * (dim.d0 * dim.d1) == k * dim.d0 * dim.d1 + dim.d0 * dim.d1;
  }

  /** In-range cells land inside the flat array. */
  lemma {:induction false} Vect2IndexBound(i: nat, j: nat, k: nat, dim: Dims)
    requires InRange(i, j, k, dim)
    ensures Vect2Index(i, j, k, dim) < Volume(dim)
  {
    SlabBound(i, j, k, dim);
    MulMono(k + 1, dim.d2, dim.d0 * dim.d1);
    assert dim.d2 * (dim.d0 * dim.d1) == Volume(dim);
  }

  /** Decoding the flat index of an in-range cell gives the cell back. */
  lemma DecodeEncode(i: nat, j: nat, k: nat, dim: Dims)
    requires InRange(i, j, k, dim)
    ensures Index2Vect(Vect2Index(i, j, k, dim), dim) == Triple(i, j, k)
  {
    var n := Vect2Index(i, j, k, dim);
    var p := dim.d0 * dim.d1;
    MulMono(j, dim.d1 - 1, dim.d0);
    assert j * dim.d0 + i < p;
    assert n == k * p + (j * dim.d0 + i);
    DivModUnique(n, k, j * dim.d0 + i, p);
    assert n == (k * dim.d1 + j) * dim.d0 + i;
    DivModUnique(n, k * dim.d1 + j, i, dim.d0);
    DivModUnique(k * dim.d1 + j, k, j, dim.d1);
  }

  /** Two different in-range cells never share a flat index. */
  lemma Vect2IndexInjective(i: nat, j: nat, k: nat, i': nat, j': nat, k': nat, dim: Dims)
    requires InRange(i, j, k, dim) && InRange(i', j', k', dim)
    requires Vect2Index(i, j, k, dim) == Vect2Index(i', j', k', dim)
    ensures i == i' && j == j' && k == k'
  {
    DecodeEncode(i, j, k, dim);
    DecodeEncode(i', j', k', dim);
  }

  /** Splitting n by d0 and then by d1 recovers n. */
  lemma DivDecompose(n: nat, d0: nat, d1: nat)
    requires d0 > 0 && d1 > 0
    ensures n == (n / d0 / d1) * (d0 * d1) + ((n / d0) % d1) * d0 + n % d0
  {
    var m, q, r := n / d0, n / d0 / d1, (n / d0) % d1;
    assert n == m * d0 + n % d0;
    assert m == q * d1 + r;
    calc {
      m * d0;
      (q * d1 + r) * d0;
      { Distrib(q * d1, r, d0); }
      q * d1 * d0 + r * d0;
      { assert q * d1 * d0 == q * (d0 * d1); }
      q * (d0 * d1) + r * d0;
    }
  }

  lemma Distrib(a: nat, b: nat, c: nat)
    ensures (a + b) * c == a * c + b * c
  {
  }

  /**
   * Every index of the flat array decodes to an in-range cell whose flat
   * index is that index: the in-range cells cover 0 .. Volume(dim)-1 exactly.
   */
  lemma EncodeDecode(n: nat, dim: Dims)
    requires n < Volume(dim)
    ensures dim.d0 > 0 && dim.d1 > 0
    ensures InRange(Index2Vect(n, dim).i, Index2Vect(n, dim).j, Index2Vect(n, dim).k, dim)
    ensures Vect2Index(Index2Vect(n, dim).i, Index2Vect(n, dim).j, Index2Vect(n, dim).k, dim) == n
  {
    var d0, d1 := dim.d0, dim.d1;
    assert d0 > 0 && d1 > 0;
    var p := d0 * d1;
    var t := Index2Vect(n, dim);
    var q := n / d0 / d1;
    DivDecompose(n, d0, d1);
    assert n == q * p + (t.j * d0 + t.i);
    MulMono(t.j, d1 - 1, d0);
    assert t.j * d0 + t.i < p;
    DivModUnique(n, q, t.j * d0 + t.i, p);
    assert t.k == q;
    assert t.k * d0 * d1 == q * p;
    assert Volume(dim) == dim.d2 * p;
    QuotientBelow(n, q, p, dim.d2);
  }

  // ---------------------------------------------------------------------
  // The loop-order convention: k outermost, then j, then i innermost
  // ---------------------------------------------------------------------

  /** (k, j, i) lexicographic order: the order in which the loop nest visits cells. */
  predicate LoopBefore(a: Triple, b: Triple) {
    a.k < b.k || (a.k == b.k && (a.j < b.j || (a.j == b.j && a.i < b.i)))
  }

  /** The cell the loop nest visits right after t. */
  function NextInLoopOrder(t: Triple, dim: Dims): Triple {
    if t.i + 1 < dim.d0 then Triple(t.i + 1, t.j, t.k)
    else if t.j + 1 < dim.d1 then Triple(0, t.j + 1, t.k)
    else Triple(0, 0, t.k + 1)
  }

  /**
   * Flat-index order is loop-nest order: with i innermost the nest walks
   * the flat array front to back, which is what the convention is for.
   */
  lemma LoopOrderIsIndexOrder(a: Triple, b: Triple, dim: Dims)
    requires InRange(a.i, a.j, a.k, dim) && InRange(b.i, b.j, b.k, dim)
    ensures LoopBefore(a, b) <==> Vect2Index(a.i, a.j, a.k, dim) < Vect2Index(b.i, b.j, b.k, dim)
  {
    if LoopBefore(a, b) {
      LoopBeforeIndexBelow(a, b, dim);
    } else if LoopBefore(b, a) {
      LoopBeforeIndexBelow(b, a, dim);
    } else {
      assert a == b;
    }
  }

  /** The direction "visited earlier implies smaller flat index". */
  lemma LoopBeforeIndexBelow(a: Triple, b: Triple, dim: Dims)
    requires InRange(a.i, a.j, a.k, dim) && InRange(b.i, b.j, b.k, dim)
    requires LoopBefore(a, b)
    ensures Vect2Index(a.i, a.j, a.k, dim) < Vect2Index(b.i, b.j, b.k, dim)
  {
    var p := dim.d0 * dim.d1;
    if a.k < b.k {
      SlabBound(a.i, a.j, a.k, dim);
      MulMono(a.k + 1, b.k, p);
      assert b.k * dim.d0 * dim.d1 == b.k * p;
    } else if a.j < b.j {
      MulMono(a.j + 1, b.j, dim.d0);
      assert (a.j + 1) * dim.d0 == a.j * dim.d0 + dim.d0;
    }
  }

  /** One step of the loop nest advances the flat index by exactly one. */
  lemma LoopStepAdvancesByOne(t: Triple, dim: Dims)
    requires InRange(t.i, t.j, t.k, dim)
    ensures Vect2Index(NextInLoopOrder(t, dim).i, NextInLoopOrder(t, dim).j, NextInLoopOrder(t, dim).k, dim)
            == Vect2Index(t.i, t.j, t.k, dim) + 1
    ensures t.k + 1 < dim.d2 || t.j + 1 < dim.d1 || t.i + 1 < dim.d0 ==>
            InRange(NextInLoopOrder(t, dim).i, NextInLoopOrder(t, dim).j, NextInLoopOrder(t, dim).k, dim)
  {
    Strides(t.i, t.j, t.k, dim);
    if t.i + 1 < dim.d0 {
    } else if t.j + 1 < dim.d1 {
      Strides(0, t.j, t.k, dim);
    } else {
      Strides(0, 0, t.k, dim);
      assert t.j * dim.d0 + t.i + 1 == dim.d0 * dim.d1;
    }
  }

  /**
   * For in-range cells of a grid whose size fits in a size_t, the wrapping
   * machine arithmetic computes the exact flat index.
   */
  lemma NoWrapInRange(i: nat, j: nat, k: nat, dim: Dims)
    requires InRange(i, j, k, dim)
    requires Volume(dim) <= WORD
    ensures Vect2IndexWord(i, j, k, dim) == Vect2Index(i, j, k, dim)
  {
    Vect2IndexBound(i, j, k, dim);
    var v := Vect2Index(i, j, k, dim);
    MulAtLeast(dim.d1, k * dim.d0);
    assert k * dim.d0 <= k * dim.d0 * dim.d1;
    assert Wrap(k * dim.d0) == k * dim.d0;
    assert Wrap(k * dim.d0 * dim.d1) == k * dim.d0 * dim.d1;
    assert Wrap(j * dim.d0) == j * dim.d0;
    assert Wrap(k * dim.d0 * dim.d1 + j * dim.d0) == k * dim.d0 * dim.d1 + j * dim.d0;
  }
}
