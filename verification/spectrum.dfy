/**
  Sparse spectrum coordinates: sampling the positions from a permutation of
  the flattened grid, shifting them into a padded grid, dropping those that
  fall outside it, and scattering the coefficients into a dense matrix.
 */
module Spectrum {
  import opened Matrix

  /** A spectrum coefficient at a grid position. */
  datatype Coefficient = Coefficient(row: nat, col: nat, value: int)

  predicate Distinct<T(==)>(s: seq<T>) {
    forall i, j | 0 <= i < j < |s| :: s[i] != s[j]
  }

  /** `perm` lists each of 0 .. n-1 exactly once. */
  predicate IsPermutation(perm: seq<nat>, n: nat) {
    |perm| == n && Distinct(perm) && forall i | 0 <= i < |perm| :: perm[i] < n
  }

  // ------------------------------------------------------ index sampling

  /** Row-major position of flat index `v` in a grid `inFeatures` columns wide. */
  function Unflatten(v: nat, inFeatures: nat): (p: (nat, nat))
    requires inFeatures > 0
  {
    (v / inFeatures, v % inFeatures)
  }

  function Flatten(p: (nat, nat), inFeatures: nat): nat {
    p.0 * inFeatures + p.1
  }

  lemma MulStep(a: int, b: int, d: int)
    requires a < b && d > 0
    ensures a * d + d <= b * d
  {
    var k := b - a;
    assert b * d == a * d + k * d;
    assert k * d == (k - 1) * d + d;
    assert (k - 1) * d >= 0;
  }

  /** Quotient and remainder are the only such pair: Python's `//` and `%` on naturals. */
  lemma DivModUnique(v: int, d: int, q: int, r: int)
    requires d > 0 && 0 <= r < d && v == q * d + r
    ensures v / d == q && v % d == r
  {
    if v / d < q {
      MulStep(v / d, q, d);
      assert false;
    } else if v / d > q {
      MulStep(q, v / d, d);
      assert false;
    }
  }

  /** Unflatten inverts Flatten on the grid, and lands in the grid. */
  lemma UnflattenFlatten(p: (nat, nat), outFeatures: nat, inFeatures: nat)
    requires p.0 < outFeatures && p.1 < inFeatures
    ensures Unflatten(Flatten(p, inFeatures), inFeatures) == p
    ensures Flatten(p, inFeatures) < outFeatures * inFeatures
  {
    DivModUnique(Flatten(p, inFeatures), inFeatures, p.0, p.1);
    MulStep(p.0, outFeatures, inFeatures);
  }

  /** Flatten inverts Unflatten, and a flat index inside the grid lands inside it. */
  lemma FlattenUnflatten(v: nat, outFeatures: nat, inFeatures: nat)
    requires v < outFeatures * inFeatures
    ensures inFeatures > 0
    ensures Flatten(Unflatten(v, inFeatures), inFeatures) == v
    ensures Unflatten(v, inFeatures).0 < outFeatures && Unflatten(v, inFeatures).1 < inFeatures
  {
    assert inFeatures > 0;
    var r := v / inFeatures;
    if r >= outFeatures {
      assert r * inFeatures >= outFeatures * inFeatures;
    }
  }

  /** The positions of the first `n` entries of a permutation of the flattened grid. */
  function SampleIndices(perm: seq<nat>, n: nat, inFeatures: nat): (idx: seq<(nat, nat)>)
    requires n <= |perm| && inFeatures > 0
    ensures |idx| == n
    ensures forall k | 0 <= k < n :: idx[k].1 < inFeatures && Flatten(idx[k], inFeatures) == perm[k]
  {
    seq(n, i requires 0 <= i < n => Unflatten(perm[i], inFeatures))
  }

  /**
    Sampling from a permutation gives `n` distinct positions inside the
    out x in grid, each the position of the flat index it came from.
   */
  lemma SampleIndicesInGrid(perm: seq<nat>, n: nat, outFeatures: nat, inFeatures: nat)
    requires IsPermutation(perm, outFeatures * inFeatures) && n <= |perm|
    requires inFeatures > 0
    ensures forall i | 0 <= i < n ::
      SampleIndices(perm, n, inFeatures)[i].0 < outFeatures && SampleIndices(perm, n, inFeatures)[i].1 < inFeatures
    ensures forall i | 0 <= i < n :: Flatten(SampleIndices(perm, n, inFeatures)[i], inFeatures) == perm[i]
    ensures Distinct(SampleIndices(perm, n, inFeatures))
  {
    var idx := SampleIndices(perm, n, inFeatures);
    forall i | 0 <= i < n
      ensures idx[i].0 < outFeatures && idx[i].1 < inFeatures
      ensures Flatten(idx[i], inFeatures) == perm[i]
    {
      FlattenUnflatten(perm[i], outFeatures, inFeatures);
    }
    forall i, j | 0 <= i < j < n
      ensures idx[i] != idx[j]
    {
      assert perm[i] != perm[j];
    }
  }

  // ---------------------------------------------------- coefficient lists

  /** Pairs each position with its spectrum value. */
  function Coefficients(indices: seq<(nat, nat)>, spectrum: seq<int>): (cs: seq<Coefficient>)
    requires |indices| == |spectrum|
    ensures |cs| == |indices|
    ensures forall k | 0 <= k < |cs| :: cs[k] == Coefficient(indices[k].0, indices[k].1, spectrum[k])
  {
    seq(|indices|, k requires 0 <= k < |indices| => Coefficient(indices[k].0, indices[k].1, spectrum[k]))
  }

  function Shift(cs: seq<Coefficient>, rowOffset: nat, colOffset: nat): (r: seq<Coefficient>)
    ensures |r| == |cs|
    ensures forall k | 0 <= k < |r| :: r[k] == Coefficient(cs[k].row + rowOffset, cs[k].col + colOffset, cs[k].value)
  {
    seq(|cs|, k requires 0 <= k < |cs| => Coefficient(cs[k].row + rowOffset, cs[k].col + colOffset, cs[k].value))
  }

  predicate InBounds(c: Coefficient, rows: nat, cols: nat) {
    c.row < rows && c.col < cols
  }

  predicate AllInBounds(cs: seq<Coefficient>, rows: nat, cols: nat) {
    forall k | 0 <= k < |cs| :: InBounds(cs[k], rows, cols)
  }

  /** No two coefficients share a position. */
  predicate DistinctPositions(cs: seq<Coefficient>) {
    forall i, j | 0 <= i < j < |cs| :: (cs[i].row, cs[i].col) != (cs[j].row, cs[j].col)
  }

  /**
    The bounds filter: keeps, in order, the coefficients whose row and column
    are below the padded dimensions.
   */
  function KeepInBounds(cs: seq<Coefficient>, rows: nat, cols: nat): (r: seq<Coefficient>)
    ensures AllInBounds(r, rows, cols)
    ensures |r| <= |cs|
    decreases |cs|
  {
    if |cs| == 0 then []
    else
      var rest := KeepInBounds(cs[1..], rows, cols);
      if InBounds(cs[0], rows, cols) then [cs[0]] + rest else rest
  }

  /** The filter keeps a coefficient exactly when it is in bounds. */
  lemma {:induction false} KeepInBoundsMembers(cs: seq<Coefficient>, rows: nat, cols: nat)
    ensures forall c :: c in KeepInBounds(cs, rows, cols) <==> c in cs && InBounds(c, rows, cols)
    decreases |cs|
  {
    if |cs| > 0 {
      KeepInBoundsMembers(cs[1..], rows, cols);
      assert forall c :: c in cs <==> c == cs[0] || c in cs[1..];
    }
  }

  /** When every coefficient is in bounds the filter keeps all of them. */
  lemma {:induction false} KeepAllInBounds(cs: seq<Coefficient>, rows: nat, cols: nat)
    requires AllInBounds(cs, rows, cols)
    ensures KeepInBounds(cs, rows, cols) == cs
    decreases |cs|
  {
    if |cs| > 0 {
      KeepAllInBounds(cs[1..], rows, cols);
    }
  }

  /**
    Shifting positions of the out x in grid by the centring offsets of a
    padded grid keeps every one of them inside the padded grid.
   */
  lemma ShiftStaysInBounds(cs: seq<Coefficient>, outFeatures: nat, inFeatures: nat,
                           rows: nat, cols: nat, rowOffset: nat, colOffset: nat)
    requires AllInBounds(cs, outFeatures, inFeatures)
    requires outFeatures + rowOffset <= rows && inFeatures + colOffset <= cols
    ensures AllInBounds(Shift(cs, rowOffset, colOffset), rows, cols)
  {
  }

  /** A uniform shift keeps distinct positions distinct. */
  lemma ShiftDistinct(cs: seq<Coefficient>, rowOffset: nat, colOffset: nat)
    requires DistinctPositions(cs)
    ensures DistinctPositions(Shift(cs, rowOffset, colOffset))
  {
    var s := Shift(cs, rowOffset, colOffset);
    forall i, j | 0 <= i < j < |s|
      ensures (s[i].row, s[i].col) != (s[j].row, s[j].col)
    {
      assert (cs[i].row, cs[i].col) != (cs[j].row, cs[j].col);
    }
  }

  // --------------------------------------------------------------- scatter

  /**
    The value a last-write-wins scatter leaves at (i, j): the value of the
    last coefficient at that position, or 0 when there is none.
   */
  function ValueAt(cs: seq<Coefficient>, i: nat, j: nat): int
    decreases |cs|
  {
    if |cs| == 0 then 0
    else if cs[|cs| - 1].row == i && cs[|cs| - 1].col == j then cs[|cs| - 1].value
    else ValueAt(cs[..|cs| - 1], i, j)
  }

  /**
    A rows x cols zero matrix with each coefficient written at its position,
    in order, so that a later write to the same position wins.
   */
  function Scatter(cs: seq<Coefficient>, rows: nat, cols: nat): (m: Mat)
    requires AllInBounds(cs, rows, cols)
    ensures IsMat(m, rows, cols)
    decreases |cs|
  {
    if |cs| == 0 then Zeros(rows, cols)
    else
      var last := cs[|cs| - 1];
      Put(Scatter(cs[..|cs| - 1], rows, cols), last.row, last.col, last.value)
  }

  /** What Scatter leaves at a position is the last value written there, or 0. */
  lemma {:induction false} ScatterAt(cs: seq<Coefficient>, rows: nat, cols: nat, i: nat, j: nat)
    requires AllInBounds(cs, rows, cols) && i < rows && j < cols
    ensures Scatter(cs, rows, cols)[i][j] == ValueAt(cs, i, j)
    decreases |cs|
  {
    if |cs| > 0 {
      ScatterAt(cs[..|cs| - 1], rows, cols, i, j);
    }
  }

  /** With distinct positions, each coefficient's value is what is found at its position. */
  lemma {:induction false} ValueAtDistinct(cs: seq<Coefficient>, k: nat)
    requires DistinctPositions(cs) && k < |cs|
    ensures ValueAt(cs, cs[k].row, cs[k].col) == cs[k].value
    decreases |cs|
  {
    if k < |cs| - 1 {
      assert (cs[k].row, cs[k].col) != (cs[|cs| - 1].row, cs[|cs| - 1].col);
      ValueAtDistinct(cs[..|cs| - 1], k);
    }
  }

  /** A position no coefficient names holds 0. */
  lemma {:induction false} ValueAtMissing(cs: seq<Coefficient>, i: nat, j: nat)
    requires forall k | 0 <= k < |cs| :: (cs[k].row, cs[k].col) != (i, j)
    ensures ValueAt(cs, i, j) == 0
    decreases |cs|
  {
    if |cs| > 0 {
      assert (cs[|cs| - 1].row, cs[|cs| - 1].col) != (i, j);
      ValueAtMissing(cs[..|cs| - 1], i, j);
    }
  }

  /** When every value is zero, every position holds 0. */
  lemma {:induction false} ValueAtZeros(cs: seq<Coefficient>, i: nat, j: nat)
    requires forall k | 0 <= k < |cs| :: cs[k].value == 0
    ensures ValueAt(cs, i, j) == 0
    decreases |cs|
  {
    if |cs| > 0 {
      ValueAtZeros(cs[..|cs| - 1], i, j);
    }
  }

  /**
    Scatter places exactly the given coefficients: each value at its own
    position, and zero everywhere else.
   */
  lemma ScatterPlacesExactly(cs: seq<Coefficient>, rows: nat, cols: nat)
    requires AllInBounds(cs, rows, cols) && DistinctPositions(cs)
    ensures forall k | 0 <= k < |cs| :: Scatter(cs, rows, cols)[cs[k].row][cs[k].col] == cs[k].value
    ensures forall i, j | 0 <= i < rows && 0 <= j < cols ::
      (forall k | 0 <= k < |cs| :: (cs[k].row, cs[k].col) != (i, j)) ==> Scatter(cs, rows, cols)[i][j] == 0
  {
    forall k | 0 <= k < |cs|
      ensures Scatter(cs, rows, cols)[cs[k].row][cs[k].col] == cs[k].value
    {
      ValueAtDistinct(cs, k);
      ScatterAt(cs, rows, cols, cs[k].row, cs[k].col);
    }
    forall i, j | 0 <= i < rows && 0 <= j < cols && (forall k | 0 <= k < |cs| :: (cs[k].row, cs[k].col) != (i, j))
      ensures Scatter(cs, rows, cols)[i][j] == 0
    {
      ValueAtMissing(cs, i, j);
      ScatterAt(cs, rows, cols, i, j);
    }
  }

  /**
    Scattering a uniformly shifted list of coefficients with distinct
    positions puts the k-th value at the k-th shifted position.
   */
  lemma ScatterShiftedAt(cs: seq<Coefficient>, rows: nat, cols: nat, rowOffset: nat, colOffset: nat, k: nat)
    requires DistinctPositions(cs) && AllInBounds(Shift(cs, rowOffset, colOffset), rows, cols)
    requires k < |cs|
    ensures cs[k].row + rowOffset < rows && cs[k].col + colOffset < cols
    ensures Scatter(Shift(cs, rowOffset, colOffset), rows, cols)[cs[k].row + rowOffset][cs[k].col + colOffset] == cs[k].value
  {
    var shifted := Shift(cs, rowOffset, colOffset);
    ShiftDistinct(cs, rowOffset, colOffset);
    assert InBounds(shifted[k], rows, cols);
    ValueAtDistinct(shifted, k);
    ScatterAt(shifted, rows, cols, shifted[k].row, shifted[k].col);
  }

  /** ... and zero at every position that is not a shifted position. */
  lemma ScatterShiftedElsewhere(cs: seq<Coefficient>, rows: nat, cols: nat, rowOffset: nat, colOffset: nat, i: nat, j: nat)
    requires AllInBounds(Shift(cs, rowOffset, colOffset), rows, cols)
    requires i < rows && j < cols
    requires forall k | 0 <= k < |cs| :: (cs[k].row + rowOffset, cs[k].col + colOffset) != (i, j)
    ensures Scatter(Shift(cs, rowOffset, colOffset), rows, cols)[i][j] == 0
  {
    ValueAtMissing(Shift(cs, rowOffset, colOffset), i, j);
    ScatterAt(Shift(cs, rowOffset, colOffset), rows, cols, i, j);
  }

  /** Scattering only zeros gives the zero matrix. */
  lemma ScatterZeros(cs: seq<Coefficient>, rows: nat, cols: nat)
    requires AllInBounds(cs, rows, cols)
    requires forall k | 0 <= k < |cs| :: cs[k].value == 0
    ensures Scatter(cs, rows, cols) == Zeros(rows, cols)
  {
    forall i, j | 0 <= i < rows && 0 <= j < cols
      ensures Scatter(cs, rows, cols)[i][j] == 0
    {
      ValueAtZeros(cs, i, j);
      ScatterAt(cs, rows, cols, i, j);
    }
    Extensional(Scatter(cs, rows, cols), Zeros(rows, cols));
  }

  // ------------------------------------------------ indexed spectra

  /** Distinct indices give coefficients at distinct positions. */
  lemma CoefficientsDistinct(indices: seq<(nat, nat)>, spectrum: seq<int>)
    requires |indices| == |spectrum| && Distinct(indices)
    ensures DistinctPositions(Coefficients(indices, spectrum))
  {
    var cs := Coefficients(indices, spectrum);
    forall i, j | 0 <= i < j < |cs|
      ensures (cs[i].row, cs[i].col) != (cs[j].row, cs[j].col)
    {
      assert indices[i] != indices[j];
    }
  }

  /** Scattering an indexed spectrum, shifted, puts spectrum[k] at indices[k] plus the offsets. */
  lemma SpectrumPlacedAt(indices: seq<(nat, nat)>, spectrum: seq<int>, rows: nat, cols: nat,
                         rowOffset: nat, colOffset: nat, k: nat)
    requires |indices| == |spectrum| && Distinct(indices) && k < |indices|
    requires AllInBounds(Shift(Coefficients(indices, spectrum), rowOffset, colOffset), rows, cols)
    ensures indices[k].0 + rowOffset < rows && indices[k].1 + colOffset < cols
    ensures Scatter(Shift(Coefficients(indices, spectrum), rowOffset, colOffset), rows, cols)
              [indices[k].0 + rowOffset][indices[k].1 + colOffset] == spectrum[k]
  {
    var cs := Coefficients(indices, spectrum);
    CoefficientsDistinct(indices, spectrum);
    ScatterShiftedAt(cs, rows, cols, rowOffset, colOffset, k);
  }

  /** No index, shifted by the offsets, names position (i, j). */
  predicate MissesCell(indices: seq<(nat, nat)>, rowOffset: nat, colOffset: nat, i: nat, j: nat) {
    forall k | 0 <= k < |indices| :: (indices[k].0 + rowOffset, indices[k].1 + colOffset) != (i, j)
  }

  /** ... and 0 at a position that no shifted index names. */
  lemma SpectrumMissingAt(indices: seq<(nat, nat)>, spectrum: seq<int>, rows: nat, cols: nat,
                          rowOffset: nat, colOffset: nat, i: nat, j: nat)
    requires |indices| == |spectrum| && i < rows && j < cols
    requires AllInBounds(Shift(Coefficients(indices, spectrum), rowOffset, colOffset), rows, cols)
    requires MissesCell(indices, rowOffset, colOffset, i, j)
    ensures Scatter(Shift(Coefficients(indices, spectrum), rowOffset, colOffset), rows, cols)[i][j] == 0
  {
    var cs := Coefficients(indices, spectrum);
    assert forall k | 0 <= k < |cs| :: (cs[k].row + rowOffset, cs[k].col + colOffset) != (i, j);
    ScatterShiftedElsewhere(cs, rows, cols, rowOffset, colOffset, i, j);
  }

  /** An all-zero spectrum scatters, at any offsets, to the zero matrix. */
  lemma ZeroSpectrumScatter(indices: seq<(nat, nat)>, spectrum: seq<int>, rows: nat, cols: nat,
                            rowOffset: nat, colOffset: nat)
    requires |indices| == |spectrum|
    requires AllInBounds(Shift(Coefficients(indices, spectrum), rowOffset, colOffset), rows, cols)
    requires forall k | 0 <= k < |spectrum| :: spectrum[k] == 0
    ensures Scatter(Shift(Coefficients(indices, spectrum), rowOffset, colOffset), rows, cols) == Zeros(rows, cols)
  {
    ScatterZeros(Shift(Coefficients(indices, spectrum), rowOffset, colOffset), rows, cols);
  }
}
