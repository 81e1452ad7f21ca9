/**
  Dense integer matrices in row-major order. Integers form an exact additive
  group, which is what lets merge followed by unmerge restore a weight
  bit-for-bit in this model.
 */
module Matrix {

  type Mat = seq<seq<int>>

  /** `m` has exactly `rows` rows, each of `cols` entries. */
  predicate IsMat(m: Mat, rows: nat, cols: nat) {
    |m| == rows && forall i | 0 <= i < |m| :: |m[i]| == cols
  }

  /** Number of columns, read off the first row. */
  function Width(m: Mat): nat {
    if |m| == 0 then 0 else |m[0]|
  }

  /** Every row has the same length. */
  predicate IsRect(m: Mat) {
    IsMat(m, |m|, Width(m))
  }

  predicate SameShape(a: Mat, b: Mat) {
    |a| == |b| && forall i | 0 <= i < |a| :: |a[i]| == |b[i]|
  }

  predicate AllZero(m: Mat) {
    forall i, j | 0 <= i < |m| && 0 <= j < |m[i]| :: m[i][j] == 0
  }

  function Zeros(rows: nat, cols: nat): (z: Mat)
    ensures IsMat(z, rows, cols) && AllZero(z)
  {
    seq(rows, _ => seq(cols, _ => 0))
  }

  /** Entry-wise sum. */
  function Add(a: Mat, b: Mat): (c: Mat)
    requires SameShape(a, b)
    ensures SameShape(c, a)
    ensures forall i, j | 0 <= i < |c| && 0 <= j < |c[i]| :: c[i][j] == a[i][j] + b[i][j]
  {
    seq(|a|, i requires 0 <= i < |a| => seq(|a[i]|, j requires 0 <= j < |a[i]| => a[i][j] + b[i][j]))
  }

  /** Entry-wise difference. */
  function Sub(a: Mat, b: Mat): (c: Mat)
    requires SameShape(a, b)
    ensures SameShape(c, a)
    ensures forall i, j | 0 <= i < |c| && 0 <= j < |c[i]| :: c[i][j] == a[i][j] - b[i][j]
  {
    seq(|a|, i requires 0 <= i < |a| => seq(|a[i]|, j requires 0 <= j < |a[i]| => a[i][j] - b[i][j]))
  }

  /** Every entry multiplied by `s`. */
  function Scale(m: Mat, s: int): (r: Mat)
    ensures SameShape(r, m)
    ensures forall i, j | 0 <= i < |r| && 0 <= j < |r[i]| :: r[i][j] == m[i][j] * s
  {
    seq(|m|, i requires 0 <= i < |m| => seq(|m[i]|, j requires 0 <= j < |m[i]| => m[i][j] * s))
  }

  /** `m` with the single entry at (i, j) overwritten by `v`. */
  function Put(m: Mat, i: nat, j: nat, v: int): (r: Mat)
    requires i < |m| && j < |m[i]|
    ensures SameShape(r, m)
  {
    m[i := m[i][j := v]]
  }

  /** Two matrices of the same shape that agree entry-wise are equal. */
  lemma Extensional(a: Mat, b: Mat)
    requires SameShape(a, b)
    requires forall i, j | 0 <= i < |a| && 0 <= j < |a[i]| :: a[i][j] == b[i][j]
    ensures a == b
  {
    forall i | 0 <= i < |a|
      ensures a[i] == b[i]
    {
      assert forall j | 0 <= j < |a[i]| :: a[i][j] == b[i][j];
    }
  }

  /** Subtracting what was added restores the original matrix. */
  lemma AddSubCancel(a: Mat, b: Mat)
    requires SameShape(a, b)
    ensures Sub(Add(a, b), b) == a
  {
    Extensional(Sub(Add(a, b), b), a);
  }

  lemma AddAssoc(a: Mat, b: Mat, c: Mat)
    requires SameShape(a, b) && SameShape(b, c)
    ensures Add(Add(a, b), c) == Add(a, Add(b, c))
  {
    Extensional(Add(Add(a, b), c), Add(a, Add(b, c)));
  }

  /** Scaling an all-zero matrix leaves it all zero. */
  lemma ScaleZero(m: Mat, s: int)
    requires AllZero(m)
    ensures AllZero(Scale(m, s))
  {
  }

  lemma AddZeros(a: Mat, rows: nat, cols: nat)
    requires IsMat(a, rows, cols)
    ensures Add(a, Zeros(rows, cols)) == a
  {
    Extensional(Add(a, Zeros(rows, cols)), a);
  }

  /** Inner product of a row with a vector. */
  function Dot(u: seq<int>, x: seq<int>): int
    requires |u| == |x|
    decreases |u|
  {
    if |u| == 0 then 0 else Dot(u[..|u| - 1], x[..|x| - 1]) + u[|u| - 1] * x[|x| - 1]
  }

  function VecAdd(u: seq<int>, v: seq<int>): (r: seq<int>)
    requires |u| == |v|
    ensures |r| == |u|
    ensures forall k | 0 <= k < |r| :: r[k] == u[k] + v[k]
  {
    seq(|u|, k requires 0 <= k < |u| => u[k] + v[k])
  }

  /** `m` times the column vector `x`: what a linear layer with weight `m` computes. */
  function MatVec(m: Mat, x: seq<int>): (y: seq<int>)
    requires forall i | 0 <= i < |m| :: |m[i]| == |x|
    ensures |y| == |m|
  {
    seq(|m|, i requires 0 <= i < |m| => Dot(m[i], x))
  }

  lemma {:induction false} DotAdd(u: seq<int>, v: seq<int>, x: seq<int>)
    requires |u| == |v| == |x|
    ensures Dot(VecAdd(u, v), x) == Dot(u, x) + Dot(v, x)
    decreases |u|
  {
    if |u| > 0 {
      var n := |u| - 1;
      assert VecAdd(u, v)[..n] == VecAdd(u[..n], v[..n]);
      DotAdd(u[..n], v[..n], x[..n]);
    }
  }

  /** The product distributes over matrix addition. */
  lemma MatVecAdd(a: Mat, b: Mat, x: seq<int>)
    requires SameShape(a, b)
    requires forall i | 0 <= i < |a| :: |a[i]| == |x|
    ensures MatVec(Add(a, b), x) == VecAdd(MatVec(a, x), MatVec(b, x))
  {
    forall i | 0 <= i < |a|
      ensures MatVec(Add(a, b), x)[i] == VecAdd(MatVec(a, x), MatVec(b, x))[i]
    {
      assert Add(a, b)[i] == VecAdd(a[i], b[i]);
      DotAdd(a[i], b[i], x);
    }
  }
}
