/**
  The shape side of one level of 2D wavelet reconstruction: splitting the
  padded coefficient matrix into its four sub-bands, and centre-cropping the
  reconstruction back to the layer's shape.
 */
module Subbands {
  import opened Matrix

  /** Approximation (cA) and horizontal, vertical and diagonal detail (cH, cV, cD). */
  datatype Quadrants = Quadrants(ca: Mat, ch: Mat, cv: Mat, cd: Mat)

  /** Rows r0 .. r1-1 and columns c0 .. c1-1 of `m`. */
  function Block(m: Mat, r0: nat, r1: nat, c0: nat, c1: nat): (b: Mat)
    requires r0 <= r1 <= |m| && c0 <= c1
    requires forall i | r0 <= i < r1 :: c1 <= |m[i]|
    ensures IsMat(b, r1 - r0, c1 - c0)
    ensures forall i, j | 0 <= i < r1 - r0 && 0 <= j < c1 - c0 :: b[i][j] == m[r0 + i][c0 + j]
  {
    seq(r1 - r0, i requires 0 <= i < r1 - r0 => m[r0 + i][c0..c1])
  }

  /**
    Splits an H x W matrix at row H/2 and column W/2: cA is the top-left,
    cH the top-right, cV the bottom-left and cD the bottom-right block.
   */
  function Split(m: Mat, h: nat, w: nat): (q: Quadrants)
    requires IsMat(m, h, w)
    ensures IsMat(q.ca, h / 2, w / 2) && IsMat(q.ch, h / 2, w - w / 2)
    ensures IsMat(q.cv, h - h / 2, w / 2) && IsMat(q.cd, h - h / 2, w - w / 2)
  {
    var h2 := h / 2;
    var w2 := w / 2;
    Quadrants(Block(m, 0, h2, 0, w2), Block(m, 0, h2, w2, w), Block(m, h2, h, 0, w2), Block(m, h2, h, w2, w))
  }

  /** All four sub-bands are `rows` x `cols`. */
  predicate Aligned(q: Quadrants, rows: nat, cols: nat) {
    IsMat(q.ca, rows, cols) && IsMat(q.ch, rows, cols) && IsMat(q.cv, rows, cols) && IsMat(q.cd, rows, cols)
  }

  /** Puts the four blocks back side by side: cA|cH over cV|cD. */
  function Assemble(q: Quadrants): Mat
    requires |q.ca| == |q.ch| && |q.cv| == |q.cd|
  {
    seq(|q.ca|, i requires 0 <= i < |q.ca| => q.ca[i] + q.ch[i])
      + seq(|q.cv|, i requires 0 <= i < |q.cv| => q.cv[i] + q.cd[i])
  }

  /**
    Of an even H x W matrix, the split gives four H/2 x W/2 sub-bands placed
    at the four corners.
   */
  lemma SplitQuadrants(m: Mat, h: nat, w: nat)
    requires IsMat(m, h, w) && h % 2 == 0 && w % 2 == 0
    ensures Aligned(Split(m, h, w), h / 2, w / 2)
    ensures var q := Split(m, h, w);
      forall i, j | 0 <= i < h / 2 && 0 <= j < w / 2 :: q.ca[i][j] == m[i][j]
    ensures var q := Split(m, h, w);
      forall i, j | 0 <= i < h / 2 && 0 <= j < w / 2 :: q.ch[i][j] == m[i][w / 2 + j]
    ensures var q := Split(m, h, w);
      forall i, j | 0 <= i < h / 2 && 0 <= j < w / 2 :: q.cv[i][j] == m[h / 2 + i][j]
    ensures var q := Split(m, h, w);
      forall i, j | 0 <= i < h / 2 && 0 <= j < w / 2 :: q.cd[i][j] == m[h / 2 + i][w / 2 + j]
  {
  }

  /** Splitting the zero matrix gives four zero sub-bands. */
  lemma SplitZeros(h: nat, w: nat)
    ensures var q := Split(Zeros(h, w), h, w);
      AllZero(q.ca) && AllZero(q.ch) && AllZero(q.cv) && AllZero(q.cd)
  {
  }

  /** The four sub-bands partition the matrix: reassembled, they give it back. */
  lemma SplitPartitions(m: Mat, h: nat, w: nat)
    requires IsMat(m, h, w)
    ensures Assemble(Split(m, h, w)) == m
  {
    var q := Split(m, h, w);
    var a := Assemble(q);
    var h2, w2 := h / 2, w / 2;
    forall i | 0 <= i < h
      ensures a[i] == m[i]
    {
      if i < h2 {
        assert a[i] == q.ca[i] + q.ch[i];
        assert q.ca[i] == m[i][..w2] && q.ch[i] == m[i][w2..];
      } else {
        assert a[i] == q.cv[i - h2] + q.cd[i - h2];
        assert q.cv[i - h2] == m[i][..w2] && q.cd[i - h2] == m[i][w2..];
      }
      assert m[i] == m[i][..w2] + m[i][w2..];
    }
  }

  /**
    The rows x cols window centred in `m`: it starts (|m| - rows)/2 rows and
    (Width(m) - cols)/2 columns in, rounding toward the top-left.
   */
  function CentreCrop(m: Mat, rows: nat, cols: nat): (r: Mat)
    requires IsRect(m) && rows <= |m| && cols <= Width(m)
    ensures IsMat(r, rows, cols)
    ensures forall i, j | 0 <= i < rows && 0 <= j < cols ::
      r[i][j] == m[i + (|m| - rows) / 2][j + (Width(m) - cols) / 2]
  {
    var top := (|m| - rows) / 2;
    var left := (Width(m) - cols) / 2;
    Block(m, top, top + rows, left, left + cols)
  }

  /** Cropping to the matrix's own size returns it unchanged. */
  lemma CropToOwnSize(m: Mat, rows: nat, cols: nat)
    requires IsMat(m, rows, cols) && rows > 0
    ensures CentreCrop(m, rows, cols) == m
  {
    Extensional(CentreCrop(m, rows, cols), m);
  }

  /**
    Brings a reconstruction to exactly rows x cols: the centred window when
    its size differs, the matrix itself when it already has that size.
   */
  function FitTo(m: Mat, rows: nat, cols: nat): (r: Mat)
    requires IsRect(m) && rows <= |m| && cols <= Width(m)
    ensures IsMat(r, rows, cols)
    ensures forall i, j | 0 <= i < rows && 0 <= j < cols ::
      r[i][j] == m[i + (|m| - rows) / 2][j + (Width(m) - cols) / 2]
    ensures |m| == rows && Width(m) == cols ==> r == m
  {
    if |m| != rows || Width(m) != cols then CentreCrop(m, rows, cols) else m
  }

  /** Fitting an all-zero matrix gives the zero matrix. */
  lemma FitZeros(m: Mat, rows: nat, cols: nat)
    requires IsRect(m) && rows <= |m| && cols <= Width(m) && AllZero(m)
    ensures FitTo(m, rows, cols) == Zeros(rows, cols)
  {
    Extensional(FitTo(m, rows, cols), Zeros(rows, cols));
  }
}
