/**
  Per-layer adapter state: configuring an adapter (`update_layer`), zeroing
  its spectrum, and computing its dense delta weight in direct or IDWT mode.
 */
module WaveLayer {
  import opened Results
  import opened Matrix
  import opened Wavelets
  import opened Spectrum
  import opened Subbands

  /** One adapter's configuration; `indices` and `spectrum` run in parallel. */
  datatype Adapter = Adapter(
    nFrequency: nat,
    scaling: int,
    randomLocSeed: int,
    waveletFamily: string,
    indices: seq<(nat, nat)>,
    spectrum: seq<int>)

  /** An out x in layer with its adapters by name; `useIdwt` selects the delta path. */
  datatype Layer = Layer(inFeatures: nat, outFeatures: nat, useIdwt: bool, adapters: map<string, Adapter>)

  datatype ConfigError =
    | NonPositiveFrequency(nFrequency: int)
    | FrequencyExceedsGrid(nFrequency: int, gridSize: nat)
    | UnsupportedFamily(family: string)

  /** The inverse wavelet transform, supplied from outside: sub-bands and family name to a matrix. */
  type Waverec = (Quadrants, string) -> Mat

  /**
    What the padding assumes of the inverse transform: for a family in the
    reduction table, four aligned r x c sub-bands reconstruct to a
    rectangular matrix that falls short of 2r x 2c by at most the family's
    (rows, cols) reduction. The padded grid is grown by that reduction so
    that the reconstruction still covers the layer.
   */
  ghost predicate ShortfallWithinReduction(waverec: Waverec) {
    forall q: Quadrants, family: string ::
      Reductions(family).Some? && Aligned(q, |q.ca|, Width(q.ca)) ==>
        var m := waverec(q, family);
        && IsRect(m)
        && |m| + Reductions(family).value.0 >= 2 * |q.ca|
        && Width(m) + Reductions(family).value.1 >= 2 * Width(q.ca)
  }

  /** The adapter's own data fits an out x in grid: n distinct in-range positions and n values. */
  predicate SpectrumFits(a: Adapter, outFeatures: nat, inFeatures: nat) {
    && 0 < a.nFrequency <= outFeatures * inFeatures
    && |a.indices| == a.nFrequency
    && |a.spectrum| == a.nFrequency
    && (forall k | 0 <= k < |a.indices| :: a.indices[k].0 < outFeatures && a.indices[k].1 < inFeatures)
    && Distinct(a.indices)
  }

  /** The adapter fits an out x in layer, with a supported family: what `update_layer` establishes. */
  predicate AdapterFits(a: Adapter, outFeatures: nat, inFeatures: nat) {
    SpectrumFits(a, outFeatures, inFeatures) && Reductions(a.waveletFamily).Some?
  }

  predicate WellFormed(layer: Layer) {
    forall name | name in layer.adapters :: AdapterFits(layer.adapters[name], layer.outFeatures, layer.inFeatures)
  }

  // --------------------------------------------------------- configuration

  /**
    The checks update_layer makes, in order: a positive frequency count, at
    most the grid size, and a family in the reduction table; the first that
    fails gives the error.
   */
  function CheckConfig(nFrequency: int, gridSize: nat, waveletFamily: string): (e: Option<ConfigError>)
    ensures e.None? <==> 0 < nFrequency <= gridSize && Reductions(waveletFamily).Some?
    ensures nFrequency <= 0 <==> e == Some(NonPositiveFrequency(nFrequency))
    ensures 0 < nFrequency && nFrequency > gridSize <==> e == Some(FrequencyExceedsGrid(nFrequency, gridSize))
    ensures 0 < nFrequency <= gridSize && Reductions(waveletFamily).None?
      <==> e == Some(UnsupportedFamily(waveletFamily))
  {
    if nFrequency <= 0 then Some(NonPositiveFrequency(nFrequency))
    else if nFrequency > gridSize then Some(FrequencyExceedsGrid(nFrequency, gridSize))
    else if Reductions(waveletFamily).None? then Some(UnsupportedFamily(waveletFamily))
    else None
  }

  /** A grid with room for a positive number of positions has a column. */
  lemma GridHasColumns(n: nat, outFeatures: nat, inFeatures: nat)
    requires 0 < n <= outFeatures * inFeatures
    ensures inFeatures > 0
  {
  }

  /**
    update_layer: validates the frequency count and the family, then registers
    the adapter under `name`, replacing any adapter of that name. `perm` is the
    seeded random permutation of the flattened grid and `noise` the random
    initial spectrum; both come from the random number generator.
   */
  function UpdateLayer(layer: Layer, name: string, nFrequency: int, scaling: int, initWeights: bool,
                       randomLocSeed: int, waveletFamily: string, perm: seq<nat>, noise: nat -> int)
    : (r: Result<Layer, ConfigError>)
    requires IsPermutation(perm, layer.outFeatures * layer.inFeatures)
    ensures r.Ok? <==> 0 < nFrequency <= layer.outFeatures * layer.inFeatures && Reductions(waveletFamily).Some?
    ensures nFrequency <= 0 <==> r == Err(NonPositiveFrequency(nFrequency))
    ensures 0 < nFrequency && nFrequency > layer.outFeatures * layer.inFeatures
      <==> r == Err(FrequencyExceedsGrid(nFrequency, layer.outFeatures * layer.inFeatures))
    ensures 0 < nFrequency <= layer.outFeatures * layer.inFeatures && Reductions(waveletFamily).None?
      <==> r == Err(UnsupportedFamily(waveletFamily))
    ensures r.Ok? ==>
      && r.value.inFeatures == layer.inFeatures && r.value.outFeatures == layer.outFeatures
      && r.value.useIdwt == layer.useIdwt
      && r.value.adapters.Keys == layer.adapters.Keys + {name}
      && (forall other | other in layer.adapters && other != name :: r.value.adapters[other] == layer.adapters[other])
  {
    var grid := layer.outFeatures * layer.inFeatures;
    var check := CheckConfig(nFrequency, grid, waveletFamily);
    if check.Some? then Err(check.value)
    else
      var a := NewAdapter(nFrequency as nat, scaling, randomLocSeed, waveletFamily, perm, noise,
                          layer.outFeatures, layer.inFeatures);
      Ok(Install(layer, name, a, initWeights))
  }

  /**
    The adapter update_layer creates: its positions are the first n entries
    of the permutation, split row-major, and its spectrum is the initial
    noise.
   */
  function NewAdapter(n: nat, scaling: int, randomLocSeed: int, waveletFamily: string, perm: seq<nat>,
                      noise: nat -> int, outFeatures: nat, inFeatures: nat): (a: Adapter)
    requires IsPermutation(perm, outFeatures * inFeatures) && 0 < n <= outFeatures * inFeatures
    ensures a.nFrequency == n && a.scaling == scaling && a.randomLocSeed == randomLocSeed
    ensures a.waveletFamily == waveletFamily
    ensures SpectrumFits(a, outFeatures, inFeatures)
    ensures forall k | 0 <= k < |a.indices| :: Flatten(a.indices[k], inFeatures) == perm[k]
    ensures forall k | 0 <= k < |a.spectrum| :: a.spectrum[k] == noise(k)
  {
    GridHasColumns(n, outFeatures, inFeatures);
    SampleIndicesInGrid(perm, n, outFeatures, inFeatures);
    Adapter(n, scaling, randomLocSeed, waveletFamily, SampleIndices(perm, n, inFeatures),
            seq(n, k requires 0 <= k < n => noise(k)))
  }

  /**
    The registration step of update_layer: `a` is stored under `name`,
    replacing any adapter of that name, and its spectrum is zeroed when
    `initWeights` is set.
   */
  function Install(layer: Layer, name: string, a: Adapter, initWeights: bool): (r: Layer)
    ensures r.inFeatures == layer.inFeatures && r.outFeatures == layer.outFeatures && r.useIdwt == layer.useIdwt
    ensures r.adapters.Keys == layer.adapters.Keys + {name}
    ensures forall other | other in layer.adapters && other != name :: r.adapters[other] == layer.adapters[other]
    ensures !initWeights ==> r.adapters[name] == a
    ensures initWeights ==> var z := r.adapters[name];
      z == a.(spectrum := z.spectrum) && |z.spectrum| == |a.spectrum| &&
      forall k | 0 <= k < |z.spectrum| :: z.spectrum[k] == 0
  {
    var registered := layer.(adapters := layer.adapters[name := a]);
    if initWeights then ResetWaveParameters(registered, name) else registered
  }

  /** reset_wave_parameters: zeroes the named adapter's spectrum, if the adapter exists. */
  function ResetWaveParameters(layer: Layer, name: string): (r: Layer)
    ensures r.inFeatures == layer.inFeatures && r.outFeatures == layer.outFeatures && r.useIdwt == layer.useIdwt
    ensures r.adapters.Keys == layer.adapters.Keys
    ensures forall other | other in layer.adapters && other != name :: r.adapters[other] == layer.adapters[other]
    ensures name in layer.adapters ==>
      var a, z := layer.adapters[name], r.adapters[name];
      z == a.(spectrum := z.spectrum) && |z.spectrum| == |a.spectrum| &&
      forall k | 0 <= k < |z.spectrum| :: z.spectrum[k] == 0
    ensures name !in layer.adapters ==> r == layer
  {
    if name in layer.adapters then
      var a := layer.adapters[name];
      layer.(adapters := layer.adapters[name := a.(spectrum := seq(|a.spectrum|, _ => 0))])
    else layer
  }

  /**
    A successful update_layer registers an adapter that fits the layer: n
    distinct positions inside the grid, each the position of the flat index
    at the same place in the permutation, and a spectrum of n values that
    are all zero when zero initialisation is asked for.
   */
  lemma UpdateLayerRegisters(layer: Layer, name: string, nFrequency: int, scaling: int, initWeights: bool,
                             randomLocSeed: int, waveletFamily: string, perm: seq<nat>, noise: nat -> int)
    requires IsPermutation(perm, layer.outFeatures * layer.inFeatures)
    requires WellFormed(layer)
    ensures var r := UpdateLayer(layer, name, nFrequency, scaling, initWeights, randomLocSeed, waveletFamily, perm, noise);
      r.Ok? ==>
        && WellFormed(r.value)
        && var a := r.value.adapters[name];
        && a.nFrequency == nFrequency && a.scaling == scaling
        && a.randomLocSeed == randomLocSeed && a.waveletFamily == waveletFamily
        && (forall k | 0 <= k < |a.indices| :: Flatten(a.indices[k], layer.inFeatures) == perm[k])
        && (initWeights ==> forall k | 0 <= k < |a.spectrum| :: a.spectrum[k] == 0)
        && (!initWeights ==> forall k | 0 <= k < |a.spectrum| :: a.spectrum[k] == noise(k))
  {
    if 0 < nFrequency <= layer.outFeatures * layer.inFeatures && Reductions(waveletFamily).Some? {
      var a := NewAdapter(nFrequency as nat, scaling, randomLocSeed, waveletFamily, perm, noise,
                          layer.outFeatures, layer.inFeatures);
      assert UpdateLayer(layer, name, nFrequency, scaling, initWeights, randomLocSeed, waveletFamily, perm, noise)
        == Ok(Install(layer, name, a, initWeights));
      InstallKeepsWellFormed(layer, name, a, initWeights);
    }
  }

  /** Installing an adapter that fits keeps a well-formed layer well-formed. */
  lemma InstallKeepsWellFormed(layer: Layer, name: string, a: Adapter, initWeights: bool)
    requires WellFormed(layer) && AdapterFits(a, layer.outFeatures, layer.inFeatures)
    ensures WellFormed(Install(layer, name, a, initWeights))
  {
    RegisterKeepsWellFormed(layer, name, a);
    if initWeights {
      ResetKeepsWellFormed(layer.(adapters := layer.adapters[name := a]), name);
    }
  }

  /** Registering an adapter that fits keeps a well-formed layer well-formed. */
  lemma RegisterKeepsWellFormed(layer: Layer, name: string, a: Adapter)
    requires WellFormed(layer) && AdapterFits(a, layer.outFeatures, layer.inFeatures)
    ensures WellFormed(layer.(adapters := layer.adapters[name := a]))
  {
  }

  /** Zeroing a spectrum keeps a well-formed layer well-formed. */
  lemma ResetKeepsWellFormed(layer: Layer, name: string)
    requires WellFormed(layer)
    ensures WellFormed(ResetWaveParameters(layer, name))
  {
    if name in layer.adapters {
      var a := layer.adapters[name];
      var z := a.(spectrum := seq(|a.spectrum|, _ => 0));
      assert AdapterFits(z, layer.outFeatures, layer.inFeatures) by {
        assert AdapterFits(a, layer.outFeatures, layer.inFeatures);
      }
      RegisterKeepsWellFormed(layer, name, z);
    }
  }

  // ---------------------------------------------------------- delta weight

  /** Direct mode: the spectrum scattered into an out x in zero matrix, times the scaling. */
  function DirectDelta(a: Adapter, outFeatures: nat, inFeatures: nat): (d: Mat)
    requires SpectrumFits(a, outFeatures, inFeatures)
    ensures IsMat(d, outFeatures, inFeatures)
  {
    Scale(Scatter(Coefficients(a.indices, a.spectrum), outFeatures, inFeatures), a.scaling)
  }

  /** The padded grid for a (rows, cols) reduction: each side plus its reduction, made even. */
  function PaddedShape(reduction: (nat, nat), outFeatures: nat, inFeatures: nat): (shape: (nat, nat))
    ensures shape.0 % 2 == 0 && shape.1 % 2 == 0
    ensures outFeatures + reduction.0 <= shape.0 <= outFeatures + reduction.0 + 1
    ensures inFeatures + reduction.1 <= shape.1 <= inFeatures + reduction.1 + 1
  {
    (PaddedDim(outFeatures, reduction.0), PaddedDim(inFeatures, reduction.1))
  }

  /** The offsets that centre the out x in grid inside the padded one. */
  function Offsets(reduction: (nat, nat), outFeatures: nat, inFeatures: nat): (off: (nat, nat))
    ensures outFeatures + off.0 <= PaddedShape(reduction, outFeatures, inFeatures).0
    ensures inFeatures + off.1 <= PaddedShape(reduction, outFeatures, inFeatures).1
    ensures reduction.0 % 2 == 0 ==> off.0 == reduction.0 / 2
    ensures reduction.1 % 2 == 0 ==> off.1 == reduction.1 / 2
  {
    var shape := PaddedShape(reduction, outFeatures, inFeatures);
    (CentreOffset(shape.0, outFeatures), CentreOffset(shape.1, inFeatures))
  }

  /**
    IDWT mode, steps up to the scatter: the spectrum placed, centred, in a
    zero matrix of the padded shape, after dropping positions that fall
    outside it.
   */
  function PaddedSpectrum(a: Adapter, reduction: (nat, nat), outFeatures: nat, inFeatures: nat): (m: Mat)
    requires SpectrumFits(a, outFeatures, inFeatures)
    ensures IsMat(m, PaddedShape(reduction, outFeatures, inFeatures).0, PaddedShape(reduction, outFeatures, inFeatures).1)
  {
    var shape := PaddedShape(reduction, outFeatures, inFeatures);
    var off := Offsets(reduction, outFeatures, inFeatures);
    var shifted := Shift(Coefficients(a.indices, a.spectrum), off.0, off.1);
    Scatter(KeepInBounds(shifted, shape.0, shape.1), shape.0, shape.1)
  }

  /**
    IDWT mode, the reconstruction: the padded spectrum split into four
    sub-bands, passed through the inverse transform and scaled. It is at
    least out x in, since the padded grid is.
   */
  function ScaledReconstruction(a: Adapter, reduction: (nat, nat), outFeatures: nat, inFeatures: nat,
                                waverec: Waverec): (rec: Mat)
    requires SpectrumFits(a, outFeatures, inFeatures) && Reductions(a.waveletFamily) == Some(reduction)
    requires ShortfallWithinReduction(waverec)
    ensures IsRect(rec) && outFeatures <= |rec| && inFeatures <= Width(rec)
  {
    var shape := PaddedShape(reduction, outFeatures, inFeatures);
    var dense := PaddedSpectrum(a, reduction, outFeatures, inFeatures);
    SplitQuadrants(dense, shape.0, shape.1);
    Scale(waverec(Split(dense, shape.0, shape.1), a.waveletFamily), a.scaling)
  }

  /** IDWT mode: the family's reconstruction, centre-cropped to out x in when its size differs. */
  function IdwtDelta(a: Adapter, outFeatures: nat, inFeatures: nat, waverec: Waverec): (d: Mat)
    requires AdapterFits(a, outFeatures, inFeatures) && ShortfallWithinReduction(waverec)
    ensures IsMat(d, outFeatures, inFeatures)
  {
    FitTo(ScaledReconstruction(a, Reductions(a.waveletFamily).value, outFeatures, inFeatures, waverec), outFeatures, inFeatures)
  }

  /** get_delta_weight: the adapter's out x in additive update. */
  function DeltaWeight(layer: Layer, name: string, waverec: Waverec): (d: Mat)
    requires WellFormed(layer) && name in layer.adapters && (layer.useIdwt ==> ShortfallWithinReduction(waverec))
    ensures IsMat(d, layer.outFeatures, layer.inFeatures)
  {
    var a := layer.adapters[name];
    if layer.useIdwt then IdwtDelta(a, layer.outFeatures, layer.inFeatures, waverec)
    else DirectDelta(a, layer.outFeatures, layer.inFeatures)
  }

  // ------------------------------------------------ delta weight properties

  /**
    Direct mode puts spectrum[k] * scaling at indices[k] for every k, and 0
    at every position that is not one of the indices.
   */
  lemma DirectDeltaPlacement(a: Adapter, outFeatures: nat, inFeatures: nat)
    requires SpectrumFits(a, outFeatures, inFeatures)
    ensures var d := DirectDelta(a, outFeatures, inFeatures);
      forall k | 0 <= k < |a.indices| :: d[a.indices[k].0][a.indices[k].1] == a.spectrum[k] * a.scaling
    ensures var d := DirectDelta(a, outFeatures, inFeatures);
      forall i, j | 0 <= i < outFeatures && 0 <= j < inFeatures && (i, j) !in a.indices :: d[i][j] == 0
  {
    var cs := Coefficients(a.indices, a.spectrum);
    var scattered := Scatter(cs, outFeatures, inFeatures);
    var d := DirectDelta(a, outFeatures, inFeatures);
    assert d == Scale(scattered, a.scaling);
    CoefficientsDistinct(a.indices, a.spectrum);
    forall k | 0 <= k < |a.indices|
      ensures d[a.indices[k].0][a.indices[k].1] == a.spectrum[k] * a.scaling
    {
      assert cs[k] == Coefficient(a.indices[k].0, a.indices[k].1, a.spectrum[k]);
      ValueAtDistinct(cs, k);
      ScatterAt(cs, outFeatures, inFeatures, cs[k].row, cs[k].col);
    }
    forall i, j | 0 <= i < outFeatures && 0 <= j < inFeatures && (i, j) !in a.indices
      ensures d[i][j] == 0
    {
      forall k | 0 <= k < |cs|
        ensures (cs[k].row, cs[k].col) != (i, j)
      {
        assert a.indices[k] in a.indices;
      }
      ValueAtMissing(cs, i, j);
      ScatterAt(cs, outFeatures, inFeatures, i, j);
    }
  }

  /**
    For a supported family the padded grid is even in both sizes and at most
    one larger than the layer plus the reduction, and the centring offsets
    are exactly half the reduction.
   */
  lemma FamilyPadding(a: Adapter, outFeatures: nat, inFeatures: nat)
    requires Reductions(a.waveletFamily).Some?
    ensures var red := Reductions(a.waveletFamily).value;
      var shape := PaddedShape(red, outFeatures, inFeatures);
      && shape.0 % 2 == 0 && shape.1 % 2 == 0
      && outFeatures + red.0 <= shape.0 <= outFeatures + red.0 + 1
      && inFeatures + red.1 <= shape.1 <= inFeatures + red.1 + 1
      && Offsets(red, outFeatures, inFeatures) == (red.0 / 2, red.1 / 2)
  {
    var red := Reductions(a.waveletFamily).value;
    EvenReductionCentres(outFeatures, red.0);
    EvenReductionCentres(inFeatures, red.1);
  }

  /**
    The bounds filter drops nothing: every shifted index stays inside the
    padded grid, so the padded spectrum is the scatter of all of them.
   */
  lemma PaddingKeepsEveryIndex(a: Adapter, reduction: (nat, nat), outFeatures: nat, inFeatures: nat)
    requires SpectrumFits(a, outFeatures, inFeatures)
    ensures var shape := PaddedShape(reduction, outFeatures, inFeatures);
      var off := Offsets(reduction, outFeatures, inFeatures);
      var shifted := Shift(Coefficients(a.indices, a.spectrum), off.0, off.1);
      && AllInBounds(shifted, shape.0, shape.1)
      && KeepInBounds(shifted, shape.0, shape.1) == shifted
      && PaddedSpectrum(a, reduction, outFeatures, inFeatures) == Scatter(shifted, shape.0, shape.1)
  {
    var shape := PaddedShape(reduction, outFeatures, inFeatures);
    var off := Offsets(reduction, outFeatures, inFeatures);
    var cs := Coefficients(a.indices, a.spectrum);
    ShiftStaysInBounds(cs, outFeatures, inFeatures, shape.0, shape.1, off.0, off.1);
    KeepAllInBounds(Shift(cs, off.0, off.1), shape.0, shape.1);
  }

  /** IDWT mode places spectrum[k] at indices[k] shifted by the centring offsets. */
  lemma PaddedSpectrumAt(a: Adapter, reduction: (nat, nat), outFeatures: nat, inFeatures: nat, k: nat)
    requires SpectrumFits(a, outFeatures, inFeatures) && k < |a.indices|
    ensures var shape := PaddedShape(reduction, outFeatures, inFeatures);
      var off := Offsets(reduction, outFeatures, inFeatures);
      a.indices[k].0 + off.0 < shape.0 && a.indices[k].1 + off.1 < shape.1
    ensures var off := Offsets(reduction, outFeatures, inFeatures);
      PaddedSpectrum(a, reduction, outFeatures, inFeatures)[a.indices[k].0 + off.0][a.indices[k].1 + off.1]
        == a.spectrum[k]
  {
    var shape := PaddedShape(reduction, outFeatures, inFeatures);
    var off := Offsets(reduction, outFeatures, inFeatures);
    PaddingKeepsEveryIndex(a, reduction, outFeatures, inFeatures);
    SpectrumPlacedAt(a.indices, a.spectrum, shape.0, shape.1, off.0, off.1, k);
  }

  /** In IDWT mode, a padded position that no shifted index names holds 0. */
  lemma PaddedSpectrumElsewhere(a: Adapter, reduction: (nat, nat), outFeatures: nat, inFeatures: nat, i: nat, j: nat)
    requires SpectrumFits(a, outFeatures, inFeatures)
    requires i < PaddedShape(reduction, outFeatures, inFeatures).0 && j < PaddedShape(reduction, outFeatures, inFeatures).1
    requires MissesCell(a.indices, Offsets(reduction, outFeatures, inFeatures).0,
                        Offsets(reduction, outFeatures, inFeatures).1, i, j)
    ensures PaddedSpectrum(a, reduction, outFeatures, inFeatures)[i][j] == 0
  {
    var shape := PaddedShape(reduction, outFeatures, inFeatures);
    var off := Offsets(reduction, outFeatures, inFeatures);
    var shifted := Shift(Coefficients(a.indices, a.spectrum), off.0, off.1);
    PaddingKeepsEveryIndex(a, reduction, outFeatures, inFeatures);
    assert Scatter(shifted, shape.0, shape.1)[i][j] == 0 by {
      assert |a.indices| == |a.spectrum|;
      assert AllInBounds(shifted, shape.0, shape.1);
      SpectrumMissingAt(a.indices, a.spectrum, shape.0, shape.1, off.0, off.1, i, j);
    }
  }

  /**
    The IDWT-mode delta is the centred out x in window of the scaled
    reconstruction; when the reconstruction is already out x in, the window
    is the whole of it.
   */
  lemma IdwtDeltaWindow(a: Adapter, outFeatures: nat, inFeatures: nat, waverec: Waverec)
    requires AdapterFits(a, outFeatures, inFeatures) && ShortfallWithinReduction(waverec)
    ensures var rec := ScaledReconstruction(a, Reductions(a.waveletFamily).value, outFeatures, inFeatures, waverec);
      var d := IdwtDelta(a, outFeatures, inFeatures, waverec);
      && (forall i, j | 0 <= i < outFeatures && 0 <= j < inFeatures ::
            d[i][j] == rec[i + (|rec| - outFeatures) / 2][j + (Width(rec) - inFeatures) / 2])
      && (|rec| == outFeatures && Width(rec) == inFeatures ==> d == rec)
  {
  }

  /** The inverse transform sends all-zero sub-bands to an all-zero matrix (it is linear). */
  ghost predicate PreservesZero(waverec: Waverec) {
    forall q: Quadrants, family: string ::
      AllZero(q.ca) && AllZero(q.ch) && AllZero(q.cv) && AllZero(q.cd) ==> AllZero(waverec(q, family))
  }

  predicate ZeroSpectrum(a: Adapter) {
    forall k | 0 <= k < |a.spectrum| :: a.spectrum[k] == 0
  }

  /** An all-zero spectrum pads to the zero matrix of the padded shape. */
  lemma ZeroSpectrumPadsToZeros(a: Adapter, reduction: (nat, nat), outFeatures: nat, inFeatures: nat)
    requires SpectrumFits(a, outFeatures, inFeatures) && ZeroSpectrum(a)
    ensures PaddedSpectrum(a, reduction, outFeatures, inFeatures)
      == Zeros(PaddedShape(reduction, outFeatures, inFeatures).0, PaddedShape(reduction, outFeatures, inFeatures).1)
  {
    var shape := PaddedShape(reduction, outFeatures, inFeatures);
    var off := Offsets(reduction, outFeatures, inFeatures);
    PaddingKeepsEveryIndex(a, reduction, outFeatures, inFeatures);
    ZeroSpectrumScatter(a.indices, a.spectrum, shape.0, shape.1, off.0, off.1);
  }

  /** With a zero-preserving inverse transform, an all-zero spectrum reconstructs to all zeros. */
  lemma ZeroSpectrumZeroReconstruction(a: Adapter, reduction: (nat, nat), outFeatures: nat, inFeatures: nat,
                                       waverec: Waverec)
    requires SpectrumFits(a, outFeatures, inFeatures) && Reductions(a.waveletFamily) == Some(reduction)
    requires ShortfallWithinReduction(waverec) && PreservesZero(waverec)
    requires ZeroSpectrum(a)
    ensures AllZero(ScaledReconstruction(a, reduction, outFeatures, inFeatures, waverec))
  {
    var shape := PaddedShape(reduction, outFeatures, inFeatures);
    var q := Split(PaddedSpectrum(a, reduction, outFeatures, inFeatures), shape.0, shape.1);
    assert AllZero(q.ca) && AllZero(q.ch) && AllZero(q.cv) && AllZero(q.cd) by {
      ZeroSpectrumPadsToZeros(a, reduction, outFeatures, inFeatures);
      SplitZeros(shape.0, shape.1);
    }
    var m := waverec(q, a.waveletFamily);
    assert ScaledReconstruction(a, reduction, outFeatures, inFeatures, waverec) == Scale(m, a.scaling);
    ScaleZero(m, a.scaling);
  }

  /** Direct mode: an all-zero spectrum gives the zero delta. */
  lemma ZeroSpectrumZeroDirectDelta(a: Adapter, outFeatures: nat, inFeatures: nat)
    requires SpectrumFits(a, outFeatures, inFeatures) && ZeroSpectrum(a)
    ensures DirectDelta(a, outFeatures, inFeatures) == Zeros(outFeatures, inFeatures)
  {
    var cs := Coefficients(a.indices, a.spectrum);
    assert Scatter(cs, outFeatures, inFeatures) == Zeros(outFeatures, inFeatures) by {
      ScatterZeros(cs, outFeatures, inFeatures);
    }
    Extensional(DirectDelta(a, outFeatures, inFeatures), Zeros(outFeatures, inFeatures));
  }

  /** IDWT mode: with a zero-preserving inverse transform, an all-zero spectrum gives the zero delta. */
  lemma ZeroSpectrumZeroIdwtDelta(a: Adapter, outFeatures: nat, inFeatures: nat, waverec: Waverec)
    requires AdapterFits(a, outFeatures, inFeatures) && ShortfallWithinReduction(waverec) && PreservesZero(waverec)
    requires ZeroSpectrum(a)
    ensures IdwtDelta(a, outFeatures, inFeatures, waverec) == Zeros(outFeatures, inFeatures)
  {
    var rec := ScaledReconstruction(a, Reductions(a.waveletFamily).value, outFeatures, inFeatures, waverec);
    ZeroSpectrumZeroReconstruction(a, Reductions(a.waveletFamily).value, outFeatures, inFeatures, waverec);
    FitZeros(rec, outFeatures, inFeatures);
  }

  /** An adapter whose spectrum is all zero contributes an all-zero delta in either mode. */
  lemma ZeroSpectrumZeroDelta(layer: Layer, name: string, waverec: Waverec)
    requires WellFormed(layer) && name in layer.adapters && (layer.useIdwt ==> ShortfallWithinReduction(waverec))
    requires ZeroSpectrum(layer.adapters[name])
    requires layer.useIdwt ==> PreservesZero(waverec)
    ensures DeltaWeight(layer, name, waverec) == Zeros(layer.outFeatures, layer.inFeatures)
  {
    var a := layer.adapters[name];
    if layer.useIdwt {
      ZeroSpectrumZeroIdwtDelta(a, layer.outFeatures, layer.inFeatures, waverec);
    } else {
      ZeroSpectrumZeroDirectDelta(a, layer.outFeatures, layer.inFeatures);
    }
  }

  /**
    Zeroing an adapter keeps the layer well formed, and afterwards its delta
    is all zero: with zero initialisation a fresh adapter starts as a no-op.
   */
  lemma ResetGivesZeroDelta(layer: Layer, name: string, waverec: Waverec)
    requires WellFormed(layer) && name in layer.adapters && (layer.useIdwt ==> ShortfallWithinReduction(waverec))
    requires layer.useIdwt ==> PreservesZero(waverec)
    ensures WellFormed(ResetWaveParameters(layer, name))
    ensures DeltaWeight(ResetWaveParameters(layer, name), name, waverec) == Zeros(layer.outFeatures, layer.inFeatures)
  {
    var r := ResetWaveParameters(layer, name);
    assert AdapterFits(r.adapters[name], layer.outFeatures, layer.inFeatures);
    ZeroSpectrumZeroDelta(r, name, waverec);
  }
}
