# WaveFT adapter layer, modelled in Dafny

WaveFT is a parameter-efficient fine-tuning adapter. Each adapter trains a
sparse set of wavelet coefficients (its *spectrum*) at `n_frequency`
pseudo-randomly chosen positions of the layer's `out x in` weight grid. The
adapter's dense update (its *delta weight*) is either:

- the spectrum scattered into the grid and scaled (direct mode), or
- the inverse 2D wavelet transform of the spectrum (IDWT mode).

The IDWT pipeline has four steps:

1. The spectrum is placed, centred, in a padded grid.
2. That grid is split into four sub-bands.
3. The sub-bands are reconstructed with the adapter's wavelet family.
4. The reconstruction is scaled and centre-cropped back to `out x in`.

A dense layer carrying such adapters can merge their deltas into its base
weight, newest on top of a stack, and unmerge them again. Its forward pass
either uses the merged weight or adds each active adapter's contribution.

The model has six modules:

- `Matrix` (matrix.dfy): integer matrices and vectors.
  - Weights are `seq<seq<int>>`.
  - Integers are an exact additive group, so merge followed by unmerge can
    be proved to restore a weight exactly.
- `Wavelets` (wavelets.dfy): the reduction table `WAVELET_REDUCTIONS` and
  the padding arithmetic.
  - The table is stated by the rule it follows, not as 74 literal rows.
    Family names are `db1`..`db38`, `sym2`..`sym20` and `coif1`..`coif17`.
    Each maps to `(r, r)`, where `r` is the family's reconstruction filter
    length minus two.
  - Lemmas check the rule against the first, a middle and the last row of
    each family.
- `Spectrum` (spectrum.dfy): position sampling and scattering.
  - Row-major decomposition of flat indices.
  - Sampling positions from a permutation.
  - Shifting, bounds filtering and a last-write-wins scatter of coefficients.
- `Subbands` (subbands.dfy): the shape side of one reconstruction level.
  - The quadrant split.
  - The centre crop.
- `WaveLayer` (layer.dfy): the per-layer adapter table.
  - `update_layer`, `reset_wave_parameters` and `get_delta_weight` in both
    modes.
- `Linear` (linear.dfy): the dense adapter layer.
  - The merged-adapter stack, `merge`, `unmerge` and the `forward` dispatch.
  - Merge, unmerge and forward read each adapter's delta and never change
    the adapters. Within one call the delta is therefore a fixed matrix per
    name.
  - The loops are stated over that table of deltas (`Deltas`), which
    `LayerDeltas` builds from the layer.

The inverse wavelet transform `waverec2d` is a parameter, `Waverec`. It
comes with two stated assumptions:

- `ShortfallWithinReduction`: for a family in the reduction table, four
  aligned `r x c` sub-bands give a rectangular matrix that falls short of
  `2r x 2c` by at most the family's reduction in each direction. The padding
  at layer.py:142-151 adds exactly that reduction so the crop back to
  `out x in` is possible. This is an assumption about the kernel, and only
  IDWT mode needs it.
- `PreservesZero`: all-zero sub-bands give an all-zero matrix. This is
  assumed only where a lemma needs it.

Other inputs that come from outside the layer are also parameters:

- `perm` is the seeded random permutation of the flattened grid.
- `noise` is the random initial spectrum.
- `finite` is the finiteness check that safe merge applies.

## Model

| member | source | states |
|---|---|---|
| Wavelets.Reductions | src/peft/tuners/waveft/layer.py:39-55 | every entry of the reduction table is a pair (r, r) with r even |
| Wavelets.ReductionsKeys | src/peft/tuners/waveft/layer.py:39-55 | a string is a key of the table exactly when it is the printed name of a supported family (db1-db38, sym2-sym20, coif1-coif17) |
| Wavelets.ReductionOfFamily | src/peft/tuners/waveft/layer.py:39-55 | the entry for each supported family is its reconstruction filter length minus two in both directions (2N-2 for dbN and symN, 6N-2 for coifN) |
| Wavelets.ParseName | src/peft/tuners/waveft/layer.py:39-55 | reading a family's printed name back gives the family: names are unambiguous |
| Wavelets.ParseFamily | src/peft/tuners/waveft/layer.py:88 | a string read as a family is that family's printed name, so no padded or foreign spelling is accepted as a key |
| Wavelets.RowDb1 | src/peft/tuners/waveft/layer.py:40 | the rule gives db1 the table's value (0, 0) |
| Wavelets.RowDb12 | src/peft/tuners/waveft/layer.py:42 | the rule gives db12 the table's value (22, 22) |
| Wavelets.RowDb38 | src/peft/tuners/waveft/layer.py:47 | the rule gives db38, the last Daubechies row, the table's value (74, 74) |
| Wavelets.RowSym2 | src/peft/tuners/waveft/layer.py:47 | the rule gives sym2, the first Symlet row, the table's value (2, 2) |
| Wavelets.RowSym11 | src/peft/tuners/waveft/layer.py:49 | the rule gives sym11 the table's value (20, 20) |
| Wavelets.RowSym20 | src/peft/tuners/waveft/layer.py:51 | the rule gives sym20, the last Symlet row, the table's value (38, 38) |
| Wavelets.RowCoif1 | src/peft/tuners/waveft/layer.py:51 | the rule gives coif1 the table's value (4, 4) |
| Wavelets.RowCoif9 | src/peft/tuners/waveft/layer.py:53 | the rule gives coif9 the table's value (52, 52) |
| Wavelets.RowCoif17 | src/peft/tuners/waveft/layer.py:54 | the rule gives coif17, the last Coiflet row, the table's value (100, 100) |
| Wavelets.OutOfRangeOrders | src/peft/tuners/waveft/layer.py:39-55 | db39, sym1 and coif18, just past each family's range, are not keys |
| Wavelets.NonCanonicalNames | src/peft/tuners/waveft/layer.py:39-55 | a zero-padded order (db01) and another family (haar) are not keys |
| Wavelets.PaddedDim | src/peft/tuners/waveft/layer.py:144-151 | a padded dimension is even and lies between orig + reduction and orig + reduction + 1 |
| Wavelets.CentreOffset | src/peft/tuners/waveft/layer.py:158-159 | the centring offset leaves room for the whole original side inside the padded one |
| Wavelets.EvenReductionCentres | src/peft/tuners/waveft/layer.py:158-159 | with an even reduction the offset is exactly half the reduction, whatever the parity of the original side |
| Spectrum.DivModUnique | src/peft/tuners/waveft/layer.py:108-110 | floor division and remainder by in are the unique (row, col) with row * in + col == v and col < in |
| Spectrum.FlattenUnflatten | src/peft/tuners/waveft/layer.py:108-110 | a flat index v < out * in splits into row v / in < out and col v % in < in with row * in + col == v |
| Spectrum.UnflattenFlatten | src/peft/tuners/waveft/layer.py:108-110 | every in-grid position is the split of exactly one flat index below out * in |
| Spectrum.SampleIndices | src/peft/tuners/waveft/layer.py:105-110 | the first n permutation entries give n positions, each with a column below in and flattening back to its entry |
| Spectrum.SampleIndicesInGrid | src/peft/tuners/waveft/layer.py:104-110 | the first n entries of a permutation of the flattened grid give n pairwise distinct in-grid positions, each the split of its permutation entry |
| Spectrum.KeepInBounds | src/peft/tuners/waveft/layer.py:168-170 | the bounds filter keeps only positions below the padded dimensions, and never more coefficients than it was given |
| Spectrum.KeepInBoundsMembers | src/peft/tuners/waveft/layer.py:168-170 | a coefficient survives the filter exactly when it was given and is in bounds |
| Spectrum.KeepAllInBounds | src/peft/tuners/waveft/layer.py:168-170 | when every position is in bounds the filter keeps the whole list in order |
| Spectrum.Shift | src/peft/tuners/waveft/layer.py:162-164 | the shift keeps every coefficient and its value, in order, and moves its position by the row and column offsets |
| Spectrum.ShiftStaysInBounds | src/peft/tuners/waveft/layer.py:158-164 | positions of the original grid shifted by offsets that fit the padded grid stay inside it |
| Spectrum.ShiftDistinct | src/peft/tuners/waveft/layer.py:162-164 | a uniform shift keeps distinct positions distinct |
| Spectrum.Scatter | src/peft/tuners/waveft/layer.py:173 | scattering in-bounds coefficients into a rows x cols grid gives a rows x cols matrix |
| Spectrum.ScatterAt | src/peft/tuners/waveft/layer.py:173 | the scattered matrix holds, at each cell, the last value written there, or 0 if none was |
| Spectrum.ScatterPlacesExactly | src/peft/tuners/waveft/layer.py:173 | with distinct positions, each value lands at its own position and every other cell is 0 |
| Spectrum.ScatterShiftedAt | src/peft/tuners/waveft/layer.py:162-173 | after a shift, the k-th value is found at the k-th position plus the offsets |
| Spectrum.ScatterShiftedElsewhere | src/peft/tuners/waveft/layer.py:162-173 | after a shift, a cell that no shifted position names holds 0 |
| Spectrum.ScatterZeros | src/peft/tuners/waveft/layer.py:154-173 | scattering only zeros gives the zero matrix |
| Spectrum.SpectrumPlacedAt | src/peft/tuners/waveft/layer.py:162-173 | for distinct indices, spectrum[k] lands at indices[k] plus the offsets |
| Spectrum.SpectrumMissingAt | src/peft/tuners/waveft/layer.py:162-173 | a cell that no shifted index names holds 0 |
| Spectrum.ZeroSpectrumScatter | src/peft/tuners/waveft/layer.py:154-173 | an all-zero spectrum scatters to the zero matrix at any offsets |
| Subbands.Split | src/peft/tuners/waveft/layer.py:176-181 | for any H x W matrix, cA is H/2 x W/2, cH is H/2 x (W - W/2), cV is (H - H/2) x W/2 and cD is (H - H/2) x (W - W/2) |
| Subbands.SplitQuadrants | src/peft/tuners/waveft/layer.py:176-181 | an even H x W matrix splits into four H/2 x W/2 blocks taken from its top-left (cA), top-right (cH), bottom-left (cV) and bottom-right (cD) corners |
| Subbands.SplitPartitions | src/peft/tuners/waveft/layer.py:176-181 | the four sub-bands put back side by side give the matrix again: they partition it |
| Subbands.SplitZeros | src/peft/tuners/waveft/layer.py:176-181 | the zero matrix splits into four zero sub-bands |
| Subbands.CentreCrop | src/peft/tuners/waveft/layer.py:190-199 | the crop is exactly rows x cols and holds the entries starting (R - rows) / 2 rows and (C - cols) / 2 columns in |
| Subbands.CropToOwnSize | src/peft/tuners/waveft/layer.py:190-199 | cropping a matrix to its own size gives it back |
| Subbands.FitTo | src/peft/tuners/waveft/layer.py:189-199 | the result is exactly rows x cols, is the centred window, and is the matrix itself when the size already matches |
| Subbands.FitZeros | src/peft/tuners/waveft/layer.py:189-199 | fitting an all-zero matrix gives the zero matrix |
| WaveLayer.CheckConfig | src/peft/tuners/waveft/layer.py:81-93 | the checks pass exactly when 0 < n_frequency <= in * out and the family is a key; otherwise the error names the first check that failed |
| WaveLayer.UpdateLayer | src/peft/tuners/waveft/layer.py:80-126 | succeeds exactly when 0 < n_frequency <= in * out and the family is a key; otherwise fails with the error of the first failing check, in the source's order; on success it keeps the shape, adds the name, and leaves every other adapter unchanged |
| WaveLayer.NewAdapter | src/peft/tuners/waveft/layer.py:95-123 | the new adapter records the given settings, fits the out x in grid with n distinct positions, takes each position from its permutation entry, and starts from the given noise |
| WaveLayer.Install | src/peft/tuners/waveft/layer.py:95-123 | registering keeps the layer's shape, adds the name, leaves every other adapter unchanged, and stores the adapter as given or, under zero initialisation, with only its spectrum zeroed |
| WaveLayer.InstallKeepsWellFormed | src/peft/tuners/waveft/layer.py:95-123 | registering an adapter that fits keeps every adapter of the layer fitting it |
| WaveLayer.UpdateLayerRegisters | src/peft/tuners/waveft/layer.py:95-123 | the registered adapter keeps the layer well-formed, records the given settings, takes its positions from the permutation entry by entry, and starts with a zero spectrum under zero initialisation or with the given noise otherwise |
| WaveLayer.ResetWaveParameters | src/peft/tuners/waveft/layer.py:128-131 | zeroes every value of the named adapter's spectrum, keeping its length and everything else, and changes nothing when the name is unknown |
| WaveLayer.ResetKeepsWellFormed | src/peft/tuners/waveft/layer.py:128-131 | zeroing a spectrum keeps every adapter fitting the layer |
| WaveLayer.DirectDelta | src/peft/tuners/waveft/layer.py:200-204 | the direct-mode delta is out x in |
| WaveLayer.DirectDeltaPlacement | src/peft/tuners/waveft/layer.py:200-204 | the direct-mode delta holds spectrum[k] * scaling at indices[k] and 0 at every cell that is not an index |
| WaveLayer.FamilyPadding | src/peft/tuners/waveft/layer.py:140-159 | for a supported family the padded grid is even, at most one larger than layer plus reduction, and the centring offsets are half the reduction |
| WaveLayer.PaddedShape | src/peft/tuners/waveft/layer.py:144-151 | each padded side is even and is the original side plus the reduction, plus one when that sum is odd |
| WaveLayer.Offsets | src/peft/tuners/waveft/layer.py:158-159 | the centring offsets leave room for the whole out x in grid inside the padded one, and are half the reduction when the reduction is even |
| WaveLayer.PaddedSpectrum | src/peft/tuners/waveft/layer.py:144-173 | the padded spectrum has the padded shape |
| WaveLayer.PaddingKeepsEveryIndex | src/peft/tuners/waveft/layer.py:157-173 | the bounds filter drops no index: every shifted index lies in the padded grid and the padded spectrum is the scatter of all of them |
| WaveLayer.PaddedSpectrumAt | src/peft/tuners/waveft/layer.py:157-173 | spectrum[k] sits at indices[k] shifted by the centring offsets, inside the padded grid |
| WaveLayer.PaddedSpectrumElsewhere | src/peft/tuners/waveft/layer.py:153-173 | every padded cell that is not a shifted index holds 0 |
| WaveLayer.ScaledReconstruction | src/peft/tuners/waveft/layer.py:175-187 | under the shortfall assumption on the kernel, the scaled reconstruction of the four sub-bands is rectangular and at least out x in, so the crop is always possible |
| WaveLayer.IdwtDelta | src/peft/tuners/waveft/layer.py:139-199 | the IDWT-mode delta is exactly out x in |
| WaveLayer.IdwtDeltaWindow | src/peft/tuners/waveft/layer.py:187-199 | the IDWT-mode delta is the centred out x in window of the scaled reconstruction, and the reconstruction itself when it is already out x in |
| WaveLayer.DeltaWeight | src/peft/tuners/waveft/layer.py:133-206 | get_delta_weight returns an out x in matrix in either mode |
| WaveLayer.ZeroSpectrumPadsToZeros | src/peft/tuners/waveft/layer.py:153-173 | an all-zero spectrum gives the zero padded matrix |
| WaveLayer.ZeroSpectrumZeroReconstruction | src/peft/tuners/waveft/layer.py:175-187 | with a zero-preserving transform, an all-zero spectrum reconstructs to all zeros |
| WaveLayer.ZeroSpectrumZeroDirectDelta | src/peft/tuners/waveft/layer.py:200-204 | in direct mode an all-zero spectrum gives the zero delta |
| WaveLayer.ZeroSpectrumZeroIdwtDelta | src/peft/tuners/waveft/layer.py:139-199 | in IDWT mode, with a zero-preserving transform, an all-zero spectrum gives the zero delta |
| WaveLayer.ZeroSpectrumZeroDelta | src/peft/tuners/waveft/layer.py:133-206 | an adapter with an all-zero spectrum has the zero delta in either mode |
| WaveLayer.ResetGivesZeroDelta | src/peft/tuners/waveft/layer.py:116-131 | after zero initialisation the layer stays well-formed and the adapter's delta is zero: a fresh zero-initialised adapter changes nothing |
| Linear.LayerDeltasValid | src/peft/tuners/waveft/layer.py:133-206 | every adapter's delta of a well-formed layer has the weight's shape |
| Linear.Unmerged | src/peft/tuners/waveft/layer.py:245-248 | the names to merge are distinct, none is excluded, and every requested name that is not excluded is among them |
| Linear.UnmergedKeepsDistinct | src/peft/tuners/waveft/layer.py:245-248 | distinct names that are none of them excluded pass through unchanged and in order |
| Linear.AdaptersToMerge | src/peft/tuners/waveft/layer.py:245-248 | a name is merged exactly when it was requested (or is active, when nothing was requested) and is not merged yet, and no name is merged twice |
| Linear.Known | src/peft/tuners/waveft/layer.py:250-251 | a name is kept exactly when it was given and has an adapter |
| Linear.SumOverKnown | src/peft/tuners/waveft/layer.py:250-251 | names without an adapter contribute nothing to the summed delta |
| Linear.Push | src/peft/tuners/waveft/layer.py:264-267 | merging one adapter keeps the weight's shape and pushes its name on top of the stack |
| Linear.MergeNames | src/peft/tuners/waveft/layer.py:250-267 | the merge loop keeps the weight's shape and the rest of the layer, and reports a failure only in a safe merge and only for a requested adapter that exists |
| Linear.PushKeepsConsistent | src/peft/tuners/waveft/layer.py:264-267 | after merging one adapter the weight is still the base plus the deltas of the stacked names |
| Linear.MergeKeepsConsistent | src/peft/tuners/waveft/layer.py:250-267 | every merge, finished or stopped by a failed check, keeps the weight equal to the base plus the stacked deltas |
| Linear.UnsafeMergePushesKnown | src/peft/tuners/waveft/layer.py:250-267 | an unchecked merge never fails and pushes exactly the requested names that have an adapter, in order |
| Linear.CandidatesPassStep | src/peft/tuners/waveft/layer.py:253-266 | every candidate of a merge passes exactly when the first one does and the rest pass from the state after merging it |
| Linear.SafeMergeSucceedsIff | src/peft/tuners/waveft/layer.py:253-266 | a safe merge succeeds exactly when every candidate weight it forms (the weight after merging the names before, plus the next adapter's delta) passes the check; one failing candidate makes it fail |
| Linear.SafeMergeAllFinite | src/peft/tuners/waveft/layer.py:253-266 | when every candidate weight the merge forms passes the check, a safe merge does what an unchecked merge does |
| Linear.SafeMergeStopsBeforeFailure | src/peft/tuners/waveft/layer.py:253-264 | when a safe merge fails at an adapter, that adapter's candidate weight failed the check and the state is what merging the names before it produced: the failing adapter changed neither the weight nor the stack |
| Linear.Merge | src/peft/tuners/waveft/layer.py:245-267 | merge keeps the weight's shape and the rest of the layer, and a failure names an existing, not yet merged adapter of a safe merge |
| Linear.UnmergeAll | src/peft/tuners/waveft/layer.py:269-279 | unmerging empties the stack, keeps the weight's shape and the rest of the layer, and changes nothing when nothing is merged |
| Linear.PopKeepsConsistent | src/peft/tuners/waveft/layer.py:276-279 | popping the newest name and subtracting its delta keeps the weight equal to the base plus the remaining stacked deltas |
| Linear.UnmergeRestores | src/peft/tuners/waveft/layer.py:269-279 | unmerging brings the weight back to its base exactly |
| Linear.UnmergeLoop | src/peft/tuners/waveft/layer.py:276-279 | the pop loop ends with an empty stack in the same state as the recursive unmerge |
| Linear.Unmerge | src/peft/tuners/waveft/layer.py:269-279 | unmerge with the layer's deltas empties the stack, keeps the shape, and is a no-op when nothing is merged |
| Linear.MergeThenUnmerge | src/peft/tuners/waveft/layer.py:245-279 | from an unmerged layer, merging any requested adapters, safely or not, and then unmerging restores the original weight |
| Linear.ApplyAdapters | src/peft/tuners/waveft/layer.py:293-301 | adding each active adapter's contribution keeps the output length |
| Linear.ApplyAdaptersIsSummedWeight | src/peft/tuners/waveft/layer.py:293-301 | adding the adapters' contributions one by one equals one product with the weight plus the summed deltas |
| Linear.ForwardWith | src/peft/tuners/waveft/layer.py:284-304 | forward gives an out-long output; only a disabled layer changes state, and afterwards nothing is merged |
| Linear.Forward | src/peft/tuners/waveft/layer.py:284-304 | forward with the layer's deltas gives an out-long output and unmerges only when adapters are disabled |
| Linear.UnmergedForward | src/peft/tuners/waveft/layer.py:293-301 | unmerged and enabled, forward computes the weight plus the active adapters' deltas applied to x |
| Linear.DisabledForwardIsBase | src/peft/tuners/waveft/layer.py:287-290 | with adapters disabled, forward unmerges everything first and applies the base weight alone |
| Linear.MergeKeepsOutput | src/peft/tuners/waveft/layer.py:245-301 | merging the active adapters of an unmerged, enabled layer does not change forward's output |
| Linear.MergePreservesForward | src/peft/tuners/waveft/layer.py:245-304 | the same, for the entry points with the layer's own deltas |

## Left out

- The numerics of `waverec2d` (layer.py:29, 187) are left out. It is a foreign kernel. The model takes it as a parameter. It assumes only that the output falls short of twice the sub-band size by at most the family's reduction, in IDWT mode, and, where stated, that zero sub-bands give zeros.
- `torch.randperm` with its seeded generator (layer.py:104-105) is a parameter `perm`, required to be a permutation of the flattened grid. The generator cannot be reproduced.
- The `randn * 0.01` initial spectrum (layer.py:122-123) is a parameter `noise`. Randomness and floating point are out of scope.
- Wavelets.Reductions: the table is stated by its rule (filter length minus two) rather than as 74 literal rows. Nine rows are checked against the rule: the first, a middle and the last of each family.
- Floating point is left out: weights, spectrum and scaling are integers. Rounding and dtype casts in forward (layer.py:285, 300, 303) are not modelled.
- The NaN/Inf test of safe merge (layer.py:259) is a parameter `finite`.
- Linear.Merge: the `ValueError` of a failed safe merge (layer.py:260-262) is a `failed` field in the outcome. The state returned with it still has the earlier adapters of the same call merged, as in the source, which raises mid-loop.
- `check_adapters_to_merge` (layer.py:245) is not part of this model. The model takes it to return the requested names, or the active ones when none are given, minus the names already merged, without repeats.
- `set_adapter`, `active_adapters`, `disable_adapters` and `merged` are not part of this model. The active list and the disable switch are fields of the state, and `merged` is "the stack is non-empty".
- `update_layer` (layer.py:126) re-applies the current active list and does not add the new adapter to it, so the model leaves the active list alone.
- Linear.Forward: the base layer's call and `F.linear` (layer.py:290-301) are modelled on one input vector as the weight times that vector. Batching and the base layer's bias are left out. The bias is added identically on every branch.
- WaveLayer.DeltaWeight requires the adapter to exist. The source raises `KeyError` for an unknown name, but merge, unmerge and forward only ask for names they have checked.
- Device placement (layer.py:125, 135), the base-layer type dispatch with `Conv1D` and `fan_in_fan_out` (layer.py:70-78, 217) and `__repr__` are left out. They are plumbing.
- The "Already unmerged" warning (layer.py:274) is left out. Only its effect, that nothing changes, is modelled.
- The `WaveFTLinear` constructor (layer.py:211-230) is not modelled separately. It is `update_layer` on an empty adapter table with one active name.
