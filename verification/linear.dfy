/**
  The dense-layer adapter (WaveFTLinear): a base weight, the stack of merged
  adapter names, merging deltas into the weight and taking them out again,
  and the forward pass's choice between the merged weight and the base
  weight plus each active adapter's contribution.

  Merge, unmerge and forward read each adapter's delta through
  `get_delta_weight` and never change the adapters themselves, so within one
  call the delta is a fixed matrix per name. The operations below are stated
  over that table (`Deltas`); `LayerDeltas` builds it from a layer, and the
  entry points `Merge`, `Unmerge` and `Forward` use it.
 */
module Linear {
  import opened Results
  import opened Matrix
  import opened Spectrum
  import opened WaveLayer

  /**
    The mutable parts of a WaveFTLinear: its adapters, the base layer's
    out x in weight, the active adapter names, the merged-adapter stack
    (oldest first, newest last) and the disable-adapters switch.
   */
  datatype LinearState = LinearState(
    layer: Layer,
    weight: Mat,
    active: seq<string>,
    merged: seq<string>,
    disabled: bool)

  /** Each adapter's delta weight, by adapter name. */
  type Deltas = map<string, Mat>

  /** The weight and every delta are out x in. */
  predicate Valid(st: LinearState, deltas: Deltas) {
    && IsMat(st.weight, st.layer.outFeatures, st.layer.inFeatures)
    && forall name | name in deltas :: IsMat(deltas[name], st.layer.outFeatures, st.layer.inFeatures)
  }

  /** get_delta_weight for every adapter of the layer. */
  function LayerDeltas(layer: Layer, waverec: Waverec): (deltas: Deltas)
    requires WellFormed(layer) && (layer.useIdwt ==> ShortfallWithinReduction(waverec))
    ensures deltas.Keys == layer.adapters.Keys
    ensures forall name | name in deltas :: deltas[name] == DeltaWeight(layer, name, waverec)
  {
    map name | name in layer.adapters :: DeltaWeight(layer, name, waverec)
  }

  /** A well-formed layer with an out x in weight has a valid delta table. */
  lemma LayerDeltasValid(st: LinearState, waverec: Waverec)
    requires WellFormed(st.layer) && (st.layer.useIdwt ==> ShortfallWithinReduction(waverec))
    requires IsMat(st.weight, st.layer.outFeatures, st.layer.inFeatures)
    ensures Valid(st, LayerDeltas(st.layer, waverec))
  {
  }

  /** The `merged` flag: some adapter is on the stack. */
  predicate IsMerged(st: LinearState) {
    |st.merged| > 0
  }

  // ------------------------------------------------------ names to merge

  /** The names not in `exclude`, in order, each kept at its first occurrence only. */
  function Unmerged(names: seq<string>, exclude: seq<string>): (r: seq<string>)
    ensures Distinct(r)
    ensures forall k | 0 <= k < |r| :: r[k] in names && r[k] !in exclude
    ensures forall n | n in names && n !in exclude :: n in r
    decreases |names|
  {
    if |names| == 0 then []
    else if names[0] in exclude then Unmerged(names[1..], exclude)
    else [names[0]] + Unmerged(names[1..], exclude + [names[0]])
  }

  /** Names that are already distinct and all outside `exclude` pass through unchanged. */
  lemma {:induction false} UnmergedKeepsDistinct(names: seq<string>, exclude: seq<string>)
    requires Distinct(names)
    requires forall k | 0 <= k < |names| :: names[k] !in exclude
    ensures Unmerged(names, exclude) == names
    decreases |names|
  {
    if |names| > 0 {
      assert names[0] !in exclude;
      var rest := names[1..];
      forall k | 0 <= k < |rest|
        ensures rest[k] !in exclude + [names[0]]
      {
        assert rest[k] == names[k + 1];
      }
      UnmergedKeepsDistinct(rest, exclude + [names[0]]);
      assert names == [names[0]] + rest;
    }
  }

  /**
    check_adapters_to_merge: the requested names (the active ones when none
    are given) that are not merged yet, without repeats.
   */
  function AdaptersToMerge(st: LinearState, requested: Option<seq<string>>): (names: seq<string>)
    ensures Distinct(names)
    ensures forall n :: n in names <==>
      (n in (if requested.Some? then requested.value else st.active) && n !in st.merged)
  {
    Unmerged(if requested.Some? then requested.value else st.active, st.merged)
  }

  /** The names that have a delta, in order. */
  function Known(deltas: Deltas, names: seq<string>): (r: seq<string>)
    ensures forall n :: n in r <==> n in names && n in deltas
    decreases |names|
  {
    if |names| == 0 then []
    else
      var rest := Known(deltas, names[..|names| - 1]);
      var name := names[|names| - 1];
      assert forall n :: n in names <==> n in names[..|names| - 1] || n == name;
      if name in deltas then rest + [name] else rest
  }

  lemma {:induction false} KnownConcat(deltas: Deltas, a: seq<string>, b: seq<string>)
    ensures Known(deltas, a + b) == Known(deltas, a) + Known(deltas, b)
    decreases |b|
  {
    if |b| > 0 {
      var b' := b[..|b| - 1];
      assert (a + b)[..|a + b| - 1] == a + b';
      KnownConcat(deltas, a, b');
    } else {
      assert a + b == a;
    }
  }

  // ------------------------------------------------------------- deltas

  /** The sum of the deltas of the known names among `names`, as a rows x cols matrix. */
  function SumDeltas(deltas: Deltas, names: seq<string>, rows: nat, cols: nat): (s: Mat)
    requires forall name | name in deltas :: IsMat(deltas[name], rows, cols)
    ensures IsMat(s, rows, cols)
    decreases |names|
  {
    if |names| == 0 then Zeros(rows, cols)
    else
      var rest := SumDeltas(deltas, names[..|names| - 1], rows, cols);
      var name := names[|names| - 1];
      if name in deltas then Add(rest, deltas[name]) else rest
  }

  /** Unknown names contribute nothing: summing over the known ones gives the same. */
  lemma {:induction false} SumOverKnown(deltas: Deltas, names: seq<string>, rows: nat, cols: nat)
    requires forall name | name in deltas :: IsMat(deltas[name], rows, cols)
    ensures SumDeltas(deltas, Known(deltas, names), rows, cols) == SumDeltas(deltas, names, rows, cols)
    decreases |names|
  {
    if |names| > 0 {
      var prefix := names[..|names| - 1];
      var name := names[|names| - 1];
      SumOverKnown(deltas, prefix, rows, cols);
      if name in deltas {
        var k := Known(deltas, prefix) + [name];
        assert k[..|k| - 1] == Known(deltas, prefix);
      }
    }
  }

  /**
    The weight is the base weight plus the delta of every merged adapter
    still on the stack.
   */
  predicate Consistent(st: LinearState, deltas: Deltas, base: Mat)
    requires Valid(st, deltas)
  {
    IsMat(base, st.layer.outFeatures, st.layer.inFeatures)
    && st.weight == Add(base, SumDeltas(deltas, st.merged, st.layer.outFeatures, st.layer.inFeatures))
  }

  /** With nothing merged the weight is its own base. */
  lemma NothingMergedIsBase(st: LinearState, deltas: Deltas)
    requires Valid(st, deltas) && st.merged == []
    ensures Consistent(st, deltas, st.weight)
  {
    AddZeros(st.weight, st.layer.outFeatures, st.layer.inFeatures);
  }

  // -------------------------------------------------------------- merge

  /** The state after merging one known adapter: its delta added, its name pushed. */
  function Push(st: LinearState, deltas: Deltas, name: string): (r: LinearState)
    requires Valid(st, deltas) && name in deltas
    ensures Valid(r, deltas) && r.layer == st.layer && r.active == st.active && r.disabled == st.disabled
    ensures r.merged == st.merged + [name]
  {
    st.(weight := Add(st.weight, deltas[name]), merged := st.merged + [name])
  }

  /**
    The outcome of a merge: the new state, and the adapter whose merged
    weight was found non-finite by a safe merge, if one was.
   */
  datatype MergeOutcome = MergeOutcome(state: LinearState, failed: Option<string>)

  /**
    The merge loop over `names`: names with no adapter are skipped; each
    other name has its delta added and is pushed. A safe merge first checks
    the candidate weight with `finite` and stops at the first one that fails,
    before changing anything for that adapter.
   */
  function MergeNames(st: LinearState, deltas: Deltas, names: seq<string>, safe: bool,
                      finite: Mat -> bool): (o: MergeOutcome)
    requires Valid(st, deltas)
    ensures Valid(o.state, deltas)
    ensures o.state.layer == st.layer && o.state.active == st.active && o.state.disabled == st.disabled
    ensures o.failed.Some? ==> safe && o.failed.value in names && o.failed.value in deltas
    decreases |names|
  {
    if |names| == 0 then MergeOutcome(st, None)
    else
      var name := names[0];
      if name !in deltas then MergeNames(st, deltas, names[1..], safe, finite)
      else
        var next := Push(st, deltas, name);
        if safe && !finite(next.weight) then MergeOutcome(st, Some(name))
        else MergeNames(next, deltas, names[1..], safe, finite)
  }

  /** Merging one more adapter keeps the weight equal to the base plus the stacked deltas. */
  lemma PushKeepsConsistent(st: LinearState, deltas: Deltas, name: string, base: Mat)
    requires Valid(st, deltas) && name in deltas && Consistent(st, deltas, base)
    ensures Consistent(Push(st, deltas, name), deltas, base)
  {
    var stacked := st.merged + [name];
    assert stacked[..|stacked| - 1] == st.merged;
    AddAssoc(base, SumDeltas(deltas, st.merged, st.layer.outFeatures, st.layer.inFeatures), deltas[name]);
  }

  /** Every merge, finished or stopped by a failed check, keeps the weight consistent with its base. */
  lemma {:induction false} MergeKeepsConsistent(st: LinearState, deltas: Deltas, names: seq<string>, safe: bool,
                                                finite: Mat -> bool, base: Mat)
    requires Valid(st, deltas) && Consistent(st, deltas, base)
    ensures Consistent(MergeNames(st, deltas, names, safe, finite).state, deltas, base)
    decreases |names|
  {
    if |names| > 0 {
      var name := names[0];
      if name !in deltas {
        MergeKeepsConsistent(st, deltas, names[1..], safe, finite, base);
      } else if !(safe && !finite(Push(st, deltas, name).weight)) {
        PushKeepsConsistent(st, deltas, name, base);
        MergeKeepsConsistent(Push(st, deltas, name), deltas, names[1..], safe, finite, base);
      }
    }
  }

  /** An unchecked merge never stops, and pushes exactly the known names, in order. */
  lemma {:induction false} UnsafeMergePushesKnown(st: LinearState, deltas: Deltas, names: seq<string>,
                                                  finite: Mat -> bool)
    requires Valid(st, deltas)
    ensures var o := MergeNames(st, deltas, names, false, finite);
      o.failed.None? && o.state.merged == st.merged + Known(deltas, names)
    decreases |names|
  {
    if |names| > 0 {
      var name := names[0];
      var rest := names[1..];
      assert Known(deltas, names) == Known(deltas, [name]) + Known(deltas, rest) by {
        KnownConcat(deltas, [name], rest);
        assert [name] + rest == names;
      }
      assert Known(deltas, [name]) == if name in deltas then [name] else [] by {
        assert [name][..0] == [];
      }
      if name !in deltas {
        UnsafeMergePushesKnown(st, deltas, rest, finite);
      } else {
        UnsafeMergePushesKnown(Push(st, deltas, name), deltas, rest, finite);
      }
    }
  }

  /**
    The merge outcome `o` stopped at names[i]: its state is what merging the
    names before i produced, and merging names[i] on top of it gives a weight
    that fails the check.
   */
  predicate FailedAt(st: LinearState, deltas: Deltas, names: seq<string>, i: nat, o: MergeOutcome,
                     finite: Mat -> bool)
    requires Valid(st, deltas)
  {
    && i < |names|
    && o.failed == Some(names[i])
    && names[i] in deltas
    && o.state == MergeNames(st, deltas, names[..i], true, finite).state
    && !finite(Add(o.state.weight, deltas[names[i]]))
  }

  /** A first name with no adapter is skipped, in each prefix of the list. */
  lemma SkipFirst(st: LinearState, deltas: Deltas, names: seq<string>, i: nat, safe: bool, finite: Mat -> bool)
    requires Valid(st, deltas) && 0 < i <= |names| && names[0] !in deltas
    ensures MergeNames(st, deltas, names[..i], safe, finite) == MergeNames(st, deltas, names[1..][..i - 1], safe, finite)
  {
    assert names[..i][1..] == names[1..][..i - 1];
  }

  /**
    A first adapter is merged, in each prefix of the list, when the merge is
    unchecked or its candidate passes the check.
   */
  lemma PassFirst(st: LinearState, deltas: Deltas, names: seq<string>, i: nat, safe: bool, finite: Mat -> bool)
    requires Valid(st, deltas) && 0 < i <= |names| && names[0] in deltas
    requires safe ==> finite(Push(st, deltas, names[0]).weight)
    ensures MergeNames(st, deltas, names[..i], safe, finite)
      == MergeNames(Push(st, deltas, names[0]), deltas, names[1..][..i - 1], safe, finite)
  {
    var pre := names[..i];
    assert pre[1..] == names[1..][..i - 1];
    assert pre[0] == names[0];
    assert MergeNames(st, deltas, pre, safe, finite)
      == MergeNames(Push(st, deltas, pre[0]), deltas, pre[1..], safe, finite);
  }

  /**
    Every candidate weight a merge of `names` forms passes the check: for
    each known names[i], the weight after merging the names before it plus
    its delta.
   */
  predicate CandidatesPass(st: LinearState, deltas: Deltas, names: seq<string>, finite: Mat -> bool)
    requires Valid(st, deltas)
  {
    forall i | 0 <= i < |names| && names[i] in deltas ::
      finite(Add(MergeNames(st, deltas, names[..i], false, finite).state.weight, deltas[names[i]]))
  }

  /** The candidates pass exactly when the first one does and those after it pass from the next state. */
  lemma CandidatesPassStep(st: LinearState, deltas: Deltas, names: seq<string>, finite: Mat -> bool)
    requires Valid(st, deltas) && |names| > 0
    ensures var next := if names[0] in deltas then Push(st, deltas, names[0]) else st;
      CandidatesPass(st, deltas, names, finite)
      <==> (names[0] in deltas ==> finite(Push(st, deltas, names[0]).weight))
           && CandidatesPass(next, deltas, names[1..], finite)
  {
    var rest := names[1..];
    var next := if names[0] in deltas then Push(st, deltas, names[0]) else st;
    forall i | 1 <= i < |names|
      ensures MergeNames(st, deltas, names[..i], false, finite).state
        == MergeNames(next, deltas, rest[..i - 1], false, finite).state
      ensures names[i] == rest[i - 1]
    {
      if names[0] in deltas {
        PassFirst(st, deltas, names, i, false, finite);
      } else {
        SkipFirst(st, deltas, names, i, false, finite);
      }
    }
    assert names[..0] == [];
    if CandidatesPass(st, deltas, names, finite) {
      forall j | 0 <= j < |rest| && rest[j] in deltas
        ensures finite(Add(MergeNames(next, deltas, rest[..j], false, finite).state.weight, deltas[rest[j]]))
      {
        assert names[j + 1] == rest[j];
      }
    }
    if (names[0] in deltas ==> finite(Push(st, deltas, names[0]).weight))
       && CandidatesPass(next, deltas, rest, finite) {
      forall i | 0 <= i < |names| && names[i] in deltas
        ensures finite(Add(MergeNames(st, deltas, names[..i], false, finite).state.weight, deltas[names[i]]))
      {
        if i > 0 {
          assert rest[i - 1] == names[i];
        }
      }
    }
  }

  /**
    A safe merge succeeds exactly when every candidate weight it forms
    passes the check; a candidate that fails makes it fail.
   */
  lemma {:induction false} SafeMergeSucceedsIff(st: LinearState, deltas: Deltas, names: seq<string>,
                                                finite: Mat -> bool)
    requires Valid(st, deltas)
    ensures MergeNames(st, deltas, names, true, finite).failed.None? <==> CandidatesPass(st, deltas, names, finite)
    decreases |names|
  {
    if |names| > 0 {
      var name := names[0];
      CandidatesPassStep(st, deltas, names, finite);
      if name !in deltas {
        SafeMergeSucceedsIff(st, deltas, names[1..], finite);
      } else if finite(Push(st, deltas, name).weight) {
        SafeMergeSucceedsIff(Push(st, deltas, name), deltas, names[1..], finite);
      }
    }
  }

  /** A safe merge whose candidates all pass the check does what an unchecked merge does. */
  lemma {:induction false} SafeMergeAllFinite(st: LinearState, deltas: Deltas, names: seq<string>,
                                              finite: Mat -> bool)
    requires Valid(st, deltas) && CandidatesPass(st, deltas, names, finite)
    ensures MergeNames(st, deltas, names, true, finite) == MergeNames(st, deltas, names, false, finite)
    decreases |names|
  {
    if |names| > 0 {
      var name := names[0];
      CandidatesPassStep(st, deltas, names, finite);
      if name !in deltas {
        SafeMergeAllFinite(st, deltas, names[1..], finite);
      } else {
        SafeMergeAllFinite(Push(st, deltas, name), deltas, names[1..], finite);
      }
    }
  }

  /**
    When a safe merge stops at an adapter, that adapter's candidate weight
    failed the check, and the state is exactly what merging the names before
    it produced: the failing adapter changed neither the weight nor the stack.
   */
  lemma {:induction false} SafeMergeStopsBeforeFailure(st: LinearState, deltas: Deltas, names: seq<string>,
                                                       finite: Mat -> bool)
    requires Valid(st, deltas)
    ensures var o := MergeNames(st, deltas, names, true, finite);
      o.failed.Some? ==> exists i | 0 <= i < |names| :: FailedAt(st, deltas, names, i, o, finite)
    decreases |names|
  {
    var o := MergeNames(st, deltas, names, true, finite);
    if |names| > 0 && o.failed.Some? {
      var name := names[0];
      var rest := names[1..];
      if name !in deltas {
        assert o == MergeNames(st, deltas, rest, true, finite);
        SafeMergeStopsBeforeFailure(st, deltas, rest, finite);
        var i :| 0 <= i < |rest| && FailedAt(st, deltas, rest, i, o, finite);
        SkipFirst(st, deltas, names, i + 1, true, finite);
        assert names[i + 1] == rest[i];
        assert FailedAt(st, deltas, names, i + 1, o, finite);
      } else if !finite(Push(st, deltas, name).weight) {
        assert names[..0] == [];
        assert FailedAt(st, deltas, names, 0, o, finite);
      } else {
        var next := Push(st, deltas, name);
        assert o == MergeNames(next, deltas, rest, true, finite);
        SafeMergeStopsBeforeFailure(next, deltas, rest, finite);
        var i :| 0 <= i < |rest| && FailedAt(next, deltas, rest, i, o, finite);
        PassFirst(st, deltas, names, i + 1, true, finite);
        assert names[i + 1] == rest[i];
        assert FailedAt(st, deltas, names, i + 1, o, finite);
      }
    }
  }

  // ------------------------------------------------------------ unmerge

  /**
    The unmerge loop: pops the stack until it is empty, newest first,
    subtracting the delta of each popped name that has one. With nothing
    merged it changes nothing.
   */
  function UnmergeAll(st: LinearState, deltas: Deltas): (r: LinearState)
    requires Valid(st, deltas)
    ensures Valid(r, deltas) && r.merged == []
    ensures r.layer == st.layer && r.active == st.active && r.disabled == st.disabled
    ensures st.merged == [] ==> r == st
    decreases |st.merged|
  {
    if |st.merged| == 0 then st
    else
      var name := st.merged[|st.merged| - 1];
      var popped := st.(merged := st.merged[..|st.merged| - 1]);
      if name in deltas then UnmergeAll(popped.(weight := Sub(st.weight, deltas[name])), deltas)
      else UnmergeAll(popped, deltas)
  }

  /** Popping one name keeps the weight consistent with its base. */
  lemma PopKeepsConsistent(st: LinearState, deltas: Deltas, base: Mat)
    requires Valid(st, deltas) && IsMerged(st) && Consistent(st, deltas, base)
    ensures var name := st.merged[|st.merged| - 1];
      var popped := st.(merged := st.merged[..|st.merged| - 1]);
      if name in deltas then Consistent(popped.(weight := Sub(st.weight, deltas[name])), deltas, base)
      else Consistent(popped, deltas, base)
  {
    var name := st.merged[|st.merged| - 1];
    if name in deltas {
      var rest := SumDeltas(deltas, st.merged[..|st.merged| - 1], st.layer.outFeatures, st.layer.inFeatures);
      AddAssoc(base, rest, deltas[name]);
      AddSubCancel(Add(base, rest), deltas[name]);
    }
  }

  /** Unmerging takes every stacked delta back out: the weight returns to its base. */
  lemma {:induction false} UnmergeRestores(st: LinearState, deltas: Deltas, base: Mat)
    requires Valid(st, deltas) && Consistent(st, deltas, base)
    ensures UnmergeAll(st, deltas).weight == base
    decreases |st.merged|
  {
    if |st.merged| == 0 {
      AddZeros(base, st.layer.outFeatures, st.layer.inFeatures);
    } else {
      var name := st.merged[|st.merged| - 1];
      var popped := st.(merged := st.merged[..|st.merged| - 1]);
      PopKeepsConsistent(st, deltas, base);
      if name in deltas {
        UnmergeRestores(popped.(weight := Sub(st.weight, deltas[name])), deltas, base);
      } else {
        UnmergeRestores(popped, deltas, base);
      }
    }
  }

  /** The unmerge loop as a while loop over the stack. */
  method UnmergeLoop(st: LinearState, deltas: Deltas) returns (r: LinearState)
    requires Valid(st, deltas)
    ensures r.merged == [] && r.layer == st.layer && r.active == st.active && r.disabled == st.disabled
    ensures r == UnmergeAll(st, deltas)
  {
    r := st;
    while |r.merged| > 0
      invariant Valid(r, deltas) && r.layer == st.layer
      invariant UnmergeAll(r, deltas) == UnmergeAll(st, deltas)
      decreases |r.merged|
    {
      var name := r.merged[|r.merged| - 1];
      var popped := r.(merged := r.merged[..|r.merged| - 1]);
      if name in deltas {
        r := popped.(weight := Sub(r.weight, deltas[name]));
      } else {
        r := popped;
      }
    }
  }

  // ------------------------------------------------------------ forward

  /**
    The forward loop over the active adapters: once the names before the
    last have been applied, the last one, if it has a delta, adds its delta
    times x.
   */
  function ApplyAdapters(deltas: Deltas, result: seq<int>, names: seq<string>, x: seq<int>,
                         rows: nat, cols: nat): (y: seq<int>)
    requires forall name | name in deltas :: IsMat(deltas[name], rows, cols)
    requires |x| == cols && |result| == rows
    ensures |y| == rows
    decreases |names|
  {
    if |names| == 0 then result
    else
      var before := ApplyAdapters(deltas, result, names[..|names| - 1], x, rows, cols);
      var name := names[|names| - 1];
      if name in deltas then VecAdd(before, MatVec(deltas[name], x)) else before
  }

  /** The state after a forward call, and its output. */
  datatype ForwardResult = ForwardResult(state: LinearState, output: seq<int>)

  /**
    The forward dispatch on one input vector: with adapters disabled,
    unmerge if needed and use the weight alone; with adapters merged, use the
    weight as it is; otherwise add each active adapter's contribution to the
    weight's output.
   */
  function ForwardWith(st: LinearState, deltas: Deltas, x: seq<int>): (r: ForwardResult)
    requires Valid(st, deltas) && |x| == st.layer.inFeatures
    ensures Valid(r.state, deltas) && |r.output| == st.layer.outFeatures
    ensures !st.disabled ==> r.state == st
    ensures st.disabled ==> !IsMerged(r.state)
    ensures r.state.layer == st.layer && r.state.active == st.active && r.state.disabled == st.disabled
  {
    if st.disabled then
      var s := if IsMerged(st) then UnmergeAll(st, deltas) else st;
      ForwardResult(s, MatVec(s.weight, x))
    else if IsMerged(st) then ForwardResult(st, MatVec(st.weight, x))
    else
      ForwardResult(st, ApplyAdapters(deltas, MatVec(st.weight, x), st.active, x,
                                      st.layer.outFeatures, st.layer.inFeatures))
  }

  /** Applying adapters one by one equals one product with the weight plus their summed deltas. */
  lemma {:induction false} ApplyAdaptersIsSummedWeight(deltas: Deltas, w: Mat, names: seq<string>, x: seq<int>,
                                                       rows: nat, cols: nat)
    requires forall name | name in deltas :: IsMat(deltas[name], rows, cols)
    requires IsMat(w, rows, cols) && |x| == cols
    ensures ApplyAdapters(deltas, MatVec(w, x), names, x, rows, cols)
      == MatVec(Add(w, SumDeltas(deltas, names, rows, cols)), x)
    decreases |names|
  {
    if |names| == 0 {
      AddZeros(w, rows, cols);
    } else {
      var prefix := names[..|names| - 1];
      var name := names[|names| - 1];
      ApplyAdaptersIsSummedWeight(deltas, w, prefix, x, rows, cols);
      if name in deltas {
        var s := SumDeltas(deltas, prefix, rows, cols);
        MatVecAdd(Add(w, s), deltas[name], x);
        AddAssoc(w, s, deltas[name]);
      }
    }
  }

  /**
    Unmerged and enabled, forward gives what the weight plus the active
    adapters' deltas would give.
   */
  lemma UnmergedForward(st: LinearState, deltas: Deltas, x: seq<int>)
    requires Valid(st, deltas) && |x| == st.layer.inFeatures && !st.disabled && !IsMerged(st)
    ensures ForwardWith(st, deltas, x).output
      == MatVec(Add(st.weight, SumDeltas(deltas, st.active, st.layer.outFeatures, st.layer.inFeatures)), x)
  {
    ApplyAdaptersIsSummedWeight(deltas, st.weight, st.active, x, st.layer.outFeatures, st.layer.inFeatures);
  }

  /** With adapters disabled, forward unmerges everything and uses the base weight alone. */
  lemma DisabledForwardIsBase(st: LinearState, deltas: Deltas, base: Mat, x: seq<int>)
    requires Valid(st, deltas) && |x| == st.layer.inFeatures && st.disabled && Consistent(st, deltas, base)
    ensures var r := ForwardWith(st, deltas, x);
      r.state.merged == [] && r.state.weight == base && r.output == MatVec(base, x)
  {
    UnmergeRestores(st, deltas, base);
  }

  /**
    Merging the active adapters leaves forward's output unchanged: the merged
    weight gives what the weight plus each active adapter's contribution gave.
   */
  lemma MergeKeepsOutput(st: LinearState, deltas: Deltas, x: seq<int>, finite: Mat -> bool)
    requires Valid(st, deltas) && |x| == st.layer.inFeatures
    requires !st.disabled && st.merged == [] && Distinct(st.active)
    ensures var o := MergeNames(st, deltas, AdaptersToMerge(st, None), false, finite);
      o.failed.None? && ForwardWith(o.state, deltas, x).output == ForwardWith(st, deltas, x).output
  {
    var rows, cols := st.layer.outFeatures, st.layer.inFeatures;
    var names := AdaptersToMerge(st, None);
    UnmergedKeepsDistinct(st.active, []);
    assert names == st.active;
    var o := MergeNames(st, deltas, names, false, finite);
    UnsafeMergePushesKnown(st, deltas, names, finite);
    NothingMergedIsBase(st, deltas);
    MergeKeepsConsistent(st, deltas, names, false, finite, st.weight);
    SumOverKnown(deltas, st.active, rows, cols);
    UnmergedForward(st, deltas, x);
    assert o.state.merged == Known(deltas, st.active);
    if !IsMerged(o.state) {
      UnmergedForward(o.state, deltas, x);
      assert o.state.weight == st.weight by {
        AddZeros(st.weight, rows, cols);
      }
    }
  }

  // ------------------------------------------------------- entry points

  /** merge: the adapters to merge, merged in order with the layer's deltas. */
  function Merge(st: LinearState, safe: bool, requested: Option<seq<string>>, finite: Mat -> bool,
                 waverec: Waverec): (o: MergeOutcome)
    requires WellFormed(st.layer) && (st.layer.useIdwt ==> ShortfallWithinReduction(waverec))
    requires IsMat(st.weight, st.layer.outFeatures, st.layer.inFeatures)
    ensures IsMat(o.state.weight, st.layer.outFeatures, st.layer.inFeatures)
    ensures o.state.layer == st.layer && o.state.active == st.active && o.state.disabled == st.disabled
    ensures o.failed.Some? ==> safe && o.failed.value in st.layer.adapters && o.failed.value !in st.merged
  {
    LayerDeltasValid(st, waverec);
    MergeNames(st, LayerDeltas(st.layer, waverec), AdaptersToMerge(st, requested), safe, finite)
  }

  /** unmerge with the layer's deltas. */
  function Unmerge(st: LinearState, waverec: Waverec): (r: LinearState)
    requires WellFormed(st.layer) && (st.layer.useIdwt ==> ShortfallWithinReduction(waverec))
    requires IsMat(st.weight, st.layer.outFeatures, st.layer.inFeatures)
    ensures IsMat(r.weight, st.layer.outFeatures, st.layer.inFeatures) && r.merged == []
    ensures r.layer == st.layer && r.active == st.active && r.disabled == st.disabled
    ensures st.merged == [] ==> r == st
  {
    LayerDeltasValid(st, waverec);
    UnmergeAll(st, LayerDeltas(st.layer, waverec))
  }

  /** forward with the layer's deltas. */
  function Forward(st: LinearState, x: seq<int>, waverec: Waverec): (r: ForwardResult)
    requires WellFormed(st.layer) && (st.layer.useIdwt ==> ShortfallWithinReduction(waverec))
    requires IsMat(st.weight, st.layer.outFeatures, st.layer.inFeatures) && |x| == st.layer.inFeatures
    ensures |r.output| == st.layer.outFeatures
    ensures !st.disabled ==> r.state == st
    ensures st.disabled ==> !IsMerged(r.state)
  {
    LayerDeltasValid(st, waverec);
    ForwardWith(st, LayerDeltas(st.layer, waverec), x)
  }

  /** Merging from an unmerged state and then unmerging gives back the original weight. */
  lemma MergeThenUnmerge(st: LinearState, safe: bool, requested: Option<seq<string>>, finite: Mat -> bool,
                         waverec: Waverec)
    requires WellFormed(st.layer) && (st.layer.useIdwt ==> ShortfallWithinReduction(waverec))
    requires IsMat(st.weight, st.layer.outFeatures, st.layer.inFeatures) && st.merged == []
    ensures Unmerge(Merge(st, safe, requested, finite, waverec).state, waverec).weight == st.weight
  {
    var deltas := LayerDeltas(st.layer, waverec);
    LayerDeltasValid(st, waverec);
    NothingMergedIsBase(st, deltas);
    MergeKeepsConsistent(st, deltas, AdaptersToMerge(st, requested), safe, finite, st.weight);
    UnmergeRestores(Merge(st, safe, requested, finite, waverec).state, deltas, st.weight);
  }

  /**
    Merging the active adapters of an unmerged, enabled layer (with distinct
    active names) does not change what forward computes.
   */
  lemma MergePreservesForward(st: LinearState, x: seq<int>, finite: Mat -> bool, waverec: Waverec)
    requires WellFormed(st.layer) && (st.layer.useIdwt ==> ShortfallWithinReduction(waverec))
    requires IsMat(st.weight, st.layer.outFeatures, st.layer.inFeatures) && |x| == st.layer.inFeatures
    requires !st.disabled && st.merged == [] && Distinct(st.active)
    ensures var o := Merge(st, false, None, finite, waverec);
      o.failed.None? && Forward(o.state, x, waverec).output == Forward(st, x, waverec).output
  {
    LayerDeltasValid(st, waverec);
    MergeKeepsOutput(st, LayerDeltas(st.layer, waverec), x, finite);
  }
}
