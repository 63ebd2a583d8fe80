/** The labeled/unlabeled index pools of utils.py: promotion of selected
    unlabeled positions into the labeled pool (postprocess_indices), the
    random baseline sampler (stratified_random_sampling), the reshuffle and
    subset window of create_loaders, and the pseudo-label relabeling loop
    of perform_sampling.

    Dataset indices are `int`s; a "position" is an index INTO the
    unlabeled sequence, as returned by the samplers. */
module IndexPools {
  import opened Sequences

  // ---------------------------------------------------------------------
  // Boolean-mask selection (numpy `a[mask]`)
  // ---------------------------------------------------------------------

  /** The entries of `u` whose mask bit is set, in their order in `u`. */
  function Pick(u: seq<int>, m: seq<bool>): (r: seq<int>)
    requires |u| == |m|
    decreases |u|
  {
    if |u| == 0 then []
    else Pick(u[..|u| - 1], m[..|m| - 1]) + (if m[|m| - 1] then [u[|u| - 1]] else [])
  }

  /** The positions whose mask bit is set, in increasing order. */
  function SetPositions(m: seq<bool>): (r: seq<nat>)
    decreases |m|
  {
    if |m| == 0 then []
    else SetPositions(m[..|m| - 1]) + (if m[|m| - 1] then [|m| - 1] else [])
  }

  /** Element-wise negation (`~mask`). */
  function Flip(m: seq<bool>): (r: seq<bool>)
    ensures |r| == |m| && forall i :: 0 <= i < |m| ==> r[i] == !m[i]
  {
    seq(|m|, i requires 0 <= i < |m| => !m[i])
  }

  /** The set positions are strictly increasing and are exactly the set bits. */
  lemma {:induction false} SetPositionsExact(m: seq<bool>)
    ensures forall k1, k2 :: 0 <= k1 < k2 < |SetPositions(m)| ==> SetPositions(m)[k1] < SetPositions(m)[k2]
    ensures forall i: nat :: i in SetPositions(m) <==> i < |m| && m[i]
    decreases |m|
  {
    if |m| > 0 {
      var init := m[..|m| - 1];
      SetPositionsExact(init);
      assert forall i: nat :: i < |init| ==> init[i] == m[i];
      var ps := SetPositions(init);
      forall k | 0 <= k < |ps| ensures ps[k] < |init| {
        assert ps[k] in ps;
      }
    }
  }

  /** `Pick` is `u` read at the set positions, in increasing order. */
  lemma {:induction false} PickAtSetPositions(u: seq<int>, m: seq<bool>)
    requires |u| == |m|
    ensures |Pick(u, m)| == |SetPositions(m)|
    ensures forall k :: 0 <= k < |Pick(u, m)| ==>
      SetPositions(m)[k] < |u| && Pick(u, m)[k] == u[SetPositions(m)[k]]
    decreases |u|
  {
    if |u| > 0 {
      var u', m' := u[..|u| - 1], m[..|m| - 1];
      PickAtSetPositions(u', m');
      SetPositionsExact(m');
      forall k | 0 <= k < |Pick(u', m')|
        ensures SetPositions(m')[k] < |u'|
      {
        assert SetPositions(m')[k] in SetPositions(m');
      }
    }
  }

  /** Appending one entry to each part appends it to the whole. */
  lemma MultisetSplitStep(kept: seq<int>, dropped: seq<int>, u: seq<int>, x: int, b: bool)
    requires multiset(kept) + multiset(dropped) == multiset(u)
    ensures multiset(kept + (if b then [x] else [])) + multiset(dropped + (if b then [] else [x]))
         == multiset(u) + multiset{x}
  {
    if b {
      assert multiset(kept + [x]) == multiset(kept) + multiset{x};
      assert dropped + [] == dropped;
    } else {
      assert kept + [] == kept;
      assert multiset(dropped + [x]) == multiset(dropped) + multiset{x};
    }
  }

  lemma MultisetInitLast(u: seq<int>)
    requires |u| > 0
    ensures multiset(u) == multiset(u[..|u| - 1]) + multiset{u[|u| - 1]}
  {
    assert u == u[..|u| - 1] + [u[|u| - 1]];
  }

  /** The negated mask of a longer mask starts with the negation of its
      first entries. */
  lemma FlipInit(m: seq<bool>)
    requires |m| > 0
    ensures Flip(m)[..|m| - 1] == Flip(m[..|m| - 1])
  {
  }

  /** The selection of a non-empty `u` is that of its first entries plus
      the last entry when its bit is set. */
  lemma PickLast(u: seq<int>, m: seq<bool>)
    requires |u| == |m| > 0
    ensures Pick(u, m) == Pick(u[..|u| - 1], m[..|m| - 1]) + (if m[|m| - 1] then [u[|u| - 1]] else [])
  {
  }

  /** The kept and the dropped entries together are the whole of `u`. */
  lemma {:induction false} PickSplits(u: seq<int>, m: seq<bool>)
    requires |u| == |m|
    ensures multiset(Pick(u, m)) + multiset(Pick(u, Flip(m))) == multiset(u)
    decreases |u|
  {
    if |u| > 0 {
      var n := |u|;
      var u', m' := u[..n - 1], m[..n - 1];
      PickSplits(u', m');
      PickLast(u, m);
      PickLast(u, Flip(m));
      FlipInit(m);
      MultisetSplitStep(Pick(u', m'), Pick(u', Flip(m')), u', u[n - 1], m[n - 1]);
      MultisetInitLast(u);
    }
  }

  lemma PickDistinct(u: seq<int>, m: seq<bool>)
    requires |u| == |m| && Distinct(u)
    ensures Distinct(Pick(u, m))
  {
    PickAtSetPositions(u, m);
    SetPositionsExact(m);
  }

  lemma PickFromU(u: seq<int>, m: seq<bool>, k: nat)
    requires |u| == |m| && k < |Pick(u, m)|
    ensures exists i :: 0 <= i < |u| && m[i] && Pick(u, m)[k] == u[i]
  {
    PickAtSetPositions(u, m);
    SetPositionsExact(m);
    var i := SetPositions(m)[k];
    assert i in SetPositions(m);
  }

  /** Entries taken under a mask and under its negation never coincide
      when `u` has no repeated entry. */
  lemma PickComplementsDisjoint(u: seq<int>, m: seq<bool>)
    requires |u| == |m| && Distinct(u)
    ensures Disjoint(Pick(u, Flip(m)), Pick(u, m))
  {
    forall a, b | 0 <= a < |Pick(u, Flip(m))| && 0 <= b < |Pick(u, m)|
      ensures Pick(u, Flip(m))[a] != Pick(u, m)[b]
    {
      PickFromU(u, Flip(m), a);
      PickFromU(u, m, b);
    }
  }

  // ---------------------------------------------------------------------
  // postprocess_indices
  // ---------------------------------------------------------------------

  /** The sampled positions resolved to non-negative ones. */
  function Resolve(samples: seq<int>, n: nat): (r: seq<nat>)
    requires AllInBounds(samples, n)
    ensures |r| == |samples|
    ensures forall k :: 0 <= k < |r| ==> r[k] < n && r[k] == Normalize(samples[k], n)
  {
    seq(|samples|, k requires 0 <= k < |samples| => Normalize(samples[k], n))
  }

  /** The positions cleared in the keep-mask: duplicates collapse. */
  function Selected(samples: seq<int>, n: nat): (s: set<nat>)
    requires AllInBounds(samples, n)
    ensures forall i :: i in s ==> i < n
  {
    Elements(Resolve(samples, n))
  }

  /** The keep-mask once the selected positions are cleared. */
  function KeepMask(n: nat, sel: set<nat>): (m: seq<bool>)
    ensures |m| == n && forall i :: 0 <= i < n ==> m[i] == (i !in sel)
  {
    seq(n, i => i !in sel)
  }

  /** The promotion: labeled followed by the selected unlabeled entries
      (in unlabeled order), and the unselected unlabeled entries. */
  function Promote(labeled: seq<int>, unlabeled: seq<int>, sel: set<nat>): (seq<int>, seq<int>)
  {
    var keep := KeepMask(|unlabeled|, sel);
    (labeled + Pick(unlabeled, Flip(keep)), Pick(unlabeled, keep))
  }

  lemma SelectedExtend(samples: seq<int>, n: nat, k: nat)
    requires k < |samples| && AllInBounds(samples, n)
    ensures AllInBounds(samples[..k], n) && AllInBounds(samples[..k + 1], n)
    ensures Selected(samples[..k + 1], n) == Selected(samples[..k], n) + {Normalize(samples[k], n)}
  {
    assert Resolve(samples[..k + 1], n) == Resolve(samples[..k], n) + [Normalize(samples[k], n)];
  }

  /** utils.py postprocess_indices. An out-of-range position makes the
      mask assignment raise (IndexError); the model returns None then. */
  method PostprocessIndices(labeled: seq<int>, unlabeled: seq<int>, samples: seq<int>)
    returns (r: Option<(seq<int>, seq<int>)>)
    ensures r.None? <==> !AllInBounds(samples, |unlabeled|)
    ensures r.Some? ==> AllInBounds(samples, |unlabeled|) &&
                        r.value == Promote(labeled, unlabeled, Selected(samples, |unlabeled|))
  {
    var n := |unlabeled|;
    if !AllInBounds(samples, n) {
      return None;
    }
    var mask := new bool[n](_ => true);
    var k := 0;
    while k < |samples|
      invariant 0 <= k <= |samples|
      invariant forall i :: 0 <= i < n ==> mask[i] == (i !in Selected(samples[..k], n))
    {
      SelectedExtend(samples, n, k);
      mask[Normalize(samples[k], n)] := false;
      k := k + 1;
    }
    assert samples[..k] == samples;
    assert mask[..] == KeepMask(n, Selected(samples, n));
    r := Some((labeled + Pick(unlabeled, Flip(mask[..])), Pick(unlabeled, mask[..])));
  }

  lemma SelectedCount(n: nat, sel: set<nat>)
    requires forall i :: i in sel ==> i < n
    ensures |SetPositions(Flip(KeepMask(n, sel)))| == |sel|
  {
    var ps := SetPositions(Flip(KeepMask(n, sel)));
    SetPositionsExact(Flip(KeepMask(n, sel)));
    assert Elements(ps) == sel;
    DistinctElements(ps);
  }

  /** Length accounting: labeled grows and unlabeled shrinks by the number
      of DISTINCT selected positions. */
  lemma PromoteSizes(labeled: seq<int>, unlabeled: seq<int>, sel: set<nat>)
    requires forall i :: i in sel ==> i < |unlabeled|
    ensures |Promote(labeled, unlabeled, sel).0| == |labeled| + |sel|
    ensures |Promote(labeled, unlabeled, sel).1| == |unlabeled| - |sel|
  {
    var keep := KeepMask(|unlabeled|, sel);
    PickAtSetPositions(unlabeled, Flip(keep));
    SelectedCount(|unlabeled|, sel);
    PickSplits(unlabeled, keep);
    assert |multiset(unlabeled)| == |unlabeled|;
    assert Flip(Flip(keep)) == keep;
  }

  /** Nothing is lost or invented: the two outputs together are a
      permutation of the two inputs together. */
  lemma PromotePermutes(labeled: seq<int>, unlabeled: seq<int>, sel: set<nat>)
    ensures multiset(Promote(labeled, unlabeled, sel).0 + Promote(labeled, unlabeled, sel).1)
         == multiset(labeled + unlabeled)
  {
    var keep := KeepMask(|unlabeled|, sel);
    PickSplits(unlabeled, Flip(keep));
    assert Flip(Flip(keep)) == keep;
  }

  /** Order: the old labeled sequence is a prefix of the new one; the
      promoted entries follow in their unlabeled order (the order of the
      selection is irrelevant); the survivors keep their relative order.
      Dataset index values are copied, never renumbered. */
  lemma PromoteOrder(labeled: seq<int>, unlabeled: seq<int>, sel: set<nat>)
    ensures var (l', u') := Promote(labeled, unlabeled, sel);
      var ins := SetPositions(Flip(KeepMask(|unlabeled|, sel)));
      var outs := SetPositions(KeepMask(|unlabeled|, sel));
      && l'[..|labeled|] == labeled
      && |l'| == |labeled| + |ins| && |u'| == |outs|
      && (forall k :: 0 <= k < |ins| ==> ins[k] < |unlabeled| && ins[k] in sel && l'[|labeled| + k] == unlabeled[ins[k]])
      && (forall k :: 0 <= k < |outs| ==> outs[k] < |unlabeled| && outs[k] !in sel && u'[k] == unlabeled[outs[k]])
      && (forall k1, k2 :: 0 <= k1 < k2 < |ins| ==> ins[k1] < ins[k2])
      && (forall k1, k2 :: 0 <= k1 < k2 < |outs| ==> outs[k1] < outs[k2])
      && (forall i: nat :: i < |unlabeled| ==> (i in ins <==> i in sel) && (i in outs <==> i !in sel))
  {
    var keep := KeepMask(|unlabeled|, sel);
    var ins := SetPositions(Flip(keep));
    var outs := SetPositions(keep);
    PickAtSetPositions(unlabeled, Flip(keep));
    PickAtSetPositions(unlabeled, keep);
    SetPositionsExact(Flip(keep));
    SetPositionsExact(keep);
    forall k | 0 <= k < |ins| ensures ins[k] in sel {
      assert ins[k] in ins;
    }
    forall k | 0 <= k < |outs| ensures outs[k] !in sel {
      assert outs[k] in outs;
    }
  }

  /** The pool invariant: disjoint, repetition-free pools stay so. */
  lemma PromoteKeepsPoolsDisjoint(labeled: seq<int>, unlabeled: seq<int>, sel: set<nat>)
    requires Distinct(labeled) && Distinct(unlabeled) && Disjoint(labeled, unlabeled)
    ensures Distinct(Promote(labeled, unlabeled, sel).0)
    ensures Distinct(Promote(labeled, unlabeled, sel).1)
    ensures Disjoint(Promote(labeled, unlabeled, sel).0, Promote(labeled, unlabeled, sel).1)
  {
    var keep := KeepMask(|unlabeled|, sel);
    var moved, kept := Pick(unlabeled, Flip(keep)), Pick(unlabeled, keep);
    PickDistinct(unlabeled, Flip(keep));
    PickDistinct(unlabeled, keep);
    PickComplementsDisjoint(unlabeled, keep);
    forall a, b | 0 <= a < |labeled| && 0 <= b < |moved| ensures labeled[a] != moved[b] {
      PickFromU(unlabeled, Flip(keep), b);
    }
    forall a, b | 0 <= a < |labeled| && 0 <= b < |kept| ensures labeled[a] != kept[b] {
      PickFromU(unlabeled, keep, b);
    }
    var l' := labeled + moved;
    forall a, b | 0 <= a < b < |l'| ensures l'[a] != l'[b] {
      if b < |labeled| {
      } else if a < |labeled| {
        assert l'[b] == moved[b - |labeled|];
      } else {
        assert l'[a] == moved[a - |labeled|] && l'[b] == moved[b - |labeled|];
      }
    }
    forall a, b | 0 <= a < |l'| && 0 <= b < |kept| ensures l'[a] != kept[b] {
      if a >= |labeled| {
        assert l'[a] == moved[a - |labeled|];
      }
    }
  }

  /** Distinct non-negative positions promote exactly as many entries as
      were sampled. */
  lemma DistinctSamplesSelectAll(samples: seq<int>, n: nat)
    requires AllInBounds(samples, n) && Distinct(samples)
    requires forall k :: 0 <= k < |samples| ==> samples[k] >= 0
    ensures |Selected(samples, n)| == |samples|
  {
    var r := Resolve(samples, n);
    assert Distinct(r);
    DistinctElements(r);
  }

  lemma {:induction false} ElementsAtMost<T>(s: seq<T>)
    ensures |Elements(s)| <= |s|
    ensures !Distinct(s) ==> |Elements(s)| < |s|
    decreases |s|
  {
    if |s| > 0 {
      var init := s[..|s| - 1];
      ElementsAtMost(init);
      assert s == init + [s[|s| - 1]];
      assert Elements(s) == Elements(init) + {s[|s| - 1]};
      if !Distinct(s) && Distinct(init) {
        var i, j :| 0 <= i < j < |s| && s[i] == s[j];
        assert j == |s| - 1 && s[i] == init[i];
        assert Elements(s) == Elements(init);
      }
    }
  }

  /** Duplicate positions collapse in the mask: a selection that names the
      same unlabeled entry twice promotes fewer entries than it has. */
  lemma DuplicatesCollapse(samples: seq<int>, n: nat, i: nat, j: nat)
    requires AllInBounds(samples, n)
    requires i < j < |samples| && Normalize(samples[i], n) == Normalize(samples[j], n)
    ensures |Selected(samples, n)| < |samples|
  {
    var r := Resolve(samples, n);
    assert r[i] == r[j];
    ElementsAtMost(r);
  }

  /** The worked example: labeled [0,1,2], unlabeled [3,4,5,6] and position
      1 selected give labeled [0,1,2,4] and unlabeled [3,5,6]. */
  lemma PromoteExample()
    ensures Promote([0, 1, 2], [3, 4, 5, 6], Selected([1], 4)) == ([0, 1, 2, 4], [3, 5, 6])
  {
    assert Resolve([1], 4) == [1];
    assert Selected([1], 4) == {1};
    var keep := KeepMask(4, {1});
    assert keep == [true, false, true, true];
    var drop := Flip(keep);
    assert drop == [false, true, false, false];
    PickExample([3, 4, 5, 6], keep, drop);
    assert Pick([3, 4, 5, 6], keep) == [3, 5, 6];
    assert Pick([3, 4, 5, 6], drop) == [4];
    assert Promote([0, 1, 2], [3, 4, 5, 6], {1}) == ([0, 1, 2] + [4], [3, 5, 6]);
    assert [0, 1, 2] + [4] == [0, 1, 2, 4];
  }

  /** Pick over four entries, one entry at a time. */
  lemma PickFour(u: seq<int>, m: seq<bool>)
    requires |u| == 4 && |m| == 4
    ensures Pick(u, m) ==
      (if m[0] then [u[0]] else []) + (if m[1] then [u[1]] else []) +
      (if m[2] then [u[2]] else []) + (if m[3] then [u[3]] else [])
  {
    PickLast(u, m);
    PickLast(u[..3], m[..3]);
    PickLast(u[..2], m[..2]);
    PickLast(u[..1], m[..1]);
    assert u[..3][..2] == u[..2] && u[..2][..1] == u[..1] && u[..1][..0] == [];
    assert m[..3][..2] == m[..2] && m[..2][..1] == m[..1] && m[..1][..0] == [];
  }

  /** The two masks of the worked example applied to the unlabeled pool
      [3, 4, 5, 6]. */
  lemma PickExample(u: seq<int>, keep: seq<bool>, drop: seq<bool>)
    requires u == [3, 4, 5, 6]
    requires keep == [true, false, true, true] && drop == [false, true, false, false]
    ensures Pick(u, keep) == [3, 5, 6]
    ensures Pick(u, drop) == [4]
  {
    PickFour(u, keep);
    PickFour(u, drop);
  }

  // ---------------------------------------------------------------------
  // stratified_random_sampling
  // ---------------------------------------------------------------------

  /** A uniformly drawn ordering of the positions 0 .. n-1: the random
      source of `rng.choice` without replacement. */
  predicate IsPositionOrder(order: seq<nat>, n: nat) {
    |order| == n && Distinct(order) && forall k :: 0 <= k < |order| ==> order[k] < n
  }

  /** utils.py stratified_random_sampling: `number` positions drawn
      without replacement from the unlabeled sequence of length n. numpy
      rejects a negative size and a size above n (ValueError): None. */
  function StratifiedRandomSampling(n: nat, number: int, order: seq<nat>): (r: Option<seq<nat>>)
    requires IsPositionOrder(order, n)
    ensures r.None? <==> number < 0 || number > n
    ensures r.Some? ==> |r.value| == number && Distinct(r.value)
    ensures r.Some? ==> forall k :: 0 <= k < |r.value| ==> r.value[k] < n
    ensures r.Some? && number == n ==> Elements(r.value) == Below(n)
  {
    if number < 0 || number > n then None
    else
      DistinctBelowCoversAll(order, n);
      assert order[..n] == order;
      Some(order[..number])
  }

  // ---------------------------------------------------------------------
  // create_loaders: random.shuffle in place, then the subset window
  // ---------------------------------------------------------------------

  function Swap(s: seq<int>, i: nat, j: nat): (r: seq<int>)
    requires i < |s| && j < |s|
    ensures |r| == |s| && multiset(r) == multiset(s)
  {
    s[i := s[j]][j := s[i]]
  }

  /** The draws of CPython's `random.shuffle`: for position i >= 1 a value
      of `randbelow(i + 1)`; draws[0] is never used. */
  predicate ValidDraws(draws: seq<nat>, n: nat) {
    |draws| == n && forall i :: 1 <= i < n ==> draws[i] <= i
  }

  /** The shuffle with positions `i - 1` down to 1 still to be swapped. */
  function ShuffledFrom(s: seq<int>, draws: seq<nat>, i: nat): (r: seq<int>)
    requires ValidDraws(draws, |s|) && i <= |s|
    ensures |r| == |s|
    decreases i
  {
    if i <= 1 then s
    else ShuffledFrom(Swap(s, i - 1, draws[i - 1]), draws, i - 1)
  }

  /** `random.shuffle(s)` for the given draws (Fisher-Yates, high end first). */
  function Shuffled(s: seq<int>, draws: seq<nat>): seq<int>
    requires ValidDraws(draws, |s|)
  {
    ShuffledFrom(s, draws, |s|)
  }

  lemma {:induction false} ShuffledFromPermutes(s: seq<int>, draws: seq<nat>, i: nat)
    requires ValidDraws(draws, |s|) && i <= |s|
    ensures multiset(ShuffledFrom(s, draws, i)) == multiset(s)
    decreases i
  {
    if i > 1 {
      ShuffledFromPermutes(Swap(s, i - 1, draws[i - 1]), draws, i - 1);
    }
  }

  /** The shuffle reorders the unlabeled pool and nothing else. */
  lemma ShuffledPermutes(s: seq<int>, draws: seq<nat>)
    requires ValidDraws(draws, |s|)
    ensures |Shuffled(s, draws)| == |s| && multiset(Shuffled(s, draws)) == multiset(s)
  {
    ShuffledFromPermutes(s, draws, |s|);
  }

  method Shuffle(a: array<int>, draws: seq<nat>)
    requires ValidDraws(draws, a.Length)
    modifies a
    ensures a[..] == Shuffled(old(a[..]), draws)
  {
    var i: nat := a.Length;
    while i > 1
      invariant i <= a.Length
      invariant ShuffledFrom(a[..], draws, i) == Shuffled(old(a[..]), draws)
    {
      var j := draws[i - 1];
      ghost var before := a[..];
      var t := a[i - 1];
      a[i - 1] := a[j];
      a[j] := t;
      assert a[..] == Swap(before, i - 1, j);
      i := i - 1;
    }
  }

  /** A torch Subset view: which dataset entries a loader enumerates. */
  class DataSubset {
    var indices: seq<int>

    constructor (indices: seq<int>)
      ensures this.indices == indices
    {
      this.indices := indices;
    }
  }

  /** The index handling of utils.py create_loaders: the labeled view gets
      exactly the labeled indices, the unlabeled pool is shuffled in place,
      and the unlabeled view is the window `unlabeled[:subset_num]`. */
  method CreateLoaders(labeledDataset: DataSubset, unlabeledDataset: DataSubset,
                       labeledIndices: seq<int>, unlabeledIndices: array<int>,
                       draws: seq<nat>, unlabeledSubsetNum: int)
    requires ValidDraws(draws, unlabeledIndices.Length)
    modifies labeledDataset, unlabeledDataset, unlabeledIndices
    ensures unlabeledIndices[..] == Shuffled(old(unlabeledIndices[..]), draws)
    ensures unlabeledDataset.indices == PyPrefix(unlabeledIndices[..], unlabeledSubsetNum)
    ensures labeledDataset != unlabeledDataset ==> labeledDataset.indices == labeledIndices
  {
    labeledDataset.indices := labeledIndices;
    Shuffle(unlabeledIndices, draws);
    unlabeledDataset.indices := PyPrefix(unlabeledIndices[..], unlabeledSubsetNum);
  }

  /** The unlabeled window is drawn from the unlabeled pool, so it stays
      disjoint from the labeled pool, and it has min(subset_num, |pool|)
      entries for a non-negative subset_num. */
  lemma UnlabeledWindow(labeled: seq<int>, unlabeled: seq<int>, draws: seq<nat>, subsetNum: int)
    requires ValidDraws(draws, |unlabeled|)
    ensures var w := PyPrefix(Shuffled(unlabeled, draws), subsetNum);
      && (forall k :: 0 <= k < |w| ==> w[k] in unlabeled)
      && (subsetNum >= 0 ==> |w| == if subsetNum < |unlabeled| then subsetNum else |unlabeled|)
      && (Disjoint(labeled, unlabeled) ==> Disjoint(labeled, w))
  {
    var sh := Shuffled(unlabeled, draws);
    ShuffledPermutes(unlabeled, draws);
    var w := PyPrefix(sh, subsetNum);
    forall k | 0 <= k < |w| ensures w[k] in unlabeled {
      assert w[k] == sh[k];
      assert w[k] in multiset(sh);
    }
  }

  // ---------------------------------------------------------------------
  // The pseudo-label loop of perform_sampling
  // ---------------------------------------------------------------------

  /** One iteration of the relabeling loop on target list `t`. */
  function RelabelStep(t: seq<int>, j: nat, pseudo: int): (r: seq<int>)
    requires j < |t|
    ensures |r| == |t|
  {
    if t[j] == pseudo then t else t[j := pseudo]
  }

  /** The targets after the first k iterations of the relabeling loop:
      iteration i overwrites targets[positions[i]] with labels[i] when
      they differ. */
  function Relabeled(t: seq<int>, positions: seq<int>, labels: seq<int>, k: nat): (r: seq<int>)
    requires k <= |positions| && k <= |labels| && AllInBounds(positions, |t|)
    ensures |r| == |t|
    decreases k
  {
    if k == 0 then t
    else RelabelStep(Relabeled(t, positions, labels, k - 1), Normalize(positions[k - 1], |t|), labels[k - 1])
  }

  /** The agreement flag iteration k records: 1 when the target it reads
      already equals the pseudo label. */
  function AgreementFlag(t: seq<int>, positions: seq<int>, labels: seq<int>, k: nat): real
    requires k < |positions| && k < |labels| && AllInBounds(positions, |t|)
  {
    if Relabeled(t, positions, labels, k)[Normalize(positions[k], |t|)] == labels[k] then 1.0 else 0.0
  }

  /** perform_sampling's pseudo-label loop: acc[i] is 1 when the target at
      position samples_indices[i] already equals the pseudo label (as it is
      when iteration i reads it), and 0 after overwriting it. */
  method PseudoLabel(targets: array<int>, positions: seq<int>, labels: seq<int>)
    returns (acc: array<real>)
    requires |labels| >= |positions| && AllInBounds(positions, targets.Length)
    modifies targets
    ensures fresh(acc) && acc.Length == |positions|
    ensures targets[..] == Relabeled(old(targets[..]), positions, labels, |positions|)
    ensures forall i :: 0 <= i < |positions| ==> acc[i] == AgreementFlag(old(targets[..]), positions, labels, i)
  {
    ghost var t0 := targets[..];
    acc := new real[|positions|](_ => 0.0);
    var i := 0;
    while i < |positions|
      invariant 0 <= i <= |positions| && |t0| == targets.Length && acc.Length == |positions|
      invariant targets[..] == Relabeled(t0, positions, labels, i)
      invariant forall k :: 0 <= k < i ==> acc[k] == AgreementFlag(t0, positions, labels, k)
      invariant forall k :: i <= k < |positions| ==> acc[k] == 0.0
    {
      var j := Normalize(positions[i], targets.Length);
      assert AgreementFlag(t0, positions, labels, i) == if targets[j] == labels[i] then 1.0 else 0.0;
      if targets[j] == labels[i] {
        acc[i] := 1.0;
      } else {
        targets[j] := labels[i];
      }
      i := i + 1;
    }
  }

  /** Entries no iteration points at are never written. */
  lemma {:induction false} RelabeledElsewhere(t: seq<int>, positions: seq<int>, labels: seq<int>, k: nat, x: nat)
    requires k <= |positions| && k <= |labels| && AllInBounds(positions, |t|) && x < |t|
    requires forall i :: 0 <= i < k ==> Normalize(positions[i], |t|) != x
    ensures Relabeled(t, positions, labels, k)[x] == t[x]
    decreases k
  {
    if k > 0 {
      RelabeledElsewhere(t, positions, labels, k - 1, x);
    }
  }

  /** With repetition-free positions (as the samplers return): the
      agreement flag of iteration i compares the ORIGINAL target with the
      pseudo label, and afterwards every selected target is its pseudo label. */
  lemma {:induction false} RelabeledDistinct(t: seq<int>, positions: seq<int>, labels: seq<int>, k: nat)
    requires k <= |positions| && k <= |labels| && AllInBounds(positions, |t|)
    requires Distinct(Resolve(positions, |t|))
    ensures forall i :: 0 <= i < k ==>
      Relabeled(t, positions, labels, k)[Normalize(positions[i], |t|)] == labels[i]
    ensures forall i :: 0 <= i < |positions| && k <= i ==>
      Relabeled(t, positions, labels, k)[Normalize(positions[i], |t|)] == t[Normalize(positions[i], |t|)]
    decreases k
  {
    if k > 0 {
      RelabeledDistinct(t, positions, labels, k - 1);
      var r := Resolve(positions, |t|);
      forall i | 0 <= i < |positions| && k - 1 < i
        ensures Normalize(positions[i], |t|) != Normalize(positions[k - 1], |t|)
      {
        assert r[k - 1] != r[i];
      }
      forall i | 0 <= i < k - 1
        ensures Normalize(positions[i], |t|) != Normalize(positions[k - 1], |t|)
      {
        assert r[i] != r[k - 1];
      }
    }
  }

  /** The loop as written reads and writes `targets[j]` with j taken
      straight from samples_indices, which postprocess_indices treats as a
      position in the unlabeled pool. On the example above (labeled
      [0, 1, 2], unlabeled [3, 4, 5, 6], position 1 promoting example 4)
      the pseudo label lands on example 1, which was already labeled, and
      example 4 keeps its old target. */
  lemma PseudoLabelHitsWrongExample()
    ensures var labeled, unlabeled := [0, 1, 2], [3, 4, 5, 6];
      var t := [0, 0, 0, 0, 0, 0, 0];
      var after := Relabeled(t, [1], [9], 1);
      && Promote(labeled, unlabeled, Selected([1], 4)).0 == labeled + [unlabeled[1]]
      && 1 in labeled
      && after[1] == 9
      && after[unlabeled[1]] == t[unlabeled[1]]
  {
    PromoteExample();
    var t := [0, 0, 0, 0, 0, 0, 0];
    assert Relabeled(t, [1], [9], 0) == t;
  }

  /** The dataset indices that the sampled positions designate in the
      unlabeled pool. */
  function PromotedIndices(unlabeled: seq<int>, positions: seq<int>): (r: seq<int>)
    requires AllInBounds(positions, |unlabeled|)
    ensures |r| == |positions|
    ensures forall k :: 0 <= k < |r| ==> r[k] == unlabeled[Normalize(positions[k], |unlabeled|)]
  {
    seq(|positions|, k requires 0 <= k < |positions| => unlabeled[Normalize(positions[k], |unlabeled|)])
  }

  /** Every entry of the pool is a valid index of a target list of length n. */
  predicate IndexesTargets(pool: seq<int>, n: nat) {
    forall k :: 0 <= k < |pool| ==> 0 <= pool[k] < n
  }

  /** The pseudo-label loop with each position first resolved through the
      unlabeled pool, so that it reads and writes the target of the example
      being promoted. */
  method PseudoLabelPromoted(targets: array<int>, unlabeled: seq<int>, positions: seq<int>, labels: seq<int>)
    returns (acc: array<real>)
    requires |labels| >= |positions| && AllInBounds(positions, |unlabeled|)
    requires IndexesTargets(unlabeled, targets.Length)
    modifies targets
    ensures fresh(acc) && acc.Length == |positions|
    ensures AllInBounds(PromotedIndices(unlabeled, positions), targets.Length)
    ensures targets[..] == Relabeled(old(targets[..]), PromotedIndices(unlabeled, positions), labels, |positions|)
    ensures forall i :: 0 <= i < |positions| ==>
      acc[i] == AgreementFlag(old(targets[..]), PromotedIndices(unlabeled, positions), labels, i)
  {
    var promoted := PromotedIndices(unlabeled, positions);
    assert AllInBounds(promoted, targets.Length);
    acc := PseudoLabel(targets, promoted, labels);
  }

  /** Repetition-free positions into a repetition-free pool designate
      repetition-free dataset indices. */
  lemma PromotedDistinct(unlabeled: seq<int>, positions: seq<int>, n: nat)
    requires AllInBounds(positions, |unlabeled|) && IndexesTargets(unlabeled, n) && Distinct(unlabeled)
    requires Distinct(Resolve(positions, |unlabeled|))
    ensures AllInBounds(PromotedIndices(unlabeled, positions), n)
    ensures Distinct(Resolve(PromotedIndices(unlabeled, positions), n))
  {
    var promoted := PromotedIndices(unlabeled, positions);
    assert AllInBounds(promoted, n);
    var r := Resolve(promoted, n);
    var rp := Resolve(positions, |unlabeled|);
    forall a, b | 0 <= a < b < |r|
      ensures r[a] != r[b]
    {
      assert rp[a] != rp[b];
      assert r[a] == unlabeled[rp[a]] && r[b] == unlabeled[rp[b]];
    }
  }

  /** The intended effect: with a repetition-free unlabeled pool and
      repetition-free positions, every promoted example ends up with its
      pseudo label, and every other example, in particular every example of
      the labeled pool, keeps its target. */
  lemma PromotedGetPseudoLabels(t: seq<int>, unlabeled: seq<int>, positions: seq<int>, labels: seq<int>, x: nat)
    requires |labels| >= |positions| && AllInBounds(positions, |unlabeled|)
    requires IndexesTargets(unlabeled, |t|) && Distinct(unlabeled)
    requires Distinct(Resolve(positions, |unlabeled|))
    requires x < |t|
    ensures AllInBounds(PromotedIndices(unlabeled, positions), |t|)
    ensures forall i :: 0 <= i < |positions| ==>
      Relabeled(t, PromotedIndices(unlabeled, positions), labels, |positions|)[unlabeled[Normalize(positions[i], |unlabeled|)]]
        == labels[i]
    ensures x !in PromotedIndices(unlabeled, positions) ==>
      Relabeled(t, PromotedIndices(unlabeled, positions), labels, |positions|)[x] == t[x]
  {
    var promoted := PromotedIndices(unlabeled, positions);
    PromotedDistinct(unlabeled, positions, |t|);
    RelabeledDistinct(t, promoted, labels, |positions|);
    if x !in promoted {
      forall i | 0 <= i < |positions|
        ensures Normalize(promoted[i], |t|) != x
      {
        assert promoted[i] in promoted;
      }
      RelabeledElsewhere(t, promoted, labels, |positions|, x);
    }
  }
}
