/** active_learning/uncertainty_sampling.py: per-example uncertainty scores
    over softmax probability rows, the strategy chosen by name, and the
    selection of the `number` most uncertain unlabeled positions.

    Entropy (a logarithm) and the mean cosine similarity to the labeled
    feature bank are not computed here: each unlabeled example carries them
    as given values. */
module UncertaintySampling {
  import opened Sequences

  /** One unlabeled example as the scorer sees it. */
  datatype Row = Row(probs: seq<real>, entropy: real, meanSimilarity: real)

  /** The scoring methods of the class, one per static method. */
  datatype Method = ByLeastConfidence | ByMarginConfidence | ByRatioConfidence | ByEntropy | ByDensityWeighted

  // ---------------------------------------------------------------------
  // Name-based dispatch (`getattr(self, name)` at construction)
  // ---------------------------------------------------------------------

  /** The Python name of each method; looking that name up finds the method. */
  function MethodName(m: Method): (name: string)
    ensures MethodNamed(name) == Some(m)
  {
    match m
    case ByLeastConfidence => "least_confidence"
    case ByMarginConfidence => "margin_confidence"
    case ByRatioConfidence => "ratio_confidence"
    case ByEntropy => "entropy_based"
    case ByDensityWeighted => "density_weighted"
  }

  /** The lookup by name; a method is found under its own name only. */
  function MethodNamed(name: string): (r: Option<Method>)
  {
    if name == "least_confidence" then Some(ByLeastConfidence)
    else if name == "margin_confidence" then Some(ByMarginConfidence)
    else if name == "ratio_confidence" then Some(ByRatioConfidence)
    else if name == "entropy_based" then Some(ByEntropy)
    else if name == "density_weighted" then Some(ByDensityWeighted)
    else None
  }

  /** A constructed UncertaintySampling object. */
  datatype Sampler = Sampler(methodName: string, kind: Method, verbose: bool)

  /** The constructor: an unknown method name fails the attribute lookup. */
  function NewSampler(name: string, verbose: bool): (r: Option<Sampler>)
    ensures r.None? <==> name !in {"least_confidence", "margin_confidence", "ratio_confidence",
                                   "entropy_based", "density_weighted"}
    ensures r.Some? ==> r.value.methodName == name && MethodName(r.value.kind) == name
  {
    match MethodNamed(name)
    case None => None
    case Some(m) => Some(Sampler(name, m, verbose))
  }

  // ---------------------------------------------------------------------
  // Scores of one row
  // ---------------------------------------------------------------------

  /** least_confidence: the largest class probability (`max` over the row). */
  function LeastConfidence(probs: seq<real>): (r: real)
    requires |probs| > 0
    ensures forall k :: 0 <= k < |probs| ==> probs[k] <= r
    ensures exists k :: 0 <= k < |probs| && probs[k] == r
    decreases |probs|
  {
    if |probs| == 1 then probs[0]
    else
      var m := LeastConfidence(probs[..|probs| - 1]);
      var last := probs[|probs| - 1];
      assert forall k :: 0 <= k < |probs| - 1 ==> probs[k] == probs[..|probs| - 1][k];
      if last > m then last else m
  }

  predicate SortedAscending(s: seq<real>) {
    forall i, j :: 0 <= i < j < |s| ==> s[i] <= s[j]
  }

  /** Insert x before the first entry it does not exceed. */
  function InsertAscending(x: real, s: seq<real>): (r: seq<real>)
    ensures |r| == |s| + 1 && multiset(r) == multiset(s) + multiset{x}
    decreases |s|
  {
    if s == [] || x <= s[0] then [x] + s
    else
      assert s == [s[0]] + s[1..];
      [s[0]] + InsertAscending(x, s[1..])
  }

  /** The first entry after an insertion is the smaller of x and the old
      first entry. */
  lemma InsertAscendingFirst(x: real, s: seq<real>)
    ensures InsertAscending(x, s)[0] == if s == [] || x <= s[0] then x else s[0]
  {
  }

  /** Inserting into a sorted row keeps it sorted. */
  lemma {:induction false} InsertAscendingSorted(x: real, s: seq<real>)
    requires SortedAscending(s)
    ensures SortedAscending(InsertAscending(x, s))
    decreases |s|
  {
    if s != [] && x > s[0] {
      var tail := s[1..];
      InsertAscendingSorted(x, tail);
      InsertAscendingFirst(x, tail);
      var rest := InsertAscending(x, tail);
      assert s[0] <= rest[0];
      assert forall k :: 0 <= k < |rest| ==> rest[0] <= rest[k];
      assert InsertAscending(x, s) == [s[0]] + rest;
    }
  }

  /** `torch.sort(probs)` on one row. */
  function SortAscending(s: seq<real>): (r: seq<real>)
    ensures |r| == |s| && multiset(r) == multiset(s) && SortedAscending(r)
    decreases |s|
  {
    if s == [] then []
    else
      var init := s[..|s| - 1];
      assert s == init + [s[|s| - 1]];
      InsertAscendingSorted(s[|s| - 1], SortAscending(init));
      InsertAscending(s[|s| - 1], SortAscending(init))
  }

  /** The last entry after an insertion into a sorted row is the larger of
      x and the old last entry. */
  lemma {:induction false} InsertAscendingLast(x: real, s: seq<real>)
    requires SortedAscending(s)
    ensures InsertAscending(x, s)[|s|] == if s == [] || x > s[|s| - 1] then x else s[|s| - 1]
    decreases |s|
  {
    if s != [] && x > s[0] {
      InsertAscendingLast(x, s[1..]);
      assert InsertAscending(x, s)[|s|] == InsertAscending(x, s[1..])[|s| - 1];
    }
  }

  /** The last entry of the sorted row is the row maximum. */
  lemma {:induction false} SortedTopIsMax(probs: seq<real>)
    requires |probs| > 0
    ensures SortAscending(probs)[|probs| - 1] == LeastConfidence(probs)
    decreases |probs|
  {
    var n := |probs|;
    var init := probs[..n - 1];
    InsertAscendingLast(probs[n - 1], SortAscending(init));
    if n > 1 {
      SortedTopIsMax(init);
    }
  }

  /** Every sorted entry is one of the row's entries. */
  lemma SortedEntryInRow(probs: seq<real>, i: nat)
    requires i < |probs|
    ensures SortAscending(probs)[i] in probs
  {
    assert SortAscending(probs)[i] in multiset(probs);
  }

  /** The second largest probability: the next-to-last entry of the sorted
      row. It is an entry of the row and at most the row maximum. */
  function RunnerUp(probs: seq<real>): (r: real)
    requires |probs| >= 2
    ensures r in probs
    ensures r <= LeastConfidence(probs)
  {
    SortedTopIsMax(probs);
    SortedEntryInRow(probs, |probs| - 2);
    SortAscending(probs)[|probs| - 2]
  }

  /** margin_confidence: largest minus second largest probability. */
  function MarginConfidence(probs: seq<real>): (r: real)
    requires |probs| >= 2
    ensures r >= 0.0
    ensures r + RunnerUp(probs) == LeastConfidence(probs)
  {
    LeastConfidence(probs) - RunnerUp(probs)
  }

  /** Softmax outputs: every entry strictly positive. */
  predicate PositiveRow(probs: seq<real>) {
    forall k :: 0 <= k < |probs| ==> probs[k] > 0.0
  }

  /** ratio_confidence: largest over second largest probability. */
  function RatioConfidence(probs: seq<real>): (r: real)
    requires |probs| >= 2 && PositiveRow(probs)
    ensures r >= 1.0
    ensures IsRatioOf(r, LeastConfidence(probs), RunnerUp(probs))
  {
    RunnerUpPositive(probs);
    var q := Quotient(LeastConfidence(probs), RunnerUp(probs));
    QuotientAtLeastOne(q, LeastConfidence(probs), RunnerUp(probs));
    q
  }

  /** q is the ratio of a to b: q times b gives back a. */
  predicate IsRatioOf(q: real, a: real, b: real) {
    b != 0.0 && q * b == a
  }

  /** Real division, with the product identity that defines it. */
  function Quotient(a: real, b: real): (q: real)
    requires b > 0.0
    ensures IsRatioOf(q, a, b)
  {
    a / b
  }

  /** The ratio is 1 exactly when the top two probabilities tie, which is
      also exactly when the margin is 0. */
  lemma RatioOneIffTie(probs: seq<real>)
    requires |probs| >= 2 && PositiveRow(probs)
    ensures RatioConfidence(probs) == 1.0 <==> RunnerUp(probs) == LeastConfidence(probs)
    ensures RatioConfidence(probs) == 1.0 <==> MarginConfidence(probs) == 0.0
  {
    RunnerUpPositive(probs);
    QuotientIsOne(LeastConfidence(probs), RunnerUp(probs));
  }

  lemma QuotientIsOne(a: real, b: real)
    requires b > 0.0
    ensures a / b == 1.0 <==> a == b
  {
    var q := a / b;
    assert q * b == a;
  }

  lemma RunnerUpPositive(probs: seq<real>)
    requires |probs| >= 2 && PositiveRow(probs)
    ensures RunnerUp(probs) > 0.0
  {
    var k :| 0 <= k < |probs| && probs[k] == RunnerUp(probs);
  }

  lemma QuotientAtLeastOne(q: real, a: real, b: real)
    requires b > 0.0 && a >= b && IsRatioOf(q, a, b)
    ensures q >= 1.0
  {
  }

  lemma ScaledBelow(x: real, w: real)
    ensures x >= 0.0 && 0.0 <= w <= 1.0 ==> 0.0 <= x * w <= x
  {
    if x >= 0.0 && 0.0 <= w <= 1.0 {
      assert x - x * w == x * (1.0 - w);
    }
  }

  /** a/b >= c/d when a >= c >= 0 and 0 < b <= d. */
  lemma RatioMonotone(a: real, b: real, c: real, d: real)
    requires 0.0 < b <= d && 0.0 <= c <= a
    ensures a / b >= c / d
  {
    var x, y := a / b, c / d;
    assert x * b == a && y * d == c;
    if x < y {
      assert y * b - x * b == (y - x) * b;
      assert y * d - y * b == y * (d - b);
    }
  }

  /** density_weighted (its final combination): least confidence scaled by
      one minus the mean similarity to the labeled feature bank. */
  function DensityWeighted(row: Row): (r: real)
    requires |row.probs| > 0
    ensures row.meanSimilarity == 0.0 ==> r == LeastConfidence(row.probs)
    ensures 0.0 <= row.meanSimilarity <= 1.0 && LeastConfidence(row.probs) >= 0.0 ==>
      0.0 <= r <= LeastConfidence(row.probs)
  {
    var lc := LeastConfidence(row.probs);
    var w := 1.0 - row.meanSimilarity;
    ScaledBelow(lc, w);
    lc * w
  }

  /** The rows a method can score: a class dimension to take the maximum
      over, two classes to compare, and non-zero probabilities to divide by. */
  predicate Scorable(m: Method, row: Row) {
    match m
    case ByLeastConfidence => |row.probs| >= 1
    case ByDensityWeighted => |row.probs| >= 1
    case ByMarginConfidence => |row.probs| >= 2
    case ByRatioConfidence => |row.probs| >= 2 && PositiveRow(row.probs)
    case ByEntropy => true
  }

  function Score(m: Method, row: Row): real
    requires Scorable(m, row)
  {
    match m
    case ByLeastConfidence => LeastConfidence(row.probs)
    case ByMarginConfidence => MarginConfidence(row.probs)
    case ByRatioConfidence => RatioConfidence(row.probs)
    case ByEntropy => row.entropy
    case ByDensityWeighted => DensityWeighted(row)
  }

  /** The three confidence scores agree on direction: a row whose top
      probability is no lower and whose runner-up is no higher than
      another's is never scored as more uncertain by any of them. */
  lemma ConfidenceScoresAgree(p: seq<real>, q: seq<real>)
    requires |p| >= 2 && |q| >= 2 && PositiveRow(p) && PositiveRow(q)
    requires LeastConfidence(p) >= LeastConfidence(q)
    requires RunnerUp(p) <= RunnerUp(q)
    ensures MarginConfidence(p) >= MarginConfidence(q)
    ensures RatioConfidence(p) >= RatioConfidence(q)
  {
    RunnerUpPositive(p);
    RunnerUpPositive(q);
    RatioMonotone(LeastConfidence(p), RunnerUp(p), LeastConfidence(q), RunnerUp(q));
  }

  // ---------------------------------------------------------------------
  // argsort and the selection
  // ---------------------------------------------------------------------

  /** Position a comes no later than position b in the requested order. */
  predicate Precedes(keys: seq<real>, descending: bool, a: nat, b: nat)
    requires a < |keys| && b < |keys|
  {
    if descending then keys[a] >= keys[b] else keys[a] <= keys[b]
  }

  predicate InOrder(keys: seq<real>, descending: bool, p: seq<nat>)
    requires forall k :: 0 <= k < |p| ==> p[k] < |keys|
  {
    forall i, j :: 0 <= i < j < |p| ==> Precedes(keys, descending, p[i], p[j])
  }

  /** Insert position x before the first entry it precedes. */
  function InsertPosition(keys: seq<real>, descending: bool, x: nat, p: seq<nat>): (r: seq<nat>)
    requires x < |keys| && forall k :: 0 <= k < |p| ==> p[k] < |keys|
    ensures |r| == |p| + 1
    ensures forall k :: 0 <= k < |r| ==> r[k] < |keys|
    ensures forall y :: y in r <==> y == x || y in p
    decreases |p|
  {
    if p == [] || Precedes(keys, descending, x, p[0]) then [x] + p
    else [p[0]] + InsertPosition(keys, descending, x, p[1..])
  }

  /** Inserting keeps the positions in key order. */
  lemma {:induction false} InsertPositionInOrder(keys: seq<real>, descending: bool, x: nat, p: seq<nat>)
    requires x < |keys| && forall k :: 0 <= k < |p| ==> p[k] < |keys|
    requires InOrder(keys, descending, p)
    ensures InOrder(keys, descending, InsertPosition(keys, descending, x, p))
    decreases |p|
  {
    if p != [] && !Precedes(keys, descending, x, p[0]) {
      var tail := p[1..];
      InsertPositionInOrder(keys, descending, x, tail);
      var rest := InsertPosition(keys, descending, x, tail);
      forall k | 0 <= k < |rest|
        ensures Precedes(keys, descending, p[0], rest[k])
      {
        assert rest[k] in rest;
        if rest[k] != x {
          var t :| 0 <= t < |tail| && tail[t] == rest[k];
          assert tail[t] == p[t + 1];
        }
      }
      assert InsertPosition(keys, descending, x, p) == [p[0]] + rest;
    }
  }

  /** Inserting a new position into repetition-free positions keeps them so. */
  lemma {:induction false} InsertPositionDistinct(keys: seq<real>, descending: bool, x: nat, p: seq<nat>)
    requires x < |keys| && forall k :: 0 <= k < |p| ==> p[k] < |keys|
    requires x !in p && Distinct(p)
    ensures Distinct(InsertPosition(keys, descending, x, p))
    decreases |p|
  {
    if p != [] && !Precedes(keys, descending, x, p[0]) {
      var tail := p[1..];
      assert p[0] !in tail;
      InsertPositionDistinct(keys, descending, x, tail);
      assert InsertPosition(keys, descending, x, p) == [p[0]] + InsertPosition(keys, descending, x, tail);
    }
  }

  /** argsort of the first n keys: a permutation of the positions below n. */
  function ArgSortPrefix(keys: seq<real>, descending: bool, n: nat): (p: seq<nat>)
    requires n <= |keys|
    ensures |p| == n
    ensures forall k :: 0 <= k < |p| ==> p[k] < n
    ensures forall y: nat :: y in p <==> y < n
    decreases n
  {
    if n == 0 then []
    else
      var r := InsertPosition(keys, descending, n - 1, ArgSortPrefix(keys, descending, n - 1));
      assert forall k :: 0 <= k < |r| ==> r[k] in r;
      r
  }

  /** The positions of the prefix argsort are repetition-free and in key order. */
  lemma {:induction false} ArgSortPrefixSorted(keys: seq<real>, descending: bool, n: nat)
    requires n <= |keys|
    ensures Distinct(ArgSortPrefix(keys, descending, n))
    ensures InOrder(keys, descending, ArgSortPrefix(keys, descending, n))
    decreases n
  {
    if n > 0 {
      var prev := ArgSortPrefix(keys, descending, n - 1);
      ArgSortPrefixSorted(keys, descending, n - 1);
      assert n - 1 !in prev;
      InsertPositionInOrder(keys, descending, n - 1, prev);
      InsertPositionDistinct(keys, descending, n - 1, prev);
    }
  }

  /** `keys.argsort()` (ascending) or `keys.argsort(descending=True)`: a
      permutation of the positions with keys in the requested order. The
      order among equal keys is not specified by torch; this model fixes one. */
  function ArgSort(keys: seq<real>, descending: bool): (p: seq<nat>)
    ensures |p| == |keys| && Distinct(p)
    ensures forall y: nat :: y in p <==> y < |keys|
    ensures forall k :: 0 <= k < |p| ==> p[k] < |keys|
    ensures InOrder(keys, descending, p)
  {
    ArgSortPrefixSorted(keys, descending, |keys|);
    ArgSortPrefix(keys, descending, |keys|)
  }

  /** Any prefix of an argsort holds the extreme keys: no position left out
      beats a selected one in the requested order. */
  lemma ArgSortPrefixIsExtreme(keys: seq<real>, descending: bool, number: int)
    ensures var sel := PyPrefix(ArgSort(keys, descending), number);
      && Distinct(sel)
      && (forall k :: 0 <= k < |sel| ==> sel[k] < |keys|)
      && (number >= 0 ==> |sel| == if number < |keys| then number else |keys|)
      && (forall a, b :: 0 <= a < |sel| && 0 <= b < |keys| && b !in sel ==>
            Precedes(keys, descending, sel[a], b))
  {
    var p := ArgSort(keys, descending);
    var sel := PyPrefix(p, number);
    forall a, b | 0 <= a < |sel| && 0 <= b < |keys| && b !in sel
      ensures Precedes(keys, descending, sel[a], b)
    {
      assert b in p;
      var j :| 0 <= j < |p| && p[j] == b;
      assert forall k :: 0 <= k < |sel| ==> sel[k] == p[k];
      assert j >= |sel|;
    }
  }

  // ---------------------------------------------------------------------
  // get_samples
  // ---------------------------------------------------------------------

  /** The scores of one unlabeled batch (`self.method(softmax(output), ...)`). */
  function BatchScores(m: Method, batch: seq<Row>): (r: seq<real>)
    requires forall k :: 0 <= k < |batch| ==> Scorable(m, batch[k])
    ensures |r| == |batch|
    ensures forall k :: 0 <= k < |batch| ==> r[k] == Score(m, batch[k])
  {
    seq(|batch|, k requires 0 <= k < |batch| => Score(m, batch[k]))
  }

  predicate AllScorable(m: Method, batches: seq<seq<Row>>) {
    forall b, k :: 0 <= b < |batches| && 0 <= k < |batches[b]| ==> Scorable(m, batches[b][k])
  }

  /** The score vector after concatenating the batches in loader order. */
  function Scores(m: Method, batches: seq<seq<Row>>): (r: seq<real>)
    requires AllScorable(m, batches)
    decreases |batches|
  {
    if batches == [] then []
    else Scores(m, batches[..|batches| - 1]) + BatchScores(m, batches[|batches| - 1])
  }

  /** The number of unlabeled examples the loader enumerates. */
  function RowCount(batches: seq<seq<Row>>): nat
    decreases |batches|
  {
    if batches == [] then 0 else RowCount(batches[..|batches| - 1]) + |batches[|batches| - 1]|
  }

  lemma {:induction false} ScoresLength(m: Method, batches: seq<seq<Row>>)
    requires AllScorable(m, batches)
    ensures |Scores(m, batches)| == RowCount(batches)
    decreases |batches|
  {
    if batches != [] {
      ScoresLength(m, batches[..|batches| - 1]);
    }
  }

  lemma AllScorableInit(m: Method, batches: seq<seq<Row>>)
    requires AllScorable(m, batches) && batches != []
    ensures AllScorable(m, batches[..|batches| - 1])
  {
    var init := batches[..|batches| - 1];
    forall b, k | 0 <= b < |init| && 0 <= k < |init[b]|
      ensures Scorable(m, init[b][k])
    {
      assert init[b] == batches[b];
    }
  }

  /** The last batch's scores follow the scores of all earlier batches. */
  lemma LastBatchScoreAt(m: Method, batches: seq<seq<Row>>, b: nat, k: nat)
    requires AllScorable(m, batches) && b == |batches| - 1 && k < |batches[b]|
    ensures RowCount(batches[..b]) + k < |Scores(m, batches)|
    ensures Scores(m, batches)[RowCount(batches[..b]) + k] == BatchScores(m, batches[b])[k]
  {
    var init := batches[..b];
    AllScorableInit(m, batches);
    ScoresLength(m, init);
    assert Scores(m, batches) == Scores(m, init) + BatchScores(m, batches[b]);
  }

  /** Appending a batch leaves the scores of the earlier batches in place. */
  lemma EarlierBatchScoreAt(m: Method, batches: seq<seq<Row>>, b: nat, k: nat)
    requires AllScorable(m, batches) && b < |batches| - 1 && k < |batches[b]|
    requires AllScorable(m, batches[..|batches| - 1])
    requires var init := batches[..|batches| - 1];
      && RowCount(init[..b]) + k < |Scores(m, init)|
      && Scores(m, init)[RowCount(init[..b]) + k] == BatchScores(m, init[b])[k]
    ensures RowCount(batches[..b]) + k < |Scores(m, batches)|
    ensures Scores(m, batches)[RowCount(batches[..b]) + k] == BatchScores(m, batches[b])[k]
  {
    var init := batches[..|batches| - 1];
    assert batches[..b] == init[..b];
    assert init[b] == batches[b];
    assert Scores(m, batches) == Scores(m, init) + BatchScores(m, batches[|batches| - 1]);
  }

  lemma {:induction false} BatchScoreAt(m: Method, batches: seq<seq<Row>>, b: nat, k: nat)
    requires AllScorable(m, batches)
    requires b < |batches| && k < |batches[b]|
    ensures RowCount(batches[..b]) + k < |Scores(m, batches)|
    ensures Scores(m, batches)[RowCount(batches[..b]) + k] == BatchScores(m, batches[b])[k]
    decreases |batches|
  {
    if b == |batches| - 1 {
      LastBatchScoreAt(m, batches, b, k);
    } else {
      AllScorableInit(m, batches);
      BatchScoreAt(m, batches[..|batches| - 1], b, k);
      EarlierBatchScoreAt(m, batches, b, k);
    }
  }

  /** One score per enumerated example, in loader order: the example at
      position k of batch b gets the score at offset RowCount(batches[..b]) + k. */
  lemma ScoreAt(m: Method, batches: seq<seq<Row>>, b: nat, k: nat)
    requires AllScorable(m, batches)
    requires b < |batches| && k < |batches[b]|
    ensures RowCount(batches[..b]) + k < |Scores(m, batches)|
    ensures Scores(m, batches)[RowCount(batches[..b]) + k] == Score(m, batches[b][k])
  {
    BatchScoreAt(m, batches, b, k);
  }

  /** get_samples: score every unlabeled example batch by batch, then take
      the first `number` positions of the argsort, descending for
      entropy_based and ascending otherwise. With no batch at all the score
      tensor is still None and `argsort` fails: the model returns None. */
  method GetSamples(sampler: Sampler, batches: seq<seq<Row>>, number: int) returns (r: Option<seq<nat>>)
    requires AllScorable(sampler.kind, batches)
    ensures r.None? <==> batches == []
    ensures r.Some? ==>
      var scores := Scores(sampler.kind, batches);
      && |scores| == RowCount(batches)
      && r.value == PyPrefix(ArgSort(scores, sampler.methodName == "entropy_based"), number)
  {
    var samples: Option<seq<real>> := None;
    var i := 0;
    while i < |batches|
      invariant 0 <= i <= |batches|
      invariant i == 0 ==> samples.None?
      invariant i > 0 ==> samples == Some(Scores(sampler.kind, batches[..i]))
    {
      assert AllScorable(sampler.kind, batches[..i + 1]);
      assert batches[..i + 1][..i] == batches[..i];
      assert batches[..i + 1][i] == batches[i];
      var score := BatchScores(sampler.kind, batches[i]);
      assert Scores(sampler.kind, batches[..i + 1]) == Scores(sampler.kind, batches[..i]) + score;
      if samples.None? {
        assert Scores(sampler.kind, batches[..i]) == [];
        assert Scores(sampler.kind, batches[..i + 1]) == score;
        samples := Some(score);
      } else {
        samples := Some(samples.value + score);
      }
      i := i + 1;
    }
    if samples.None? {
      return None;
    }
    assert batches[..i] == batches;
    ScoresLength(sampler.kind, batches);
    if sampler.methodName == "entropy_based" {
      r := Some(PyPrefix(ArgSort(samples.value, true), number));
    } else {
      r := Some(PyPrefix(ArgSort(samples.value, false), number));
    }
  }

  /** The selection direction of get_samples: for entropy_based every
      selected score is at least every unselected one, for the other
      methods at most; the result has min(number, examples) distinct
      in-range positions. */
  lemma SelectionDirection(sampler: Sampler, batches: seq<seq<Row>>, number: int)
    requires AllScorable(sampler.kind, batches)
    requires NewSampler(sampler.methodName, sampler.verbose) == Some(sampler)
    ensures var scores := Scores(sampler.kind, batches);
      var sel := PyPrefix(ArgSort(scores, sampler.methodName == "entropy_based"), number);
      && Distinct(sel)
      && (forall k :: 0 <= k < |sel| ==> sel[k] < RowCount(batches))
      && (number >= 0 ==> |sel| == if number < |scores| then number else |scores|)
      && (sampler.kind == ByEntropy ==>
            forall a, b :: 0 <= a < |sel| && 0 <= b < |scores| && b !in sel ==> scores[sel[a]] >= scores[b])
      && (sampler.kind != ByEntropy ==>
            forall a, b :: 0 <= a < |sel| && 0 <= b < |scores| && b !in sel ==> scores[sel[a]] <= scores[b])
  {
    var scores := Scores(sampler.kind, batches);
    ScoresLength(sampler.kind, batches);
    assert sampler.methodName == MethodName(sampler.kind);
    ArgSortPrefixIsExtreme(scores, sampler.methodName == "entropy_based", number);
  }
}
