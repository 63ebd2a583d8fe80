/** utils.py loss_module_objective_func: the pairwise margin ranking loss
    of the learning-loss module, over real numbers. Element i of the batch
    is paired with element n-1-i; a pair is penalised unless its predicted
    difference has the sign of its target difference by at least the margin. */
module RankingLoss {

  /** What the function returns: a scalar for 'mean', one entry per pair
      for 'none', NaN for 'mean' over an empty batch (0 / 0 in torch), and
      Python's None for any other reduction (the NotImplementedError is
      constructed but never raised). */
  datatype Loss = Scalar(value: real) | PerPair(values: seq<real>) | NotANumber | NoLoss

  /** An odd batch fails the leading assertion. */
  datatype LossResult = OddBatch | Computed(loss: Loss)

  function Clamp0(x: real): real {
    if x < 0.0 then 0.0 else x
  }

  function Sign(x: real): real {
    if x > 0.0 then 1.0 else if x < 0.0 then -1.0 else 0.0
  }

  /** `2 * sign(clamp(t, min=0)) - 1`: +1 for a positive target
      difference, -1 otherwise (a tie counts as negative). */
  function Indicator(t: real): (r: real)
    ensures r == if t > 0.0 then 1.0 else -1.0
  {
    2.0 * Sign(Clamp0(t)) - 1.0
  }

  /** The hinge of pair i. */
  function PairLoss(pred: seq<real>, target: seq<real>, margin: real, i: nat): (r: real)
    requires |pred| == |target| && i < |pred| / 2
    ensures r >= 0.0
    ensures r >= margin - Indicator(target[i] - target[|target| - 1 - i]) * (pred[i] - pred[|pred| - 1 - i])
    ensures r == 0.0 || r == margin - Indicator(target[i] - target[|target| - 1 - i]) * (pred[i] - pred[|pred| - 1 - i])
  {
    var n := |pred|;
    Clamp0(margin - Indicator(target[i] - target[n - 1 - i]) * (pred[i] - pred[n - 1 - i]))
  }

  function PairLosses(pred: seq<real>, target: seq<real>, margin: real): (r: seq<real>)
    requires |pred| == |target|
    ensures |r| == |pred| / 2
    ensures forall i :: 0 <= i < |r| ==> r[i] == PairLoss(pred, target, margin, i)
  {
    seq(|pred| / 2, i requires 0 <= i < |pred| / 2 => PairLoss(pred, target, margin, i))
  }

  function Sum(s: seq<real>): real
    decreases |s|
  {
    if s == [] then 0.0 else Sum(s[..|s| - 1]) + s[|s| - 1]
  }

  function LossModuleObjective(pred: seq<real>, target: seq<real>, margin: real, reduction: string): (r: LossResult)
    requires |pred| == |target|
    ensures r.OddBatch? <==> |pred| % 2 == 1
    ensures r.Computed? && reduction == "none" ==>
      r.loss.PerPair? && r.loss.values == PairLosses(pred, target, margin)
    ensures r.Computed? && reduction == "mean" && |pred| == 0 ==> r.loss.NotANumber?
    ensures r.Computed? && reduction == "mean" && |pred| > 0 ==>
      r.loss.Scalar? && r.loss.value >= 0.0 &&
      r.loss.value * (|pred| / 2) as real == Sum(PairLosses(pred, target, margin))
    ensures r.Computed? && reduction != "mean" && reduction != "none" ==> r.loss.NoLoss?
  {
    if |pred| % 2 == 1 then OddBatch
    else if reduction == "mean" then
      var half := |pred| / 2;
      if half == 0 then Computed(NotANumber)
      else
        var total := Sum(PairLosses(pred, target, margin));
        SumNonNegative(PairLosses(pred, target, margin));
        Computed(Scalar(total / half as real))
    else if reduction == "none" then Computed(PerPair(PairLosses(pred, target, margin)))
    else Computed(NoLoss)
  }

  lemma {:induction false} SumNonNegative(s: seq<real>)
    requires forall i :: 0 <= i < |s| ==> s[i] >= 0.0
    ensures Sum(s) >= 0.0
    ensures Sum(s) == 0.0 <==> forall i :: 0 <= i < |s| ==> s[i] == 0.0
    decreases |s|
  {
    if s != [] {
      var init := s[..|s| - 1];
      SumNonNegative(init);
    }
  }

  lemma QuotientZero(s: real, h: real)
    requires h > 0.0
    ensures s / h == 0.0 <==> s == 0.0
  {
    if s / h == 0.0 {
      assert s == (s / h) * h;
    }
  }

  /** The mean loss vanishes exactly when every pair is ranked the right
      way round by at least the margin. */
  lemma MeanLossZeroIffRanked(pred: seq<real>, target: seq<real>, margin: real)
    requires |pred| == |target| && |pred| % 2 == 0 && |pred| > 0
    ensures LossModuleObjective(pred, target, margin, "mean") == Computed(Scalar(0.0)) <==>
      forall i :: 0 <= i < |pred| / 2 ==>
        Indicator(target[i] - target[|target| - 1 - i]) * (pred[i] - pred[|pred| - 1 - i]) >= margin
  {
    var losses := PairLosses(pred, target, margin);
    SumNonNegative(losses);
    var half := (|pred| / 2) as real;
    QuotientZero(Sum(losses), half);
    assert LossModuleObjective(pred, target, margin, "mean") == Computed(Scalar(Sum(losses) / half));
    forall i | 0 <= i < |pred| / 2
      ensures losses[i] == 0.0 <==>
        Indicator(target[i] - target[|target| - 1 - i]) * (pred[i] - pred[|pred| - 1 - i]) >= margin
    {
      assert losses[i] == PairLoss(pred, target, margin, i);
    }
  }
}
