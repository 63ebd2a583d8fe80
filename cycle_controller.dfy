/** code/train.py main, the epoch loop: keep the best macro recall and the
    model that reached it, count epochs without improvement, and once the
    warm-up is over and that count exceeds the patience, run one
    active-learning cycle that adds a fixed number of labeled examples.
    Training stops after the epoch range ends or right after the first epoch
    that leaves more labeled examples than the stop threshold.

    Training, validation and sampling themselves are not modelled: the
    validation recall of each epoch is an input, and a report or a model
    copy is identified by the epoch that produced it. */
module CycleController {
  import opened Sequences

  /** The command-line values the loop reads. */
  datatype Config = Config(
    startEpoch: int,
    epochs: int,
    labeledWarmupEpochs: int,
    addLabeledEpochs: int,
    addLabeled: int,
    stopLabeled: int,
    startLabeled: int)

  /** The weights `best_model` holds: the deep copy taken before training,
      or the one taken at the end of an epoch. */
  datatype Snapshot = InitialModel | AfterEpoch(epoch: int)

  /** What save_checkpoint receives at the end of an epoch. */
  datatype Checkpoint = Checkpoint(epoch: int, stateOf: Snapshot, bestRecall: real, isBest: bool)

  /** The loop variables. A validation report is named by its epoch;
      cycleReports holds the rows of metrics_per_cycle. */
  datatype State = State(
    bestRecall: real,
    bestReport: Option<int>,
    bestModel: Snapshot,
    lastBestEpochs: nat,
    currentLabeled: int,
    cycleReports: seq<int>,
    checkpoints: seq<Checkpoint>)

  function Initial(cfg: Config): State {
    State(0.0, None, InitialModel, 0, cfg.startLabeled, [], [])
  }

  /** The number of epochs in range(start_epoch, epochs). */
  function EpochCount(cfg: Config): nat {
    if cfg.epochs > cfg.startEpoch then cfg.epochs - cfg.startEpoch else 0
  }

  predicate IsBest(s: State, recall: real) {
    recall > s.bestRecall
  }

  /** The stagnation counter after this epoch's validation. */
  function Counter(s: State, recall: real): (c: nat)
    ensures IsBest(s, recall) ==> c == 0
    ensures !IsBest(s, recall) ==> c == s.lastBestEpochs + 1
  {
    if IsBest(s, recall) then 0 else s.lastBestEpochs + 1
  }

  /** The sampling trigger of this epoch. */
  predicate Fires(cfg: Config, s: State, epoch: int, recall: real) {
    epoch > cfg.labeledWarmupEpochs && Counter(s, recall) > cfg.addLabeledEpochs
  }

  /** One iteration of the loop body. */
  function Step(cfg: Config, s: State, epoch: int, recall: real): (t: State)
    // sampling adds exactly add_labeled; otherwise the count stays
    ensures t.currentLabeled == s.currentLabeled + (if Fires(cfg, s, epoch, recall) then cfg.addLabeled else 0)
    // sampling resets the counter; otherwise it is 0 on improvement, one more without
    ensures t.lastBestEpochs == if Fires(cfg, s, epoch, recall) then 0 else Counter(s, recall)
    // the best values change only without sampling, only on improvement, and to this epoch's
    ensures t.bestRecall >= s.bestRecall
    ensures (t.bestRecall, t.bestReport, t.bestModel) != (s.bestRecall, s.bestReport, s.bestModel) ==>
      !Fires(cfg, s, epoch, recall) && IsBest(s, recall) &&
      t.bestRecall == recall && t.bestReport == Some(epoch) && t.bestModel == AfterEpoch(epoch)
    ensures !Fires(cfg, s, epoch, recall) && IsBest(s, recall) ==> t.bestRecall == recall
    // a cycle row is the best report so far, skipped when there is none
    ensures t.cycleReports == s.cycleReports +
      (if Fires(cfg, s, epoch, recall) && s.bestReport.Some? then [s.bestReport.value] else [])
    // after warm-up the counter never exceeds the patience
    ensures epoch > cfg.labeledWarmupEpochs && cfg.addLabeledEpochs >= 0 ==>
      t.lastBestEpochs <= cfg.addLabeledEpochs
    ensures t.checkpoints == s.checkpoints + [Checkpoint(epoch + 1, t.bestModel, t.bestRecall, IsBest(s, recall))]
  {
    var isBest := IsBest(s, recall);
    var counter := Counter(s, recall);
    if epoch > cfg.labeledWarmupEpochs && counter > cfg.addLabeledEpochs then
      var cycles := if s.bestReport.Some? then s.cycleReports + [s.bestReport.value] else s.cycleReports;
      State(s.bestRecall, s.bestReport, s.bestModel, 0, s.currentLabeled + cfg.addLabeled, cycles,
            s.checkpoints + [Checkpoint(epoch + 1, s.bestModel, s.bestRecall, isBest)])
    else
      var recall' := if isBest then recall else s.bestRecall;
      var report' := if isBest then Some(epoch) else s.bestReport;
      var model' := if isBest then AfterEpoch(epoch) else s.bestModel;
      State(recall', report', model', counter, s.currentLabeled, s.cycleReports,
            s.checkpoints + [Checkpoint(epoch + 1, model', recall', isBest)])
  }

  /** The states after each epoch that runs, from position i of the recall
      stream on; the list ends with the epoch that crosses the stop
      threshold or with the last epoch of the range. */
  function Trace(cfg: Config, recalls: seq<real>, s: State, i: nat): (tr: seq<State>)
    requires |recalls| == EpochCount(cfg) && i <= |recalls|
    decreases |recalls| - i
  {
    if i == |recalls| then []
    else
      var t := Step(cfg, s, cfg.startEpoch + i, recalls[i]);
      if t.currentLabeled > cfg.stopLabeled then [t] else [t] + Trace(cfg, recalls, t, i + 1)
  }

  function Last(s: State, tr: seq<State>): State {
    if tr == [] then s else tr[|tr| - 1]
  }

  /** The loop variables when main leaves the loop. */
  function Final(cfg: Config, recalls: seq<real>): State
    requires |recalls| == EpochCount(cfg)
  {
    Last(Initial(cfg), Trace(cfg, recalls, Initial(cfg), 0))
  }

  /** The stop rule over a trace of the `remaining` epochs left: every
      epoch but the last leaves at most stop_labeled labeled examples, and
      the loop ends before the range is exhausted only because its last
      epoch left more. So the loop stops right after the first epoch that
      crosses the threshold. */
  predicate StopsAtThreshold(cfg: Config, tr: seq<State>, remaining: nat) {
    && |tr| <= remaining
    && (remaining > 0 <==> tr != [])
    && (forall k :: 0 <= k < |tr| - 1 ==> tr[k].currentLabeled <= cfg.stopLabeled)
    && (|tr| < remaining ==> tr[|tr| - 1].currentLabeled > cfg.stopLabeled)
  }

  lemma {:induction false} TraceStops(cfg: Config, recalls: seq<real>, s: State, i: nat)
    requires |recalls| == EpochCount(cfg) && i <= |recalls|
    ensures StopsAtThreshold(cfg, Trace(cfg, recalls, s, i), |recalls| - i)
    decreases |recalls| - i
  {
    if i < |recalls| {
      var t := Step(cfg, s, cfg.startEpoch + i, recalls[i]);
      if t.currentLabeled <= cfg.stopLabeled {
        TraceStops(cfg, recalls, t, i + 1);
        var tr, rest := Trace(cfg, recalls, s, i), Trace(cfg, recalls, t, i + 1);
        assert tr == [t] + rest;
        forall k | 0 < k < |tr| - 1
          ensures tr[k].currentLabeled <= cfg.stopLabeled
        {
          assert tr[k] == rest[k - 1];
        }
        if rest != [] {
          assert tr[|tr| - 1] == rest[|rest| - 1];
        }
      }
    }
  }

  /** best_recall never decreases: not from the state before the trace to
      its first epoch, nor from one epoch to a later one. */
  predicate BestNonDecreasing(s: State, tr: seq<State>) {
    && (tr != [] ==> s.bestRecall <= tr[0].bestRecall)
    && forall j, k :: 0 <= j < k < |tr| ==> tr[j].bestRecall <= tr[k].bestRecall
  }

  lemma {:induction false} BestRecallMonotone(cfg: Config, recalls: seq<real>, s: State, i: nat)
    requires |recalls| == EpochCount(cfg) && i <= |recalls|
    ensures BestNonDecreasing(s, Trace(cfg, recalls, s, i))
    decreases |recalls| - i
  {
    if i < |recalls| {
      var t := Step(cfg, s, cfg.startEpoch + i, recalls[i]);
      if t.currentLabeled <= cfg.stopLabeled {
        BestRecallMonotone(cfg, recalls, t, i + 1);
        var tr, rest := Trace(cfg, recalls, s, i), Trace(cfg, recalls, t, i + 1);
        assert tr == [t] + rest;
        forall j, k | 0 <= j < k < |tr|
          ensures tr[j].bestRecall <= tr[k].bestRecall
        {
          assert tr[k] == rest[k - 1];
          if j > 0 {
            assert tr[j] == rest[j - 1];
          } else if k > 1 {
            assert rest[0].bestRecall <= rest[k - 1].bestRecall;
          }
        }
      }
    }
  }

  /** After every epoch past the warm-up the stagnation counter is at most
      add_labeled_epochs; firstEpoch is the epoch of tr[0]. */
  predicate WithinPatience(cfg: Config, firstEpoch: int, tr: seq<State>) {
    forall k :: 0 <= k < |tr| && firstEpoch + k > cfg.labeledWarmupEpochs ==>
      tr[k].lastBestEpochs <= cfg.addLabeledEpochs
  }

  /** A longer stall always triggers a cycle, which resets the counter. */
  lemma {:induction false} CounterWithinPatience(cfg: Config, recalls: seq<real>, s: State, i: nat)
    requires |recalls| == EpochCount(cfg) && i <= |recalls| && cfg.addLabeledEpochs >= 0
    ensures WithinPatience(cfg, cfg.startEpoch + i, Trace(cfg, recalls, s, i))
    decreases |recalls| - i
  {
    if i < |recalls| {
      var t := Step(cfg, s, cfg.startEpoch + i, recalls[i]);
      if t.currentLabeled <= cfg.stopLabeled {
        CounterWithinPatience(cfg, recalls, t, i + 1);
        var tr, rest := Trace(cfg, recalls, s, i), Trace(cfg, recalls, t, i + 1);
        assert tr == [t] + rest;
        forall k | 0 < k < |tr| && cfg.startEpoch + i + k > cfg.labeledWarmupEpochs
          ensures tr[k].lastBestEpochs <= cfg.addLabeledEpochs
        {
          assert tr[k] == rest[k - 1];
          assert cfg.startEpoch + (i + 1) + (k - 1) > cfg.labeledWarmupEpochs;
        }
      }
    }
  }

  /** The best values always describe one epoch: either nothing improved
      on the initial recall of 0 and the initial model is kept, or the kept
      report and model are both those of one of the `ran` epochs that have
      already run, and best_recall is that epoch's recall. So the
      checkpointed model is the one that reached the recorded recall. */
  ghost predicate BestConsistent(cfg: Config, recalls: seq<real>, s: State, ran: nat) {
    match s.bestReport
    case None => s.bestModel == InitialModel && s.bestRecall == 0.0
    case Some(e) =>
      && s.bestModel == AfterEpoch(e)
      && cfg.startEpoch <= e < cfg.startEpoch + ran
      && e < cfg.startEpoch + |recalls|
      && s.bestRecall == recalls[e - cfg.startEpoch]
  }

  /** tr[k] is the state after i + k + 1 epochs have run. */
  ghost predicate AllBestConsistent(cfg: Config, recalls: seq<real>, tr: seq<State>, i: nat) {
    forall k :: 0 <= k < |tr| ==> BestConsistent(cfg, recalls, tr[k], i + k + 1)
  }

  lemma {:induction false} TraceKeepsBestConsistent(cfg: Config, recalls: seq<real>, s: State, i: nat)
    requires |recalls| == EpochCount(cfg) && i <= |recalls|
    requires BestConsistent(cfg, recalls, s, i)
    ensures AllBestConsistent(cfg, recalls, Trace(cfg, recalls, s, i), i)
    decreases |recalls| - i
  {
    if i < |recalls| {
      var t := Step(cfg, s, cfg.startEpoch + i, recalls[i]);
      assert BestConsistent(cfg, recalls, t, i + 1);
      if t.currentLabeled <= cfg.stopLabeled {
        TraceKeepsBestConsistent(cfg, recalls, t, i + 1);
        var tr, rest := Trace(cfg, recalls, s, i), Trace(cfg, recalls, t, i + 1);
        assert tr == [t] + rest;
        forall k | 0 < k < |tr|
          ensures BestConsistent(cfg, recalls, tr[k], i + k + 1)
        {
          assert tr[k] == rest[k - 1];
          assert (i + 1) + (k - 1) + 1 == i + k + 1;
        }
      }
    }
  }

  /** The entry of the k-th epoch of the trace holds epoch + 1, and the
      best model and best_recall as they stand after it; before it come
      exactly the earlier entries. firstEpoch is the epoch of tr[0]. */
  predicate CheckpointEntries(firstEpoch: int, s: State, tr: seq<State>) {
    forall k :: 0 <= k < |tr| ==>
      && |tr[k].checkpoints| == |s.checkpoints| + k + 1
      && s.checkpoints <= tr[k].checkpoints
      && tr[k].checkpoints[|s.checkpoints| + k].epoch == firstEpoch + k + 1
      && tr[k].checkpoints[|s.checkpoints| + k].stateOf == tr[k].bestModel
      && tr[k].checkpoints[|s.checkpoints| + k].bestRecall == tr[k].bestRecall
  }

  /** No epoch rewrites what an earlier one logged. */
  predicate LogAppendOnly(tr: seq<State>) {
    forall j, k :: 0 <= j <= k < |tr| ==> tr[j].checkpoints <= tr[k].checkpoints
  }

  /** The checkpoint log is append-only and grows by one entry per epoch. */
  predicate CheckpointsLogged(firstEpoch: int, s: State, tr: seq<State>) {
    CheckpointEntries(firstEpoch, s, tr) && LogAppendOnly(tr)
  }

  lemma {:induction false} CheckpointEntriesHold(cfg: Config, recalls: seq<real>, s: State, i: nat)
    requires |recalls| == EpochCount(cfg) && i <= |recalls|
    ensures CheckpointEntries(cfg.startEpoch + i, s, Trace(cfg, recalls, s, i))
    decreases |recalls| - i
  {
    if i < |recalls| {
      var t := Step(cfg, s, cfg.startEpoch + i, recalls[i]);
      if t.currentLabeled <= cfg.stopLabeled {
        CheckpointEntriesHold(cfg, recalls, t, i + 1);
        var tr, rest := Trace(cfg, recalls, s, i), Trace(cfg, recalls, t, i + 1);
        assert tr == [t] + rest;
        forall k | 0 < k < |tr|
          ensures |tr[k].checkpoints| == |s.checkpoints| + k + 1
          ensures s.checkpoints <= tr[k].checkpoints
          ensures tr[k].checkpoints[|s.checkpoints| + k].epoch == cfg.startEpoch + i + k + 1
          ensures tr[k].checkpoints[|s.checkpoints| + k].stateOf == tr[k].bestModel
          ensures tr[k].checkpoints[|s.checkpoints| + k].bestRecall == tr[k].bestRecall
        {
          assert tr[k] == rest[k - 1];
          assert |s.checkpoints| + k == |t.checkpoints| + (k - 1);
          PrefixTransitive(s.checkpoints, t.checkpoints, tr[k].checkpoints);
        }
      }
    }
  }

  lemma {:induction false} LogAppendOnlyHolds(cfg: Config, recalls: seq<real>, s: State, i: nat)
    requires |recalls| == EpochCount(cfg) && i <= |recalls|
    ensures LogAppendOnly(Trace(cfg, recalls, s, i))
    decreases |recalls| - i
  {
    if i < |recalls| {
      var t := Step(cfg, s, cfg.startEpoch + i, recalls[i]);
      if t.currentLabeled <= cfg.stopLabeled {
        LogAppendOnlyHolds(cfg, recalls, t, i + 1);
        CheckpointEntriesHold(cfg, recalls, t, i + 1);
        var tr, rest := Trace(cfg, recalls, s, i), Trace(cfg, recalls, t, i + 1);
        assert tr == [t] + rest;
        forall j, k | 0 <= j <= k < |tr|
          ensures tr[j].checkpoints <= tr[k].checkpoints
        {
          if 0 < j {
            assert tr[j] == rest[j - 1] && tr[k] == rest[k - 1];
          } else if 0 < k {
            assert tr[k] == rest[k - 1];
          }
        }
      }
    }
  }

  lemma CheckpointLog(cfg: Config, recalls: seq<real>, s: State, i: nat)
    requires |recalls| == EpochCount(cfg) && i <= |recalls|
    ensures CheckpointsLogged(cfg.startEpoch + i, s, Trace(cfg, recalls, s, i))
  {
    CheckpointEntriesHold(cfg, recalls, s, i);
    LogAppendOnlyHolds(cfg, recalls, s, i);
  }

  lemma PrefixTransitive<T>(a: seq<T>, b: seq<T>, c: seq<T>)
    requires a <= b && b <= c
    ensures a <= c
  {
    assert a == b[..|a|] && b == c[..|b|];
    assert c[..|b|][..|a|] == c[..|a|];
  }

  lemma LastCons(s: State, t: State, rest: seq<State>)
    ensures Last(s, [t] + rest) == Last(t, rest)
  {
    if rest != [] {
      assert ([t] + rest)[|rest|] == rest[|rest| - 1];
    }
  }

  /** The body of the loop for one epoch, over the loop variables: the
      statement-by-statement counterpart of `Step`, proved equal to it. */
  method RunEpoch(cfg: Config, s: State, epoch: int, recall: real) returns (t: State)
    ensures t == Step(cfg, s, epoch, recall)
  {
    var bestRecall, bestReport, bestModel := s.bestRecall, s.bestReport, s.bestModel;
    var currentLabeled, cycleReports := s.currentLabeled, s.cycleReports;
    var isBest := recall > bestRecall;
    var lastBestEpochs := if isBest then 0 else s.lastBestEpochs + 1;
    if epoch > cfg.labeledWarmupEpochs && lastBestEpochs > cfg.addLabeledEpochs {
      if bestReport.Some? {
        cycleReports := cycleReports + [bestReport.value];
      }
      currentLabeled := currentLabeled + cfg.addLabeled;
      lastBestEpochs := 0;
    } else {
      bestRecall := if isBest then recall else bestRecall;
      bestReport := if isBest then Some(epoch) else bestReport;
      bestModel := if isBest then AfterEpoch(epoch) else bestModel;
    }
    var checkpoints := s.checkpoints + [Checkpoint(epoch + 1, bestModel, bestRecall, isBest)];
    t := State(bestRecall, bestReport, bestModel, lastBestEpochs, currentLabeled, cycleReports, checkpoints);
  }

  /** The loop of main over range(start_epoch, epochs), leaving it right
      after the epoch that takes current_labeled past stop_labeled. */
  method TrainingLoop(cfg: Config, recalls: seq<real>) returns (final: State, epochsRun: nat)
    requires |recalls| == EpochCount(cfg)
    ensures final == Final(cfg, recalls)
    ensures epochsRun == |Trace(cfg, recalls, Initial(cfg), 0)|
  {
    var s := Initial(cfg);
    var i := 0;
    while i < |recalls|
      invariant 0 <= i <= |recalls|
      invariant Final(cfg, recalls) == Last(s, Trace(cfg, recalls, s, i))
      invariant |Trace(cfg, recalls, Initial(cfg), 0)| == i + |Trace(cfg, recalls, s, i)|
    {
      var t := RunEpoch(cfg, s, cfg.startEpoch + i, recalls[i]);
      if t.currentLabeled > cfg.stopLabeled {
        final, epochsRun := t, i + 1;
        return;
      }
      LastCons(s, t, Trace(cfg, recalls, t, i + 1));
      s, i := t, i + 1;
    }
    final, epochsRun := s, i;
  }

  // ---------------------------------------------------------------------
  // Novel-class detection: labeled examples per class after a cycle
  // ---------------------------------------------------------------------

  /** The number of labeled positions whose target is class c
      (`np.sum(np.array(targets)[labeled] == c)`, negative positions
      counted from the end as numpy does). */
  function ClassCount(targets: seq<int>, labeled: seq<int>, c: int): nat
    requires AllInBounds(labeled, |targets|)
    decreases |labeled|
  {
    if labeled == [] then 0
    else
      var init := labeled[..|labeled| - 1];
      ClassCount(targets, init, c) +
        (if targets[Normalize(labeled[|labeled| - 1], |targets|)] == c then 1 else 0)
  }

  /** `np.array(targets)[labeled]`: the targets of the labeled examples. */
  function LabeledTargets(targets: seq<int>, labeled: seq<int>): (r: seq<int>)
    requires AllInBounds(labeled, |targets|)
    ensures |r| == |labeled|
  {
    seq(|labeled|, k requires 0 <= k < |labeled| => targets[Normalize(labeled[k], |targets|)])
  }

  /** The running count of class c is the multiplicity of c among the
      labeled targets. */
  lemma {:induction false} ClassCountIsMultiplicity(targets: seq<int>, labeled: seq<int>)
    requires AllInBounds(labeled, |targets|)
    ensures forall c :: ClassCount(targets, labeled, c) == multiset(LabeledTargets(targets, labeled))[c]
    decreases |labeled|
  {
    if labeled != [] {
      var init := labeled[..|labeled| - 1];
      ClassCountIsMultiplicity(targets, init);
      var v := targets[Normalize(labeled[|labeled| - 1], |targets|)];
      assert LabeledTargets(targets, labeled) == LabeledTargets(targets, init) + [v];
    }
  }

  /** num_classes: one count per class. An out-of-range position raises
      IndexError in numpy; the model returns None. */
  function ClassCounts(targets: seq<int>, labeled: seq<int>, numClasses: nat): (r: Option<seq<nat>>)
    ensures r.None? <==> !AllInBounds(labeled, |targets|)
    ensures r.Some? ==>
      && |r.value| == numClasses
      && forall c :: 0 <= c < numClasses ==>
        r.value[c] == ClassCount(targets, labeled, c) == multiset(LabeledTargets(targets, labeled))[c]
  {
    if AllInBounds(labeled, |targets|) then
      ClassCountIsMultiplicity(targets, labeled);
      Some(seq(numClasses, c requires 0 <= c < numClasses => ClassCount(targets, labeled, c)))
    else None
  }

  /** Σ over classes 0 .. n-1 of their counts. */
  function CountsBelow(targets: seq<int>, labeled: seq<int>, n: nat): nat
    requires AllInBounds(labeled, |targets|)
  {
    if n == 0 then 0 else CountsBelow(targets, labeled, n - 1) + ClassCount(targets, labeled, n - 1)
  }

  lemma {:induction false} CountsBelowNone(targets: seq<int>, n: nat)
    ensures CountsBelow(targets, [], n) == 0
    decreases n
  {
    if n > 0 {
      CountsBelowNone(targets, n - 1);
    }
  }

  lemma {:induction false} CountsBelowExtend(targets: seq<int>, labeled: seq<int>, n: nat)
    requires labeled != [] && AllInBounds(labeled, |targets|)
    ensures var init := labeled[..|labeled| - 1];
      var v := targets[Normalize(labeled[|labeled| - 1], |targets|)];
      CountsBelow(targets, labeled, n) == CountsBelow(targets, init, n) + (if 0 <= v < n then 1 else 0)
    decreases n
  {
    if n > 0 {
      CountsBelowExtend(targets, labeled, n - 1);
    }
  }

  /** When every labeled target is a class in range, the per-class counts
      add up to the number of labeled examples. */
  lemma {:induction false} ClassCountsPartition(targets: seq<int>, labeled: seq<int>, numClasses: nat)
    requires AllInBounds(labeled, |targets|)
    requires forall k :: 0 <= k < |labeled| ==> 0 <= targets[Normalize(labeled[k], |targets|)] < numClasses
    ensures CountsBelow(targets, labeled, numClasses) == |labeled|
    decreases |labeled|
  {
    if labeled != [] {
      var init := labeled[..|labeled| - 1];
      assert forall k :: 0 <= k < |init| ==> init[k] == labeled[k];
      ClassCountsPartition(targets, init, numClasses);
      CountsBelowExtend(targets, labeled, numClasses);
      var v := targets[Normalize(labeled[|labeled| - 1], |targets|)];
      assert 0 <= v < numClasses;
      assert CountsBelow(targets, labeled, numClasses) == CountsBelow(targets, init, numClasses) + 1;
    } else {
      CountsBelowNone(targets, numClasses);
    }
  }
}
