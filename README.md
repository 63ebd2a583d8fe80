# med_active_learning: index pools, uncertainty sampling and the cycle controller

A Dafny model of the bookkeeping core of med_active_learning, an active- and
semi-supervised learning framework for medical image classification. A model
is trained on a labeled pool of dataset indices. Once its validation recall
stops improving, a sampler picks examples from the unlabeled pool. Those
examples are moved to the labeled pool, and training continues until enough
examples are labeled.

The modules:

- `Sequences`: shared vocabulary. It holds `Option`, repetition-free and
  disjoint sequences, Python's negative indices (`InBounds`, `Normalize`)
  and Python prefix slicing (`PyPrefix`).
- `IndexPools` (utils.py) covers:
  - the promotion of sampled positions into the labeled pool (`postprocess_indices`);
  - the random baseline sampler;
  - the in-place Fisher-Yates shuffle and subset window of `create_loaders`;
  - the pseudo-label relabeling loop of `perform_sampling`.
- `Meters` (utils.py): the `AverageMeter` class.
- `Contrastive` (utils.py): the NT-Xent negative mask.
- `RankingLoss` (utils.py): the pairwise margin ranking loss of the
  learning-loss module.
- `ModelName` (utils.py): the `dataset@arch@method` run name.
- `UncertaintySampling` (active_learning/uncertainty_sampling.py) covers:
  - the five score functions;
  - the choice of one of them by name;
  - the concatenation of batch scores and the argsort selection of `get_samples`.
- `CycleController` (code/train.py): the epoch loop of `main`. It tracks:
  - the best recall, report and model;
  - the stagnation counter and the sampling trigger;
  - growth of the labeled count and the stop rule;
  - the checkpoint log;
  - the per-class counts of novel-class detection.

Random sources are parameters of the model:
- `random.shuffle` takes the draws of its Fisher-Yates steps;
- `rng.choice` without replacement takes a uniformly drawn ordering of the positions.

Every validation recall is an input of the controller.

## Model

| member | source | states |
|---|---|---|
| IndexPools.PostprocessIndices | utils.py:119-125 | An out-of-range sampled position yields no result (IndexError). Otherwise the result is the labeled pool followed by the selected unlabeled entries, together with the unselected unlabeled entries. Negative positions count from the end. |
| IndexPools.PromoteSizes | utils.py:121-123 | Labeled grows and unlabeled shrinks by the number of distinct selected positions. |
| IndexPools.PromotePermutes | utils.py:122-123 | Together, the two new pools are a permutation of the two old pools: no index is lost, duplicated or invented. |
| IndexPools.PromoteOrder | utils.py:122-123 | The old labeled pool is a prefix of the new one. The promoted entries follow in increasing unlabeled position and come from exactly the in-range selected positions. The survivors come from exactly the unselected positions and keep their relative order. |
| IndexPools.PromoteKeepsPoolsDisjoint | utils.py:119-125 | Repetition-free, disjoint pools stay repetition-free and disjoint. |
| IndexPools.DistinctSamplesSelectAll | utils.py:120-121 | Distinct non-negative positions promote exactly as many entries as were sampled. |
| IndexPools.DuplicatesCollapse | utils.py:120-121 | Two samples naming the same position make the promotion smaller than the sample. |
| IndexPools.PromoteExample | utils.py:119-125 | Labeled [0,1,2], unlabeled [3,4,5,6] and position 1 give labeled [0,1,2,4] and unlabeled [3,5,6]. |
| IndexPools.PickSplits | utils.py:122-123 | `a[mask]` and `a[~mask]` together are the whole of `a`. |
| IndexPools.PickComplementsDisjoint | utils.py:122-123 | A repetition-free `a` gives disjoint `a[mask]` and `a[~mask]`. |
| IndexPools.StratifiedRandomSampling | utils.py:112-116 | A negative size or a size above the pool length is rejected (ValueError). Otherwise the result is `number` distinct positions below the pool length. When `number` equals that length, every position is drawn. |
| IndexPools.ShuffledPermutes | utils.py:98 | The shuffle keeps the length and the multiset of the unlabeled pool. |
| IndexPools.Shuffle | utils.py:98 | The in-place loop leaves the array equal to the Fisher-Yates shuffle of its old contents under the given draws. |
| IndexPools.DataSubset.constructor | utils.py:97-99 | The class stands for the dataset objects whose `indices` field lines 97 and 99 assign. A view starts with the given indices. |
| IndexPools.CreateLoaders | utils.py:95-105 | The labeled view gets the labeled indices and the unlabeled pool is shuffled in place. The unlabeled view is the window `pool[:subset_num]` of the shuffled pool. |
| IndexPools.UnlabeledWindow | utils.py:97-99 | The window holds only unlabeled indices. It has min(subset_num, pool size) entries for a non-negative subset_num, and it is disjoint from a disjoint labeled pool. |
| IndexPools.PseudoLabel | utils.py:441-446 | After the loop, the targets are the old targets with each listed entry overwritten by its pseudo label, in loop order. Each agreement flag is 1 exactly when the target the iteration reads already equals its pseudo label. |
| IndexPools.RelabeledElsewhere | utils.py:441-446 | An entry that no iteration points at keeps its target. |
| IndexPools.RelabeledDistinct | utils.py:441-446 | With repetition-free positions, every listed entry ends with its own pseudo label. An entry not yet reached still has its original target, so each flag compares the original target. |
| IndexPools.PseudoLabelHitsWrongExample | utils.py:437-446 | As written, sampling position 1 from unlabeled [3,4,5,6] promotes example 4. Yet the loop relabels example 1, which is already labeled, and example 4 keeps its target. |
| IndexPools.PseudoLabelPromoted | utils.py:437-446 | The corrected loop resolves each position through the unlabeled pool before it reads or writes a target. |
| IndexPools.PromotedGetPseudoLabels | utils.py:437-446 | Under the corrected loop, every promoted example ends with its pseudo label. Every other example, including each already-labeled one, keeps its target. |
| Meters.AverageMeter.constructor | utils.py:41-45 | A new meter has value, average, sum and count 0 and an empty history. |
| Meters.AverageMeter.Reset | utils.py:47-51 | Resetting zeroes all four fields and empties the history. |
| Meters.AverageMeter.Update | utils.py:53-58 | After the update, the last value is `val`, the sum and count have grown by `val*n` and `n`, and `avg = sum / count`. The meter invariant holds: sum and count are the weighted totals of the history since the last reset. |
| Meters.WeightedSumBounds | utils.py:53-58 | With positive counts, the weighted sum lies between lo and hi times the total count whenever every value does. |
| Meters.AverageWithinRange | utils.py:53-58 | With positive counts, the reported average lies between the smallest and the largest value reported. |
| Contrastive.MaskCorrelatedSamples | utils.py:164-171 | The mask is 2B x 2B. It is false exactly on the diagonal and on the two positive-pair diagonals (i, i+B) and (i+B, i). |
| Contrastive.RowKeepsNegatives | utils.py:164-171 | Every row keeps exactly 2B - 2 entries: the negatives. |
| RankingLoss.Indicator | utils.py:369 | `2*sign(clamp(t, 0)) - 1` is +1 for a positive target difference and -1 otherwise, a tie included. |
| RankingLoss.PairLoss | utils.py:372-375 | The hinge of pair (i, n-1-i) is non-negative. It is either 0 or `margin - indicator*(pred difference)`, and never below the latter. |
| RankingLoss.LossModuleObjective | utils.py:361-380 | An odd batch fails the assertion. 'none' gives the per-pair hinges. 'mean' over an empty batch gives NaN. Otherwise 'mean' gives a non-negative value that, times the number of pairs, is the sum of the hinges. Any other reduction yields None. |
| RankingLoss.SumNonNegative | utils.py:372 | A sum of non-negative hinges is non-negative, and it is 0 exactly when every hinge is. |
| RankingLoss.MeanLossZeroIffRanked | utils.py:361-380 | The mean loss is 0 if and only if every pair is ordered like its targets by at least the margin. |
| ModelName.SetModelName | utils.py:402-410 | The name is `dataset@arch@method`, where the method part is the semi-supervised method, the uncertainty method or the strategy itself. Splitting the name at '@' gives back the dataset, the architecture and that method part, when none of them contains '@'. |
| ModelName.ModelNamesDistinguishRuns | utils.py:402-410 | Two runs with the same name agree on dataset, architecture and method part. |
| UncertaintySampling.MethodName | active_learning/uncertainty_sampling.py:13-16 | Looking up a method's Python name finds that method. |
| UncertaintySampling.NewSampler | active_learning/uncertainty_sampling.py:13-16 | Construction fails exactly for a name outside the five method names. Otherwise the sampler keeps the name, and its method is the one with that name. |
| UncertaintySampling.LeastConfidence | active_learning/uncertainty_sampling.py:19-22 | The score is an entry of the row and no entry exceeds it (the row maximum). |
| UncertaintySampling.InsertAscending | active_learning/uncertainty_sampling.py:26 | Inserting a value lengthens the row by one and adds exactly that value to its multiset. |
| UncertaintySampling.InsertAscendingSorted | active_learning/uncertainty_sampling.py:26 | Inserting into a sorted row keeps it sorted. |
| UncertaintySampling.SortAscending | active_learning/uncertainty_sampling.py:26 | The sorted row is an ascending permutation of the row. |
| UncertaintySampling.SortedTopIsMax | active_learning/uncertainty_sampling.py:26-27 | The last entry of the sorted row is the row maximum. |
| UncertaintySampling.RunnerUp | active_learning/uncertainty_sampling.py:26-27 | `sort(probs)[-2]` is an entry of the row and is at most the maximum. |
| UncertaintySampling.MarginConfidence | active_learning/uncertainty_sampling.py:25-29 | The margin is non-negative, and it is the gap between the largest and second-largest probabilities. |
| UncertaintySampling.RatioConfidence | active_learning/uncertainty_sampling.py:32-36 | On a row of positive probabilities, the ratio times the second-largest probability is the largest, and the ratio is at least 1. |
| UncertaintySampling.RatioOneIffTie | active_learning/uncertainty_sampling.py:25-36 | The ratio is 1 exactly when the two top probabilities tie, which is exactly when the margin is 0. |
| UncertaintySampling.ConfidenceScoresAgree | active_learning/uncertainty_sampling.py:25-36 | A row whose top probability is no lower and whose runner-up is no higher has no lower margin and no lower ratio: the two scores rank rows alike. |
| UncertaintySampling.DensityWeighted | active_learning/uncertainty_sampling.py:46-53 | With mean similarity 0 the score is the least-confidence score. For a similarity in [0, 1] and a non-negative top probability it lies between 0 and that score. |
| UncertaintySampling.ArgSort | active_learning/uncertainty_sampling.py:90-93 | argsort is a permutation of the positions of the score vector, ordered ascending (or descending for entropy_based). |
| UncertaintySampling.ArgSortPrefixIsExtreme | active_learning/uncertainty_sampling.py:90-93 | `argsort()[:number]` has distinct positions, min(number, n) of them for a non-negative number. No unselected position has a score that should come before a selected one. |
| UncertaintySampling.ScoresLength | active_learning/uncertainty_sampling.py:72-79 | The concatenated scores have one entry per unlabeled example. |
| UncertaintySampling.ScoreAt | active_learning/uncertainty_sampling.py:72-79 | Example k of batch b is scored at offset (rows of the earlier batches) + k. |
| UncertaintySampling.GetSamples | active_learning/uncertainty_sampling.py:55-93 | With no unlabeled batch the call fails: None stands for the AttributeError of `None.argsort`. Otherwise the loop builds the concatenation of the batch scores, and the result is the `number`-prefix of its argsort, descending exactly for entropy_based. |
| UncertaintySampling.SelectionDirection | active_learning/uncertainty_sampling.py:72-93 | For a constructed sampler, the selection is min(number, n) distinct positions of unlabeled examples. Under entropy, every selected example scores at least as high as every unselected one. Under the four other scores, every selected example scores at most as high. |
| CycleController.Step | code/train.py:167-210 | One epoch behaves as follows. Sampling fires after warm-up once the counter exceeds the patience; it adds add_labeled examples and resets the counter. The best recall never decreases. The best recall, report and model change only on an improvement without sampling, and then to this epoch's. A cycle row is the best report so far, skipped when there is none. After warm-up the counter never exceeds the patience. One checkpoint is appended holding epoch+1 and the current best. |
| CycleController.TraceStops | code/train.py:167-210 | Every epoch but the last leaves at most stop_labeled examples. The loop ends early only because its last epoch left more. |
| CycleController.BestRecallMonotone | code/train.py:171-199 | best_recall never decreases across the epochs. |
| CycleController.CounterWithinPatience | code/train.py:172-186 | After warm-up, the stagnation counter is at most add_labeled_epochs after every epoch. |
| CycleController.TraceKeepsBestConsistent | code/train.py:165-201 | After each epoch of the trace, the kept report, model and recall belong to one epoch that has already run (at or before the current one), or to the initial model with recall 0. |
| CycleController.CheckpointLog | code/train.py:203-207 | The checkpoint log only grows, by one entry per epoch. Each entry names epoch+1, the best model and the best recall as they stand after that epoch. |
| CycleController.RunEpoch | code/train.py:171-207 | The imperative loop body computes exactly one `Step`. |
| CycleController.TrainingLoop | code/train.py:165-210 | The loop ends in the final state of the epoch trace, and the number of epochs run is the length of that trace. |
| CycleController.ClassCounts | code/train.py:191-193 | An out-of-range labeled index gives no result. Otherwise there is one count per class, and it is the multiplicity of that class in the multiset of labeled targets. |
| CycleController.ClassCountsPartition | code/train.py:191-193 | When every labeled target is a class in range, the per-class counts add up to the number of labeled examples. |

## Left out

- Network training, validation, the softmax, model creation and reset, `get_loss`, optimizers, DataLoader objects and CUDA transfers are left out. Each epoch's validation recall is an input. A report or a model copy is identified by the epoch that produced it.
- Printing, timing (the `batch_time` meter of `get_samples`), pandas frames beyond their rows, and checkpoint file I/O are left out. The checkpoint files are modelled as an append-only log of what `save_checkpoint` receives.
- Randomness is passed in as parameters: the draws of `random.shuffle` and the position order of `rng.choice`. Uniformity is not modelled.
- UncertaintySampling.Row: entropy (`-sum p*log p`) and the mean cosine similarity to the labeled feature bank are given per example rather than computed, because logarithms and vector norms are outside exact real arithmetic. The labeled-feature pass of `get_samples` (lines 64-70) is therefore not modelled.
- UncertaintySampling.ArgSort: the order among equal scores is fixed by this model. torch promises no particular tie order, so the lemmas speak only of score order.
- UncertaintySampling.SortAscending: an insertion sort stands in for `torch.sort`. Only the sorted permutation it returns matters.
- UncertaintySampling.NewSampler: `getattr` would also accept the name of any other attribute of the class. Only the five score methods are modelled as valid names.
- UncertaintySampling.RatioConfidence: requires a row of positive probabilities with at least two entries. A zero runner-up gives inf or NaN in torch, and floating point is not modelled.
- Floating-point rounding, inf and NaN are not modelled. Scores, losses and averages are exact reals, and the NaN of an empty mean loss is a separate result.
- Integer widths: indices and counts are unbounded integers. The source's values fit in 64 bits.
- RankingLoss.LossModuleObjective: requires equal lengths of prediction and target. The source checks only that the prediction length is even (utils.py:362) and halves each tensor by its own length (lines 365-366). torch therefore computes without error when both halves have the same length (for example 4 predictions and 5 targets) or when one half has size 1 (broadcast), and raises otherwise.
- Meters.AverageMeter.Update: requires a non-zero new count. Python raises ZeroDivisionError at count 0, and the model does not return that error.
- IndexPools.PseudoLabel: requires in-range positions and at least as many labels as positions. Python raises IndexError otherwise.
- IndexPools.CreateLoaders: aliasing between the two subset views is not modelled. When both are the same object, the labeled view is overwritten and the contract says nothing about it.
- `perform_sampling` outside its pseudo-label loop is modelled only through its parts: `GetSamples` or `StratifiedRandomSampling`, then `PostprocessIndices`, then `CreateLoaders`. The pseudo-labeler's own `get_samples` is not part of this model.
- code/train.py:180-183 passes 14 positional arguments to `perform_sampling`, whose signature in utils.py:413-415 has 16 parameters. Python therefore raises TypeError, naming `current_labeled_ratio` and `best_model` as missing, every time sampling fires. As written, the loop never completes a sampling cycle. The sampling branch of `CycleController.Step` stands for the intended call and models only its bookkeeping.
- CycleController.Step: the labeled count grows by `add_labeled` as in code/train.py:184. The number of indices actually promoted depends on the branch. In the uncertainty branch, `get_samples` returns `argsort()[:number]` over the unlabeled window (active_learning/uncertainty_sampling.py:91, 93). That is min(`add_labeled_num`, window size) distinct positions, so fewer are promoted when the window is smaller. In the random branch, `rng.choice` without replacement (utils.py:112-116) raises ValueError when `add_labeled_num` exceeds the pool; `StratifiedRandomSampling` returns None in that case. The model does not tie either count to `add_labeled`.
- The per-epoch metrics frame (code/train.py:174-175) and the per-cycle class-count frame (line 194) are not modelled beyond the counts they store.

## Findings

| source | as written | input that shows it | evidently intended | confidence | as-written member | corrected member |
|---|---|---|---|---|---|---|
| utils.py:437-446 | `postprocess_indices` reads `samples_indices` as positions in the unlabeled pool. The loop that follows then uses the same numbers directly as dataset indices into `labeled_dataset.targets`. | Labeled [0,1,2], unlabeled [3,4,5,6], sampled position 1: example 4 is promoted, but the target of example 1 (already labeled) is overwritten and example 4 keeps its old target. | Relabel the promoted example `unlabeled_indices[j]`, taken from the pool before promotion, so each promoted example carries its pseudo label and labeled examples are untouched. | medium, not executed; the pseudo-labeler's `get_samples` is not part of this model | IndexPools.PseudoLabelHitsWrongExample | IndexPools.PromotedGetPseudoLabels |
