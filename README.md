# SimCLR linear evaluation: meter, subset selection and best-result bookkeeping

This project models in Dafny the three pieces of `simclr_lin.py` that carry
logic of their own. They are used when a linear head is fine-tuned on top of a
SimCLR encoder:

- **`AverageMeter`** (`meter.dfy`, module `Meter`) is the running weighted-mean
  accumulator used for per-epoch loss and accuracy.
  - It is a class with the source's fields `name`, `val`, `avg`, `sum` and `count`.
  - A ghost history records the `(value, weight)` pairs passed to `update`.
  - The invariant `Valid()` ties the fields to that history.
  - `EpochAverage` models how `run_epoch` uses a meter: a fresh meter, one update per batch, and the average returned.
- **`get_subset`** (`subset.dfy`, modules `Subset` and `SubsetProperties`) is deterministic class-capped subsampling.
  - The dataset is modelled as its sequence of labels.
  - `FillBuckets` is the first loop. It fills an insertion-ordered dictionary, modelled as a `map` plus the sequence of its keys in insertion order.
  - `ConcatBuckets` is the second loop. It concatenates the buckets.
  - `GetSubset` chains the two loops and is proved equal to the functional specification `Selected`.
  - The lemmas in `SubsetProperties` state what `Selected` guarantees.
- **The epoch loop of `finetune`** (`finetune.dfy`, module `Finetune`) tracks `optimal_loss` and `optimal_acc`, saves the best model and stops early.
  - Each epoch is reduced to what the bookkeeping reads: the train loss, the test accuracy, and whether the early-stopping object fired.
  - `TrackBest` is the loop. It is proved against the specification functions `SavedEpochs`, `ReportedLoss` and `ReportedAcc`, whose meaning the lemmas establish.

Floating-point numbers are modelled as `real`.

Two details of `get_subset` differ from what class-balanced sampling usually means, and the model keeps them as the code has them:
- The per-class threshold is `len(dataset) * pct / 10`. The divisor is a literal 10, not the number of classes actually present.
- The number of indices kept per label is `max(1, ceil(threshold))`, not `ceil(threshold)`. The first index of a label is always admitted, even when the threshold is zero or negative (`pct <= 0`).

## Model

| member | source | states |
|---|---|---|
| Meter.AverageMeter.constructor | simclr_lin.py:27-29 | A new meter has the given name, an empty history and all four counters at zero. |
| Meter.AverageMeter.Reset | simclr_lin.py:31-35 | After reset, `val`, `avg`, `sum` and `count` are 0, the history is empty, the name is unchanged and the invariant holds. |
| Meter.AverageMeter.Update | simclr_lin.py:37-41 | The weight `n` defaults to 1. `val` is the new value, `sum` grows by `v*n` and `count` grows by `n`. `avg` is the weighted mean of every sample since the last reset whenever `count != 0`. A zero count (the division error) leaves `avg` as it was. The invariant is preserved. |
| Meter.TotalWeightAtLeastLength | simclr_lin.py:37-41 | With every weight at least 1, `count` is at least the number of updates, so it is positive after the first update. |
| Meter.MeanWithinBounds | simclr_lin.py:37-41 | If every value lies in `[lo, hi]`, the weighted mean lies in `[lo, hi]`. For example, an accuracy meter fed fractions reports a fraction. |
| Meter.EpochAverage | simclr_lin.py:63-90 | Feeding one update per batch into a fresh meter returns the weighted mean of the batch values, weighted by batch size, or 0 when there is no batch. |
| Subset.Quota | simclr_lin.py:98-106 | The number of indices a label can keep is at least 1, is at least the threshold, and exceeds it by less than one unless it is 1. |
| Subset.AdmitsBelowQuota | simclr_lin.py:103 | For a non-empty bucket, the source's test `len < threshold` is equivalent to `len < Quota(threshold)`. |
| Subset.Occurrences | simclr_lin.py:101-104 | The indices it lists carry the label and are strictly ascending. |
| Subset.OccurrencesComplete | simclr_lin.py:101-104 | Every index carrying the label is listed. |
| Subset.FirstSeen | simclr_lin.py:99-108 | The dictionary's keys are exactly the labels present, each listed once. |
| Subset.FillBuckets | simclr_lin.py:99-106 | After the first loop, the keys are the labels in first-seen order. Each label's bucket is its first `min(Quota, #occurrences)` indices, and there is no other key. |
| Subset.ConcatBuckets | simclr_lin.py:107-108 | The second loop returns the buckets concatenated in key order. |
| Subset.GetSubset | simclr_lin.py:97-110 | The returned indices equal `Selected`, the functional specification of `get_subset`. |
| SubsetProperties.SelectedPerLabel | simclr_lin.py:98-106 | For every label, the selected indices carrying it are exactly its first `min(#occurrences, max(1, ceil(N*pct/10)))` occurrences, in ascending order. A full bucket never grows again. |
| SubsetProperties.FirstOccurrenceSelected | simclr_lin.py:102-106 | Every label that occurs contributes its first occurrence, whatever the threshold, even a zero or negative one. |
| SubsetProperties.FirstSeenOrdered | simclr_lin.py:99-108 | The dictionary's keys come in increasing order of each label's first index. |
| SubsetProperties.SelectedOrdered | simclr_lin.py:99-108 | The output is grouped by label, in order of each label's first occurrence, with indices ascending within each group. |
| SubsetProperties.SelectedIndicesDistinct | simclr_lin.py:101-110 | The output's indices are distinct and lie in `[0, N)`, and there are at most `N` of them. |
| SubsetProperties.FirstSeenStable | simclr_lin.py:99-106 | Items whose labels already appeared among the first `n` add no key to the dictionary. |
| SubsetProperties.TwoClassesHalf | simclr_lin.py:97-110 | Twenty items with alternating labels 0 and 1 and `pct = 0.5` give a threshold of 1, so the result is exactly `[0, 1]`. |
| Finetune.BestLossBefore | simclr_lin.py:162-171 | The running `optimal_loss` (without early stop) never exceeds its starting value `1e5`. |
| Finetune.BestLossIsMinimum | simclr_lin.py:169-171 | Without early stop, `optimal_loss` is a lower bound of every train loss seen, and it is either `1e5` or one of those losses. |
| Finetune.SaveIffStrictImprovement | simclr_lin.py:169-173 | Before any early stop, a save happens at an epoch exactly when its train loss is strictly below the best so far. A tie keeps the earlier epoch. |
| Finetune.ImprovingEpochsAscending | simclr_lin.py:165-173 | Saves before an early stop happen at strictly increasing epochs. |
| Finetune.BestLossNonIncreasing | simclr_lin.py:169-171 | Without early stop, `optimal_loss` never increases from one epoch to a later one. |
| Finetune.LastImprovingIsLastListed | simclr_lin.py:169-173 | The last improving epoch is the last save made before any early stop, and there is none exactly when no save was made. |
| Finetune.LastImprovementIsFirstMinimum | simclr_lin.py:169-171 | The last improving epoch has the minimum train loss, and every earlier epoch's train loss is strictly higher. With no improving epoch, the best loss is still `1e5`. |
| Finetune.ReportedIsLastSaved | simclr_lin.py:169-183 | The epoch whose loss and accuracy are reported is always the most recently saved one, and nothing is reported when nothing was saved. |
| Finetune.StoppedFinal | simclr_lin.py:177-183 | When early stopping fires at an epoch, that epoch is saved and its train loss and test accuracy are reported, even if its loss is higher. |
| Finetune.ReportedIsFirstMinimum | simclr_lin.py:162-171 | Without early stop, the reported loss is the minimum train loss over all epochs run (or `1e5`), and the reported epoch is the first one that reaches it. |
| Finetune.TrackBest | simclr_lin.py:162-185 | The loop runs at most `finetune_epochs` epochs. No epoch before the last one fired early stopping, and running fewer epochs means the last one fired it. The saves are `SavedEpochs` and the final `optimal_loss`/`optimal_acc` are those of the reported epoch. |

## Left out

- `run_epoch` (simclr_lin.py:57-90): forward and backward passes, `.cuda()`, cross-entropy, argmax accuracy, the optimizer and scheduler steps and the progress bar belong to PyTorch and tqdm. Only its use of `AverageMeter` is modelled, by `EpochAverage`, with each batch's value and size as inputs.
- `get_lr` (simclr_lin.py:93-95): a cosine schedule computed with `np.cos` on floats. Transcendental floating-point arithmetic is not modelled.
- `LinModel` (simclr_lin.py:44-54), encoder construction and loading, and `requires_grad` handling (simclr_lin.py:128-143) are module composition and file I/O.
- SGD and `LambdaLR` wiring (simclr_lin.py:146-160) are library internals.
- Dataset download, transforms, `DataLoader`/`Subset` construction and the Hydra configuration (simclr_lin.py:112-125) are I/O and configuration. Items are modelled by their labels only.
- `EarlyStopping`: pytorchtools is not part of this model. Its `early_stop` flag after each epoch is an arbitrary input, and its own checkpointing and the `test_loss` it consumes are not modelled.
- `torch.save`, `logger` and `print` are side effects. A save is recorded as the epoch number at which it happens.
- Floating point in `AverageMeter`, in the threshold comparison and in the epoch loop: values are `real`, so rounding is not modelled, and neither are NaN and infinity. Under floats a NaN train loss compares false with `optimal_loss` (simclr_lin.py:169), so a diverged epoch is never saved, and `BestLossIsMinimum`'s lower bound does not hold for a NaN loss.
- Meter.AverageMeter.Update: the `ZeroDivisionError` raised when `count` becomes 0 is modelled as the result `ok == false`. The exception's propagation to the caller is not modelled.
- Meter.EpochAverage: requires every batch size to be at least 1, as every batch a data loader yields holds at least one item.
- Finetune.TrackBest: requires one outcome for each of the `finetune_epochs` epochs it may run. The training and evaluation passes that produce them are not modelled.
