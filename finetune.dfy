/** The best-result bookkeeping of the fine-tuning epoch loop (finetune in
    simclr_lin.py): which epoch's results are reported, when the best model is
    saved, and when the loop stops. The training and evaluation passes and the
    early-stopping object are inputs: each epoch contributes its train loss, its
    test accuracy and whether early stopping fired after it. */
module Finetune {

  /** What one epoch reports to the bookkeeping. */
  datatype EpochOutcome = EpochOutcome(trainLoss: real, testAcc: real, earlyStop: bool)

  /** The starting values of optimal_loss and optimal_acc (1e5 and 0). */
  const InitialLoss: real := 100000.0
  const InitialAcc: real := 0.0

  /** The number of epochs range(1, finetune_epochs + 1) offers. */
  function EpochBudget(finetuneEpochs: int): nat
  {
    if finetuneEpochs < 0 then 0 else finetuneEpochs
  }

  /** The lowest train loss among the first k epochs, or 1e5 if none is lower. */
  function BestLossBefore(outcomes: seq<EpochOutcome>, k: nat): (r: real)
    requires k <= |outcomes|
    ensures r <= InitialLoss
  {
    if k == 0 then InitialLoss
    else
      var before := BestLossBefore(outcomes, k - 1);
      if outcomes[k - 1].trainLoss < before then outcomes[k - 1].trainLoss else before
  }

  /** The best loss is a lower bound of the train losses of the first k epochs,
      and it is 1e5 or one of them. */
  lemma {:induction false} BestLossIsMinimum(outcomes: seq<EpochOutcome>, k: nat)
    requires k <= |outcomes|
    ensures forall j :: 0 <= j < k ==> BestLossBefore(outcomes, k) <= outcomes[j].trainLoss
    ensures BestLossBefore(outcomes, k) == InitialLoss
         || exists j :: 0 <= j < k && BestLossBefore(outcomes, k) == outcomes[j].trainLoss
  {
    if k > 0 {
      BestLossIsMinimum(outcomes, k - 1);
    }
  }

  /** Epoch j + 1 (index j) lowers the train loss strictly below every earlier one and 1e5. */
  predicate Improves(outcomes: seq<EpochOutcome>, j: nat)
    requires j < |outcomes|
  {
    outcomes[j].trainLoss < BestLossBefore(outcomes, j)
  }

  /** The epoch numbers (counted from 1) among the first k that improve, ascending. */
  function ImprovingEpochs(outcomes: seq<EpochOutcome>, k: nat): (r: seq<nat>)
    requires k <= |outcomes|
    ensures forall x :: 0 <= x < |r| ==> 1 <= r[x] <= k
  {
    if k == 0 then []
    else ImprovingEpochs(outcomes, k - 1) + (if Improves(outcomes, k - 1) then [k] else [])
  }

  /** Early stopping fired after epoch e, the last one run. */
  predicate StoppedAt(outcomes: seq<EpochOutcome>, e: nat)
  {
    0 < e <= |outcomes| && outcomes[e - 1].earlyStop
  }

  /** Saves before an early stop happen at increasing epochs. */
  lemma {:induction false} ImprovingEpochsAscending(outcomes: seq<EpochOutcome>, k: nat)
    requires k <= |outcomes|
    ensures forall a, b :: 0 <= a < b < |ImprovingEpochs(outcomes, k)| ==>
      ImprovingEpochs(outcomes, k)[a] < ImprovingEpochs(outcomes, k)[b]
  {
    if k > 0 {
      ImprovingEpochsAscending(outcomes, k - 1);
    }
  }

  /** Only improving epochs are listed. */
  lemma {:induction false} ImprovingEpochsSound(outcomes: seq<EpochOutcome>, k: nat, x: nat)
    requires k <= |outcomes| && x < |ImprovingEpochs(outcomes, k)|
    ensures Improves(outcomes, ImprovingEpochs(outcomes, k)[x] - 1)
  {
    var r := ImprovingEpochs(outcomes, k - 1);
    if x < |r| {
      ImprovingEpochsSound(outcomes, k - 1, x);
      assert ImprovingEpochs(outcomes, k)[x] == r[x];
    }
  }

  /** Every improving epoch is listed. */
  lemma {:induction false} ImprovingEpochsComplete(outcomes: seq<EpochOutcome>, k: nat, j: nat)
    requires j < k <= |outcomes|
    requires Improves(outcomes, j)
    ensures j + 1 in ImprovingEpochs(outcomes, k)
  {
    if j < k - 1 {
      ImprovingEpochsComplete(outcomes, k - 1, j);
    }
  }

  /** A save happens at epoch j + 1 (before any early stop) exactly when its train
      loss is strictly below the best so far; a tie keeps the earlier epoch. */
  lemma SaveIffStrictImprovement(outcomes: seq<EpochOutcome>, k: nat, j: nat)
    requires j < k <= |outcomes|
    ensures j + 1 in ImprovingEpochs(outcomes, k) <==> outcomes[j].trainLoss < BestLossBefore(outcomes, j)
  {
    if Improves(outcomes, j) {
      ImprovingEpochsComplete(outcomes, k, j);
    }
    if j + 1 in ImprovingEpochs(outcomes, k) {
      var x :| 0 <= x < |ImprovingEpochs(outcomes, k)| && ImprovingEpochs(outcomes, k)[x] == j + 1;
      ImprovingEpochsSound(outcomes, k, x);
    }
  }

  /** optimal_loss never increases from one epoch to a later one (without early stop). */
  lemma {:induction false} BestLossNonIncreasing(outcomes: seq<EpochOutcome>, j: nat, k: nat)
    requires j <= k <= |outcomes|
    ensures BestLossBefore(outcomes, k) <= BestLossBefore(outcomes, j)
  {
    if j < k {
      BestLossNonIncreasing(outcomes, j, k - 1);
    }
  }

  /** The last improving epoch among the first k, or 0 if none improves. */
  function LastImproving(outcomes: seq<EpochOutcome>, k: nat): (r: nat)
    requires k <= |outcomes|
    ensures r <= k
  {
    if k == 0 then 0
    else if Improves(outcomes, k - 1) then k
    else LastImproving(outcomes, k - 1)
  }

  /** LastImproving is the last element of the list of improving epochs. */
  lemma {:induction false} LastImprovingIsLastListed(outcomes: seq<EpochOutcome>, k: nat)
    requires k <= |outcomes|
    ensures ImprovingEpochs(outcomes, k) == [] ==> LastImproving(outcomes, k) == 0
    ensures ImprovingEpochs(outcomes, k) != [] ==>
      ImprovingEpochs(outcomes, k)[|ImprovingEpochs(outcomes, k)| - 1] == LastImproving(outcomes, k) >= 1
  {
    if k > 0 {
      LastImprovingIsLastListed(outcomes, k - 1);
      var r := ImprovingEpochs(outcomes, k - 1);
      if Improves(outcomes, k - 1) {
        assert ImprovingEpochs(outcomes, k) == r + [k];
      } else {
        assert ImprovingEpochs(outcomes, k) == r;
      }
    }
  }

  /** The last improving epoch is the first epoch whose train loss reaches the
      minimum: every earlier epoch is strictly worse, none later is better. With
      no improving epoch, nothing went below 1e5. */
  lemma {:induction false} LastImprovementIsFirstMinimum(outcomes: seq<EpochOutcome>, k: nat)
    requires k <= |outcomes|
    ensures LastImproving(outcomes, k) == 0 ==> BestLossBefore(outcomes, k) == InitialLoss
    ensures LastImproving(outcomes, k) != 0 ==>
      outcomes[LastImproving(outcomes, k) - 1].trainLoss == BestLossBefore(outcomes, k)
    ensures forall j :: 0 <= j < LastImproving(outcomes, k) - 1 ==>
      outcomes[j].trainLoss > BestLossBefore(outcomes, k)
  {
    if k > 0 {
      LastImprovementIsFirstMinimum(outcomes, k - 1);
      var best := BestLossBefore(outcomes, k - 1);
      if Improves(outcomes, k - 1) {
        BestLossIsMinimum(outcomes, k - 1);
        forall j | 0 <= j < k - 1 ensures outcomes[j].trainLoss > BestLossBefore(outcomes, k) {
          assert outcomes[j].trainLoss >= best;
        }
      }
    }
  }

  /** The state of the loop after k epochs without early stop: saves happened at
      the improving epochs, optimal_loss is the best train loss, and optimal_loss
      and optimal_acc are those of the last improving epoch (1e5 and 0 if none). */
  ghost predicate Tracked(outcomes: seq<EpochOutcome>, k: nat, optimalLoss: real, optimalAcc: real, saves: seq<nat>)
    requires k <= |outcomes|
  {
    var last := LastImproving(outcomes, k);
    && saves == ImprovingEpochs(outcomes, k)
    && optimalLoss == BestLossBefore(outcomes, k)
    && (last == 0 ==> optimalAcc == InitialAcc)
    && (last != 0 ==> optimalAcc == outcomes[last - 1].testAcc)
  }

  /** One more epoch without early stop: a strictly lower train loss is recorded
      and saved, anything else leaves the state alone. */
  lemma TrackedStep(outcomes: seq<EpochOutcome>, k: nat, optimalLoss: real, optimalAcc: real, saves: seq<nat>)
    requires k < |outcomes|
    requires Tracked(outcomes, k, optimalLoss, optimalAcc, saves)
    ensures outcomes[k].trainLoss < optimalLoss ==>
      Tracked(outcomes, k + 1, outcomes[k].trainLoss, outcomes[k].testAcc, saves + [k + 1])
    ensures !(outcomes[k].trainLoss < optimalLoss) ==>
      Tracked(outcomes, k + 1, optimalLoss, optimalAcc, saves)
  {
  }

  /** The epochs at which the best model is saved when the loop ends after epoch e:
      the improving ones, then e itself if early stopping fired there. */
  function SavedEpochs(outcomes: seq<EpochOutcome>, e: nat): (r: seq<nat>)
    requires e <= |outcomes|
    ensures forall x :: 0 <= x < |r| ==> 1 <= r[x] <= e
  {
    ImprovingEpochs(outcomes, e) + (if StoppedAt(outcomes, e) then [e] else [])
  }

  /** The epoch whose results are reported when the loop ends after epoch e:
      e itself after an early stop, otherwise the last improving epoch (0: none). */
  function ReportedEpoch(outcomes: seq<EpochOutcome>, e: nat): (r: nat)
    requires e <= |outcomes|
    ensures r <= e
  {
    if StoppedAt(outcomes, e) then e else LastImproving(outcomes, e)
  }

  /** The train loss of the reported epoch (1e5 if none). */
  function ReportedLoss(outcomes: seq<EpochOutcome>, e: nat): real
    requires e <= |outcomes|
  {
    var r := ReportedEpoch(outcomes, e);
    if r == 0 then InitialLoss else outcomes[r - 1].trainLoss
  }

  /** The test accuracy of the reported epoch (0 if none). */
  function ReportedAcc(outcomes: seq<EpochOutcome>, e: nat): real
    requires e <= |outcomes|
  {
    var r := ReportedEpoch(outcomes, e);
    if r == 0 then InitialAcc else outcomes[r - 1].testAcc
  }

  /** The reported epoch is always the most recently saved one, and nothing is
      reported from an epoch without a save. */
  lemma ReportedIsLastSaved(outcomes: seq<EpochOutcome>, e: nat)
    requires e <= |outcomes|
    ensures SavedEpochs(outcomes, e) == [] ==> ReportedEpoch(outcomes, e) == 0
    ensures SavedEpochs(outcomes, e) != [] ==>
      SavedEpochs(outcomes, e)[|SavedEpochs(outcomes, e)| - 1] == ReportedEpoch(outcomes, e) >= 1
  {
    LastImprovingIsLastListed(outcomes, e);
  }

  /** When the loop runs out of epochs without an early stop, the tracked
      values are exactly the saved epochs and the values of the reported one. */
  lemma TrackedFinal(outcomes: seq<EpochOutcome>, k: nat, optimalLoss: real, optimalAcc: real, saves: seq<nat>)
    requires k <= |outcomes|
    requires Tracked(outcomes, k, optimalLoss, optimalAcc, saves)
    requires !StoppedAt(outcomes, k)
    ensures saves == SavedEpochs(outcomes, k)
    ensures optimalLoss == ReportedLoss(outcomes, k)
    ensures optimalAcc == ReportedAcc(outcomes, k)
  {
    LastImprovementIsFirstMinimum(outcomes, k);
  }

  /** When early stopping fires at epoch k + 1, that epoch is the reported one. */
  lemma StoppedFinal(outcomes: seq<EpochOutcome>, k: nat, saves: seq<nat>)
    requires k < |outcomes| && outcomes[k].earlyStop
    requires saves == ImprovingEpochs(outcomes, k + 1)
    ensures saves + [k + 1] == SavedEpochs(outcomes, k + 1)
    ensures ReportedLoss(outcomes, k + 1) == outcomes[k].trainLoss
    ensures ReportedAcc(outcomes, k + 1) == outcomes[k].testAcc
  {
  }

  /** Without an early stop, the reported loss is the lowest train loss of the
      epochs run (1e5 if none is lower), and the reported epoch is the first one
      that reaches it: every earlier epoch has a strictly higher train loss. */
  lemma ReportedIsFirstMinimum(outcomes: seq<EpochOutcome>, e: nat)
    requires e <= |outcomes| && !StoppedAt(outcomes, e)
    ensures ReportedLoss(outcomes, e) == BestLossBefore(outcomes, e)
    ensures forall j :: 0 <= j < e ==> ReportedLoss(outcomes, e) <= outcomes[j].trainLoss
    ensures forall j :: 0 <= j < ReportedEpoch(outcomes, e) - 1 ==>
      outcomes[j].trainLoss > ReportedLoss(outcomes, e)
  {
    LastImprovementIsFirstMinimum(outcomes, e);
    BestLossIsMinimum(outcomes, e);
  }

  /** The bookkeeping of the epoch loop. Runs epochs 1 .. finetune_epochs; after
      each, a strictly lower train loss replaces optimal_loss / optimal_acc and
      saves the model; when early stopping fires, the epoch's own results replace
      them whatever they are, the model is saved and the loop ends. Returns the
      final optimal_loss and optimal_acc, the number of epochs run and the epochs
      at which a save happened (an epoch that both improves and stops saves twice).
      The reported loss and accuracy are always those of the last saved epoch. */
  method TrackBest(outcomes: seq<EpochOutcome>, finetuneEpochs: int)
    returns (optimalLoss: real, optimalAcc: real, epochsRun: nat, saves: seq<nat>)
    requires finetuneEpochs <= |outcomes|
    ensures epochsRun <= EpochBudget(finetuneEpochs)
    ensures forall j :: 0 <= j < epochsRun - 1 ==> !outcomes[j].earlyStop
    ensures epochsRun < EpochBudget(finetuneEpochs) ==> StoppedAt(outcomes, epochsRun)
    ensures saves == SavedEpochs(outcomes, epochsRun)
    ensures optimalLoss == ReportedLoss(outcomes, epochsRun)
    ensures optimalAcc == ReportedAcc(outcomes, epochsRun)
  {
    optimalLoss, optimalAcc := InitialLoss, InitialAcc;
    saves := [];
    epochsRun := 0;
    var epoch := 1;
    var stopped := false;
    while epoch <= finetuneEpochs
      invariant !stopped
      invariant 1 <= epoch && epochsRun == epoch - 1 <= EpochBudget(finetuneEpochs)
      invariant forall j :: 0 <= j < epochsRun ==> !outcomes[j].earlyStop
      invariant Tracked(outcomes, epochsRun, optimalLoss, optimalAcc, saves)
    {
      var outcome := outcomes[epoch - 1];
      TrackedStep(outcomes, epochsRun, optimalLoss, optimalAcc, saves);
      epochsRun := epoch;
      if outcome.trainLoss < optimalLoss {
        optimalLoss := outcome.trainLoss;
        optimalAcc := outcome.testAcc;
        saves := saves + [epoch];
      }
      if outcome.earlyStop {
        StoppedFinal(outcomes, epoch - 1, saves);
        optimalLoss := outcome.trainLoss;
        optimalAcc := outcome.testAcc;
        saves := saves + [epoch];
        stopped := true;
        break;
      }
      epoch := epoch + 1;
    }
    if !stopped {
      TrackedFinal(outcomes, epochsRun, optimalLoss, optimalAcc, saves);
    }
  }
}
