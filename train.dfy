/** The split and step-count arithmetic of training. The dataset it splits
    is already batched, so its length counts batches of 32, not frames. */
module Train {
  import opened Errors

  /** `batch_size` of the batched dataset and the divisor of the step counts. */
  const BATCH := 32

  /** `int(0.8 * n)`: four fifths of `n`, rounded down. The double nearest
      0.8 lies above it, so the product never rounds below a whole
      `4n/5`. */
  function TrainSize(n: nat): (t: nat)
    ensures t <= n && 5 * t <= 4 * n < 5 * t + 5
  {
    (4 * n) / 5
  }

  /** `len(dataset) - train_size`. */
  function ValSize(n: nat): (v: nat)
    ensures TrainSize(n) + v == n
  {
    n - TrainSize(n)
  }

  /** `max(size // 32, 1)`: whole batches of 32, but at least one step. */
  function Steps(size: nat): (s: nat)
    ensures s >= 1
    ensures size >= BATCH ==> BATCH * s <= size < BATCH * s + BATCH
    ensures size < BATCH ==> s == 1
  {
    if size / BATCH > 1 then size / BATCH else 1
  }

  /** The numbers `model.fit` is called with. */
  datatype Plan = Plan(trainSize: nat, valSize: nat, stepsPerEpoch: nat, validationSteps: nat)

  /** `train_model` up to `model.fit`: a missing labels file raises before
      any dataset work; otherwise loading either raises (`loaded` is its
      error) or gives the dataset's length, which is split and turned into
      step counts. */
  function TrainModel(labelsFileExists: bool, loaded: Result<nat>): (r: Result<Plan>)
    ensures !labelsFileExists ==> r == Err(FileNotFoundError)
    ensures labelsFileExists && loaded.Err? ==> r == Err(loaded.error)
    ensures r.Ok? ==> r.value.trainSize + r.value.valSize == loaded.value
    ensures r.Ok? ==> r.value.stepsPerEpoch >= 1 && r.value.validationSteps >= 1
  {
    if !labelsFileExists then Err(FileNotFoundError)
    else
      match loaded
      case Err(e) => Err(e)
      case Ok(n) =>
        var t, v := TrainSize(n), ValSize(n);
        Ok(Plan(t, v, Steps(t), Steps(v)))
  }

  /** The split takes at least as much for training as for validation once
      there are five batches, and the training share grows with `n`. */
  lemma SplitShares(m: nat, n: nat)
    requires m <= n
    ensures TrainSize(m) <= TrainSize(n)
    ensures n >= 5 ==> ValSize(n) <= TrainSize(n)
  {
  }

  /** Because `n` already counts batches, the step counts divide by 32 a
      second time: with fewer than 40 batches (up to 1248 frames) an epoch
      is a single training step and a single validation step. */
  lemma StepsCollapseToOne(n: nat)
    requires n < 40
    ensures Steps(TrainSize(n)) == 1 && Steps(ValSize(n)) == 1
  {
  }

  /** The batch count for `examples` labelled frames: `ceil(examples / 32)`. */
  function Batches(examples: nat): (b: nat)
    ensures BATCH * b >= examples && (b == 0 || BATCH * (b - 1) < examples)
  {
    (examples + BATCH - 1) / BATCH
  }

  /** For every frame count up to 1248 (39 full batches) training runs one
      step per epoch. */
  lemma FewFramesOneStep(examples: nat)
    requires examples <= 39 * BATCH
    ensures Steps(TrainSize(Batches(examples))) == 1
  {
    StepsCollapseToOne(Batches(examples));
  }
}
