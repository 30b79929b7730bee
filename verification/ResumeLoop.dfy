/** The resumable multi-turn training loop of `train-github-tool.ts`: which batches a run started from a
    checkpoint executes, and how the two turns of a completion are flattened into one batch. */
module ResumeLoop {
  import opened Wrappers
  import opened Arithmetic

  /** A data set of `examples`, cut into batches, trained for a number of epochs. */
  datatype Plan = Plan(examples: nat, batchSize: nat, epochs: nat)

  ghost predicate ValidPlan(p: Plan) {
    p.batchSize > 0
  }

  function StepsPerEpoch(p: Plan): (n: nat)
    requires ValidPlan(p)
  {
    (p.examples + p.batchSize - 1) / p.batchSize
  }

  /** One executed training step: the epoch, and the index of the batch's first example. */
  datatype Batch = Batch(epoch: nat, first: nat)

  /** The batch that global step `g` of an uninterrupted run executes. */
  function BatchAt(p: Plan, g: nat): Batch
    requires ValidPlan(p) && p.examples > 0
  {
    StepsPositive(p);
    Batch(g / StepsPerEpoch(p), g % StepsPerEpoch(p) * p.batchSize)
  }

  /** The global steps `lo..hi` in order. */
  ghost function Steps(p: Plan, lo: nat, hi: nat): (r: seq<Batch>)
    requires ValidPlan(p) && p.examples > 0
    ensures |r| == if lo <= hi then hi - lo else 0
    ensures forall k :: 0 <= k < |r| ==> r[k] == BatchAt(p, lo + k)
    decreases hi
  {
    if hi <= lo then [] else Steps(p, lo, hi - 1) + [BatchAt(p, hi - 1)]
  }

  // ---------------------------------------------------------------- arithmetic

  /** The batches of an epoch start below the data set's size, and only they do. */
  lemma BatchStarts(p: Plan, k: nat)
    requires ValidPlan(p)
    ensures k * p.batchSize < p.examples <==> k < StepsPerEpoch(p)
  {
    var s, b := StepsPerEpoch(p), p.batchSize;
    var t := p.examples + b - 1;
    assert t == s * b + t % b;
    ScaleOrder(k, s, b);
    ScaleOrder(s, k, b);
  }

  lemma StepsPositive(p: Plan)
    requires ValidPlan(p)
    ensures StepsPerEpoch(p) > 0 <==> p.examples > 0
  {
    BatchStarts(p, 0);
  }

  // ---------------------------------------------------------------- the loop

  /** Where a run resumes: the epoch recomputed from the step number wins over the recorded one. With an
      empty data set the division has no value and no epoch is entered. */
  function StartEpoch(p: Plan, step: nat, savedEpoch: nat): nat
    requires ValidPlan(p)
  {
    if step == 0 then savedEpoch
    else if p.examples == 0 then p.epochs
    else StepsPositive(p); step / StepsPerEpoch(p)
  }

  /** The global step at which an epoch begins. */
  function Boundary(p: Plan, epoch: nat): nat
    requires ValidPlan(p)
  {
    epoch * StepsPerEpoch(p)
  }

  function StartBatchIdx(p: Plan, step: nat): nat
    requires ValidPlan(p)
  {
    if step > 0 && p.examples > 0 then StepsPositive(p); step % StepsPerEpoch(p) else 0
  }

  /** The global step a run starts at. */
  function FirstStep(p: Plan, step: nat, savedEpoch: nat): nat
    requires ValidPlan(p)
  {
    if step > 0 then step else Boundary(p, savedEpoch)
  }

  method Train(p: Plan, step: nat, savedEpoch: nat) returns (executed: seq<Batch>, skippedEpochs: nat)
    requires ValidPlan(p)
    ensures p.examples > 0 ==> executed == Steps(p, FirstStep(p, step, savedEpoch), Boundary(p, p.epochs))
    ensures p.examples == 0 ==> executed == []
    ensures skippedEpochs > 0 <==> p.examples == 0 && step == 0 && savedEpoch < p.epochs
  {
    hide StepsPerEpoch, Steps, Boundary, BatchAt, StartBatchIdx, FirstStep, StartEpoch;
    var startBatchIdx := StartBatchIdx(p, step);
    var startEpoch := StartEpoch(p, step, savedEpoch);
    StartFacts(p, step, savedEpoch);
    executed, skippedEpochs := [], 0;
    var epoch := startEpoch;
    while epoch < p.epochs
      invariant startEpoch <= epoch && (epoch <= p.epochs || epoch == startEpoch)
      invariant p.examples > 0 ==> DoneUpTo(p, step, savedEpoch, epoch, executed) && skippedEpochs == 0
      invariant p.examples == 0 ==> executed == [] && skippedEpochs == epoch - startEpoch
    {
      ghost var from := if epoch == startEpoch && step > 0 then startBatchIdx else 0;
      var epochStartBatch := if epoch == startEpoch && step > 0 then startBatchIdx * p.batchSize else 0;
      FromFacts(p, step, from, epochStartBatch);
      if epochStartBatch >= p.examples {
        skippedEpochs := skippedEpochs + 1;
        epoch := epoch + 1;
        continue;
      }
      var batches := TrainEpoch(p, epoch, epochStartBatch, from);
      EpochDone(p, step, savedEpoch, epoch, from, executed, batches);
      executed := executed + batches;
      epoch := epoch + 1;
    }
  }

  /** What has been executed when the loop is about to enter `epoch`. */
  ghost predicate DoneUpTo(p: Plan, step: nat, savedEpoch: nat, epoch: nat, executed: seq<Batch>)
    requires ValidPlan(p) && p.examples > 0
  {
    if epoch == StartEpoch(p, step, savedEpoch) && epoch < p.epochs then executed == []
    else if epoch == StartEpoch(p, step, savedEpoch) then executed == [] && Steps(p, FirstStep(p, step, savedEpoch), Boundary(p, p.epochs)) == []
    else executed == Steps(p, FirstStep(p, step, savedEpoch), Boundary(p, epoch))
  }

  lemma StartFacts(p: Plan, step: nat, savedEpoch: nat)
    requires ValidPlan(p)
    ensures p.examples > 0 ==> DoneUpTo(p, step, savedEpoch, StartEpoch(p, step, savedEpoch), [])
    ensures p.examples == 0 && step > 0 ==> StartEpoch(p, step, savedEpoch) == p.epochs
    ensures step == 0 ==> StartEpoch(p, step, savedEpoch) == savedEpoch
  {
    if p.examples > 0 {
      FirstStepIn(p, step, savedEpoch);
      ScaleOrder(p.epochs, StartEpoch(p, step, savedEpoch), StepsPerEpoch(p));
    }
  }

  /** The first step lies in the start epoch, at the start batch. */
  lemma FirstStepIn(p: Plan, step: nat, savedEpoch: nat)
    requires ValidPlan(p) && p.examples > 0
    ensures StartBatchIdx(p, step) < StepsPerEpoch(p)
    ensures FirstStep(p, step, savedEpoch) == StartEpoch(p, step, savedEpoch) * StepsPerEpoch(p) + StartBatchIdx(p, step)
  {
    StepsPositive(p);
    if step > 0 { assert step == step / StepsPerEpoch(p) * StepsPerEpoch(p) + step % StepsPerEpoch(p); }
  }

  /** The resume position never exceeds a non-empty data set. */
  lemma FromFacts(p: Plan, step: nat, from: nat, start: nat)
    requires ValidPlan(p) && (from == 0 || from == StartBatchIdx(p, step)) && (start == from * p.batchSize || (from == 0 && start == 0))
    ensures start == from * p.batchSize && from <= StepsPerEpoch(p) && (start < p.examples <==> p.examples > 0)
  {
    StepsPositive(p);
    BatchStarts(p, from);
  }

  lemma EpochDone(p: Plan, step: nat, savedEpoch: nat, epoch: nat, from: nat, executed: seq<Batch>, batches: seq<Batch>)
    requires ValidPlan(p) && p.examples > 0 && StartEpoch(p, step, savedEpoch) <= epoch < p.epochs
    requires DoneUpTo(p, step, savedEpoch, epoch, executed)
    requires from == if epoch == StartEpoch(p, step, savedEpoch) && step > 0 then StartBatchIdx(p, step) else 0
    requires from <= StepsPerEpoch(p) && |batches| == StepsPerEpoch(p) - from
    requires forall k :: 0 <= k < |batches| ==> batches[k] == Batch(epoch, (from + k) * p.batchSize)
    ensures DoneUpTo(p, step, savedEpoch, epoch + 1, executed + batches)
  {
    hide StepsPerEpoch, Steps, BatchAt, StartBatchIdx, FirstStep, StartEpoch;
    EpochIsSteps(p, epoch, from, batches);
    FirstStepIn(p, step, savedEpoch);
    var e := StartEpoch(p, step, savedEpoch);
    if epoch == e {
      assert executed + batches == batches;
      if step == 0 { StartsAtBoundary(p, savedEpoch); }
    } else {
      ScaleOrder(e + 1, epoch, StepsPerEpoch(p));
      NextMultiple(e, StepsPerEpoch(p));
      NextMultiple(epoch, StepsPerEpoch(p));
      StepsJoin(p, FirstStep(p, step, savedEpoch), Boundary(p, epoch), Boundary(p, epoch + 1));
    }
  }

  lemma StartsAtBoundary(p: Plan, savedEpoch: nat)
    requires ValidPlan(p)
    ensures StartBatchIdx(p, 0) == 0
  {
  }

  /** The batch loop of one epoch. */
  method TrainEpoch(p: Plan, epoch: nat, start: nat, ghost from: nat) returns (batches: seq<Batch>)
    requires ValidPlan(p) && p.examples > 0 && start == from * p.batchSize && from <= StepsPerEpoch(p)
    ensures |batches| == StepsPerEpoch(p) - from
    ensures forall k :: 0 <= k < |batches| ==> batches[k] == Batch(epoch, (from + k) * p.batchSize)
  {
    batches := [];
    var i := start;
    ghost var k := from;
    BatchStarts(p, from);
    while i < p.examples
      invariant from <= k <= StepsPerEpoch(p) && i == k * p.batchSize && |batches| == k - from
      invariant i < p.examples <==> k < StepsPerEpoch(p)
      invariant forall m :: 0 <= m < |batches| ==> batches[m] == Batch(epoch, (from + m) * p.batchSize)
      decreases StepsPerEpoch(p) - k
    {
      batches := batches + [Batch(epoch, i)];
      ScaleOrder(k, k + 1, p.batchSize);
      NextMultiple(k, p.batchSize);
      i, k := i + p.batchSize, k + 1;
      BatchStarts(p, k);
    }
  }

  lemma NextMultiple(k: nat, b: nat)
    ensures (k + 1) * b == k * b + b
  {
  }

  lemma EpochIsSteps(p: Plan, epoch: nat, from: nat, batches: seq<Batch>)
    requires ValidPlan(p) && p.examples > 0 && from <= StepsPerEpoch(p) && |batches| == StepsPerEpoch(p) - from
    requires forall k :: 0 <= k < |batches| ==> batches[k] == Batch(epoch, (from + k) * p.batchSize)
    ensures batches == Steps(p, epoch * StepsPerEpoch(p) + from, (epoch + 1) * StepsPerEpoch(p))
  {
    var s := StepsPerEpoch(p);
    NextMultiple(epoch, s);
    var steps := Steps(p, epoch * s + from, (epoch + 1) * s);
    forall k | 0 <= k < |batches| ensures batches[k] == steps[k] {
      DivisionUnique(epoch * s + from + k, s, epoch, from + k);
    }
  }

  /** Consecutive ranges of steps join. */
  lemma {:induction false} StepsJoin(p: Plan, lo: nat, mid: nat, hi: nat)
    requires ValidPlan(p) && p.examples > 0 && lo <= mid <= hi
    ensures Steps(p, lo, mid) + Steps(p, mid, hi) == Steps(p, lo, hi)
  {
    var a, b := Steps(p, lo, mid) + Steps(p, mid, hi), Steps(p, lo, hi);
    forall k | 0 <= k < |a| ensures a[k] == b[k] {
    }
  }

  /** Stopping at any positive step and resuming from its checkpoint executes, together, exactly the
      uninterrupted run. */
  lemma ResumeIsSeamless(p: Plan, step: nat, savedEpoch: nat)
    requires ValidPlan(p) && p.examples > 0 && 0 < step <= Boundary(p, p.epochs)
    ensures FirstStep(p, 0, 0) == 0 && FirstStep(p, step, savedEpoch) == step
    ensures Steps(p, FirstStep(p, 0, 0), step) + Steps(p, FirstStep(p, step, savedEpoch), Boundary(p, p.epochs))
            == Steps(p, FirstStep(p, 0, 0), Boundary(p, p.epochs))
  {
    StepsJoin(p, 0, step, Boundary(p, p.epochs));
  }

  /** Every batch of every epoch appears, in order, exactly once: step `g` is batch `g % steps` of epoch
      `g / steps`, and each starts inside the data set. */
  lemma EveryBatchIsInside(p: Plan, g: nat)
    requires ValidPlan(p) && p.examples > 0 && g < Boundary(p, p.epochs)
    ensures BatchAt(p, g).epoch < p.epochs && BatchAt(p, g).first < p.examples
    ensures g == BatchAt(p, g).epoch * StepsPerEpoch(p) + BatchAt(p, g).first / p.batchSize
  {
    StepsPositive(p);
    var s := StepsPerEpoch(p);
    var e, k := g / s, g % s;
    assert g == e * s + k;
    BatchStarts(p, k);
    DivisionUnique(k * p.batchSize, p.batchSize, k, 0);
    ScaleOrder(p.epochs, e, s);
  }

  // ---------------------------------------------------------------- two turns in one batch

  /** A second turn, when the first one was a tool call. */
  datatype Turn = Turn(tokens: seq<int>, logprobs: seq<real>, length: nat)

  /** `slice(from, to)` of the host language, which clips at the end. */
  function Slice<T>(s: seq<T>, from: nat, to: nat): seq<T> {
    var hi := if to < |s| then to else |s|;
    if from <= hi then s[from..hi] else []
  }

  function Offset(lengths: seq<nat>, j: nat): nat
    requires j <= |lengths|
  {
    if j == 0 then 0 else Offset(lengths, j - 1) + lengths[j - 1]
  }

  /** First-turn segments of a flattened array, each followed by its second part. */
  function Combined<T>(flat: seq<T>, lengths: seq<nat>, seconds: seq<seq<T>>, n: nat): seq<T>
    requires n <= |lengths| == |seconds|
  {
    if n == 0 then []
    else Combined(flat, lengths, seconds, n - 1)
         + (Slice(flat, Offset(lengths, n - 1), Offset(lengths, n - 1) + lengths[n - 1]) + seconds[n - 1])
  }

  function SecondTokens(second: Option<Turn>): seq<int> {
    if second.Some? then Slice(second.value.tokens, 0, second.value.length) else []
  }

  function SecondLogprobs(second: Option<Turn>): seq<real> {
    if second.Some? then Slice(second.value.logprobs, 0, second.value.length) else []
  }

  function SecondLength(second: Option<Turn>): nat {
    if second.Some? then second.value.length else 0
  }

  ghost function MapTurns<T>(turns: seq<Option<Turn>>, f: Option<Turn> -> T): (r: seq<T>)
    ensures |r| == |turns| && forall j :: 0 <= j < |turns| ==> r[j] == f(turns[j])
  {
    seq(|turns|, j requires 0 <= j < |turns| => f(turns[j]))
  }

  method CombineTurns(tokens: seq<int>, logprobs: seq<real>, lengths: seq<nat>, turns: seq<Option<Turn>>)
    returns (combinedTokens: seq<int>, combinedLogprobs: seq<real>, combinedLengths: seq<nat>)
    requires |turns| == |lengths|
    ensures combinedTokens == Combined(tokens, lengths, MapTurns(turns, SecondTokens), |lengths|)
    ensures combinedLogprobs == Combined(logprobs, lengths, MapTurns(turns, SecondLogprobs), |lengths|)
    ensures |combinedLengths| == |lengths|
    ensures forall j :: 0 <= j < |lengths| ==> combinedLengths[j] == lengths[j] + SecondLength(turns[j])
  {
    hide Slice;
    combinedTokens, combinedLogprobs, combinedLengths := [], [], [];
    var offset := 0;
    for j := 0 to |lengths|
      invariant offset == Offset(lengths, j) && |combinedLengths| == j
      invariant combinedTokens == Combined(tokens, lengths, MapTurns(turns, SecondTokens), j)
      invariant combinedLogprobs == Combined(logprobs, lengths, MapTurns(turns, SecondLogprobs), j)
      invariant forall k :: 0 <= k < j ==> combinedLengths[k] == lengths[k] + SecondLength(turns[k])
    {
      var turn1Tokens := Slice(tokens, offset, offset + lengths[j]);
      var turn1Logprobs := Slice(logprobs, offset, offset + lengths[j]);
      offset := offset + lengths[j];
      match turns[j]
      case Some(turn2) =>
        combinedTokens := combinedTokens + (turn1Tokens + Slice(turn2.tokens, 0, turn2.length));
        combinedLogprobs := combinedLogprobs + (turn1Logprobs + Slice(turn2.logprobs, 0, turn2.length));
        combinedLengths := combinedLengths + [lengths[j] + turn2.length];
      case None =>
        assert turn1Tokens + [] == turn1Tokens && turn1Logprobs + [] == turn1Logprobs;
        combinedTokens := combinedTokens + turn1Tokens;
        combinedLogprobs := combinedLogprobs + turn1Logprobs;
        combinedLengths := combinedLengths + [lengths[j]];
    }
  }

  /** Lengths that describe the flattened array and the second parts. */
  ghost predicate Consistent<T>(flat: seq<T>, lengths: seq<nat>, seconds: seq<seq<T>>, combinedLengths: seq<nat>) {
    && |lengths| == |seconds| == |combinedLengths|
    && Offset(lengths, |lengths|) <= |flat|
    && forall k :: 0 <= k < |lengths| ==> combinedLengths[k] == lengths[k] + |seconds[k]|
  }

  /** The two turns of completion `j`. */
  ghost function Segment<T>(flat: seq<T>, lengths: seq<nat>, seconds: seq<seq<T>>, combinedLengths: seq<nat>, j: nat): (r: seq<T>)
    requires Consistent(flat, lengths, seconds, combinedLengths) && j < |lengths|
    ensures |r| == combinedLengths[j]
  {
    OffsetGrows(lengths, j + 1, |lengths|);
    flat[Offset(lengths, j)..Offset(lengths, j) + lengths[j]] + seconds[j]
  }

  lemma CombinedNext<T>(flat: seq<T>, lengths: seq<nat>, seconds: seq<seq<T>>, combinedLengths: seq<nat>, j: nat)
    requires Consistent(flat, lengths, seconds, combinedLengths) && j < |lengths|
    ensures Combined(flat, lengths, seconds, j + 1)
            == Combined(flat, lengths, seconds, j) + Segment(flat, lengths, seconds, combinedLengths, j)
    ensures Offset(combinedLengths, j + 1) == Offset(combinedLengths, j) + combinedLengths[j]
  {
    FirstTurnIsWhole(flat, lengths, seconds, combinedLengths, j);
    hide Slice;
  }

  /** The slice of the first turn is not clipped. */
  lemma FirstTurnIsWhole<T>(flat: seq<T>, lengths: seq<nat>, seconds: seq<seq<T>>, combinedLengths: seq<nat>, j: nat)
    requires Consistent(flat, lengths, seconds, combinedLengths) && j < |lengths|
    ensures Slice(flat, Offset(lengths, j), Offset(lengths, j) + lengths[j]) + seconds[j]
            == Segment(flat, lengths, seconds, combinedLengths, j)
  {
    hide Slice, Offset;
    EndsInside(flat, lengths, j);
    SliceWhole(flat, Offset(lengths, j), Offset(lengths, j) + lengths[j]);
  }

  lemma EndsInside<T>(flat: seq<T>, lengths: seq<nat>, j: nat)
    requires j < |lengths| && Offset(lengths, |lengths|) <= |flat|
    ensures Offset(lengths, j) + lengths[j] <= |flat|
  {
    OffsetGrows(lengths, j + 1, |lengths|);
  }

  lemma SliceWhole<T>(s: seq<T>, lo: nat, hi: nat)
    requires lo <= hi <= |s|
    ensures Slice(s, lo, hi) == s[lo..hi]
  {
  }

  lemma {:induction false} CombinedLength<T>(flat: seq<T>, lengths: seq<nat>, seconds: seq<seq<T>>, combinedLengths: seq<nat>, n: nat)
    requires Consistent(flat, lengths, seconds, combinedLengths) && n <= |lengths|
    ensures |Combined(flat, lengths, seconds, n)| == Offset(combinedLengths, n)
  {
    hide Segment, Consistent, Combined, Offset;
    ConsistentAt(flat, lengths, seconds, combinedLengths);
    if n == 0 {
      NothingCombined(flat, lengths, seconds, combinedLengths);
    } else {
      CombinedLength(flat, lengths, seconds, combinedLengths, n - 1);
      CombinedNext(flat, lengths, seconds, combinedLengths, n - 1);
    }
  }

  lemma NothingCombined<T>(flat: seq<T>, lengths: seq<nat>, seconds: seq<seq<T>>, combinedLengths: seq<nat>)
    requires |lengths| == |seconds|
    ensures |Combined(flat, lengths, seconds, 0)| == Offset(combinedLengths, 0) == 0
  {
  }

  lemma ConsistentAt<T>(flat: seq<T>, lengths: seq<nat>, seconds: seq<seq<T>>, combinedLengths: seq<nat>)
    requires Consistent(flat, lengths, seconds, combinedLengths)
    ensures |lengths| == |seconds| == |combinedLengths|
  {
  }

  /** The reported lengths cut the combined array back into its segments: segment `j` is the first turn
      followed by the second, and the lengths add up to the array. */
  lemma {:induction false} SegmentsAreRecovered<T>(flat: seq<T>, lengths: seq<nat>, seconds: seq<seq<T>>, combinedLengths: seq<nat>, n: nat, j: nat)
    requires Consistent(flat, lengths, seconds, combinedLengths) && j < n <= |lengths|
    ensures |lengths| == |seconds| == |combinedLengths|
    ensures var c := Combined(flat, lengths, seconds, n);
            && |c| == Offset(combinedLengths, n)
            && Offset(combinedLengths, j) + combinedLengths[j] <= |c|
            && c[Offset(combinedLengths, j)..Offset(combinedLengths, j) + combinedLengths[j]]
               == Segment(flat, lengths, seconds, combinedLengths, j)
  {
    hide Segment, Consistent, Combined, Offset;
    ConsistentAt(flat, lengths, seconds, combinedLengths);
    var before, last := Combined(flat, lengths, seconds, n - 1), Segment(flat, lengths, seconds, combinedLengths, n - 1);
    CombinedLength(flat, lengths, seconds, combinedLengths, n - 1);
    CombinedLength(flat, lengths, seconds, combinedLengths, n);
    CombinedNext(flat, lengths, seconds, combinedLengths, n - 1);
    if j < n - 1 {
      SegmentsAreRecovered(flat, lengths, seconds, combinedLengths, n - 1, j);
      SliceOfLeft(before, last, Offset(combinedLengths, j), Offset(combinedLengths, j) + combinedLengths[j]);
    } else {
      SliceOfRight(before, last);
    }
  }

  lemma SliceOfLeft<T>(a: seq<T>, b: seq<T>, lo: nat, hi: nat)
    requires lo <= hi <= |a|
    ensures (a + b)[lo..hi] == a[lo..hi]
  {
  }

  lemma SliceOfRight<T>(a: seq<T>, b: seq<T>)
    ensures (a + b)[|a|..|a| + |b|] == b
  {
  }

  lemma OffsetGrows(lengths: seq<nat>, i: nat, j: nat)
    requires i <= j <= |lengths|
    ensures Offset(lengths, i) <= Offset(lengths, j)
    decreases j
  {
    if i < j { OffsetGrows(lengths, i, j - 1); }
  }
}
