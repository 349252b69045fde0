/**
 * OpenLayers.StepSplitter: splits a list of target features against one
 * source feature, one feature at a time, by driving a StepFeatureSplitter
 * per feature one step per `step()`.
 *
 * As in the feature splitter, a pure state record and `BatchStep` say what a
 * step does, and the class is proved to move its fields (and the fields of
 * the feature splitter it owns) exactly that way.
 */
module BatchSplitting {
  import opened Wrappers
  import opened Geometry
  import opened FeatureSplitter

  /** One entry of `splitResults`: the target feature and the parts it was split into. */
  datatype SplitResult = SplitResult(feature: Feature, parts: seq<OlGeometry>)

  /** The events a batch splitter triggers. */
  datatype BatchEvent = BatchProgress(fractionDone: real) | BatchComplete

  /** What a batch splitter is given at construction. */
  datatype Batch = Batch(sourceFeature: Feature, jstsSource: JstsGeometry, features: seq<Feature>)

  /** The source and every target carry a geometry (the source dereferences them all). */
  predicate WellFormedBatch(b: Batch) {
    && b.sourceFeature.geometry.Some?
    && forall f :: f in b.features ==> f.geometry.Some?
  }

  /** The job of the feature splitter built for the `i`-th target. */
  function JobFor(k: Kernel, b: Batch, i: nat): (job: SplitJob)
    requires WellFormedBatch(b) && i < |b.features|
    ensures WellFormedJob(job) && job.targetFeature == b.features[i]
  {
    var target := b.features[i];
    SplitJob(k.bounds(b.sourceFeature.geometry.value), b.jstsSource, k.envelope(b.jstsSource),
             target, target.geometry.value)
  }

  /** The fields a batch step reads and writes; `inFlight` is the current feature splitter, if any. */
  datatype BatchState = BatchState(
    complete: bool,
    canceled: bool,
    featureIndex: nat,
    splitFeatureCount: nat,
    splitResults: seq<SplitResult>,
    inFlight: Option<SplitterState>,
    trace: seq<BatchEvent>)

  function BatchInitial(): BatchState {
    BatchState(false, false, 0, 0, [], None, [])
  }

  /**
   * What holds of every state a batch splitter reaches: one result per
   * finished feature, in input order; a splitter in flight works on the next
   * unfinished feature and is neither canceled nor complete; a complete batch
   * has finished every feature.
   */
  predicate BatchInv(k: Kernel, b: Batch, s: BatchState) {
    && WellFormedBatch(b)
    && s.splitFeatureCount == s.featureIndex == |s.splitResults| <= |b.features|
    && (forall i :: 0 <= i < |s.splitResults| ==> s.splitResults[i].feature == b.features[i])
    && (s.inFlight.Some? ==>
          && s.featureIndex < |b.features|
          && Inv(k, JobFor(k, b, s.featureIndex), s.inFlight.value)
          && !s.inFlight.value.canceled
          && !s.inFlight.value.complete)
    && (s.complete ==> s.inFlight.None? && s.featureIndex == |b.features|)
  }

  /** A batch step's new state and what it returned (or threw). */
  datatype BatchStepped = BatchStepped(state: BatchState, keepGoing: Result<bool, Fault>)

  /**
   * `step()`: a canceled batch returns false and changes nothing.  Otherwise,
   * with no splitter in flight and no feature left, the batch marks itself
   * complete and fires "complete"; else it builds a splitter for the next
   * feature if none is in flight and steps it.  A splitter that goes on
   * reports its progress within the current feature; one that stops has its
   * target and parts recorded and is dropped.  Either way one "progress"
   * fires.  The step returns true in every case but cancellation, and a
   * splitter's exception propagates with the splitter left in flight.
   */
  function BatchStep(k: Kernel, b: Batch, s: BatchState): (o: BatchStepped)
    requires BatchInv(k, b, s)
    ensures s.canceled ==> o == BatchStepped(s, Success(false))
    ensures o.state.canceled == s.canceled
    ensures !s.canceled && o.keepGoing.Success? ==> o.keepGoing.value
    ensures o.keepGoing.Failure? ==> o.state.featureIndex == s.featureIndex && o.state.inFlight.Some?
  {
    if s.canceled then BatchStepped(s, Success(false))
    else if s.inFlight.None? && s.featureIndex >= |b.features| then
      BatchStepped(s.(complete := true, trace := s.trace + [BatchComplete]), Success(true))
    else
      var job := JobFor(k, b, s.featureIndex);
      var cur := if s.inFlight.Some? then s.inFlight.value else Initial(job);
      InitialInv(k, job);
      Report(b, s, job, StepOutcome(k, job, cur))
  }

  /**
   * What the batch does with the outcome `o` of its splitter's step: keep
   * the splitter and report its progress, or record its result, drop it and
   * report the finished count; an exception leaves the splitter in flight.
   */
  function Report(b: Batch, s: BatchState, job: SplitJob, o: Stepped): BatchStepped
    requires s.featureIndex < |b.features|
  {
    var n := |b.features| as real;
    match o.keepGoing
    case Failure(e) => BatchStepped(s.(inFlight := Some(o.state)), Failure(e))
    case Success(more) =>
      if more then
        BatchStepped(s.(inFlight := Some(o.state),
                        trace := s.trace + [BatchProgress((s.splitFeatureCount as real + o.state.fractionDone) / n)]),
                     Success(true))
      else
        var count := s.splitFeatureCount + 1;
        BatchStepped(s.(splitFeatureCount := count,
                        splitResults := s.splitResults + [SplitResult(job.targetFeature, o.state.targetParts)],
                        inFlight := None,
                        featureIndex := s.featureIndex + 1,
                        trace := s.trace + [BatchProgress(count as real / n)]),
                     Success(true))
  }

  // ---------------------------------------------------------------- lemmas

  lemma BatchInitialInv(k: Kernel, b: Batch)
    requires WellFormedBatch(b)
    ensures BatchInv(k, b, BatchInitial())
  {
  }

  /** Every batch step keeps the invariant, whatever it returns. */
  lemma BatchStepPreservesInv(k: Kernel, b: Batch, s: BatchState)
    requires BatchInv(k, b, s)
    ensures BatchInv(k, b, BatchStep(k, b, s).state)
  {
    if !s.canceled && !(s.inFlight.None? && s.featureIndex >= |b.features|) {
      var job := JobFor(k, b, s.featureIndex);
      var cur := if s.inFlight.Some? then s.inFlight.value else Initial(job);
      InitialInv(k, job);
      StepPreservesInv(k, job, cur);
      ReportKeepsInv(k, b, s, job, StepOutcome(k, job, cur));
    }
  }

  /**
   * Reporting a splitter's outcome keeps the invariant, provided the
   * splitter's own invariant holds and a splitter that stays in flight is
   * not complete.
   */
  lemma ReportKeepsInv(k: Kernel, b: Batch, s: BatchState, job: SplitJob, o: Stepped)
    requires BatchInv(k, b, s) && !s.complete && s.featureIndex < |b.features|
    requires job == JobFor(k, b, s.featureIndex)
    requires Inv(k, job, o.state) && !o.state.canceled
    requires o.keepGoing != Success(false) ==> !o.state.complete
    ensures BatchInv(k, b, Report(b, s, job, o).state)
  {
    if o.keepGoing == Success(false) {
      var t := Report(b, s, job, o).state;
      forall i | 0 <= i < |t.splitResults|
        ensures t.splitResults[i].feature == b.features[i]
      {
        if i < |s.splitResults| {
          assert t.splitResults[i] == s.splitResults[i];
        }
      }
    }
  }

  /**
   * `run()` loops `while (this.step())`: a step returns false exactly when
   * the batch was canceled — even a complete batch keeps returning true — so
   * `run()` ends only by cancellation or an exception.
   */
  lemma BatchStopsOnlyWhenCanceled(k: Kernel, b: Batch, s: BatchState)
    requires BatchInv(k, b, s)
    ensures BatchStep(k, b, s).keepGoing == Success(false) <==> s.canceled
  {
  }

  /**
   * A complete batch that is not canceled stays complete and fires
   * "complete" again on every step, changing nothing else.
   */
  lemma CompleteFiresAgain(k: Kernel, b: Batch, s: BatchState)
    requires BatchInv(k, b, s) && s.complete && !s.canceled
    ensures BatchStep(k, b, s) == BatchStepped(s.(trace := s.trace + [BatchComplete]), Success(true))
  {
  }

  /**
   * The fraction a "progress" event reports is the finished features plus
   * the current splitter's own fraction, over the number of features: it
   * lies in [0, 1], so the division is never by zero.
   */
  lemma BatchProgressInUnitInterval(k: Kernel, b: Batch, s: BatchState)
    requires BatchInv(k, b, s)
    ensures var t := BatchStep(k, b, s).state;
      |t.trace| == |s.trace| + 1 && t.trace[|s.trace|].BatchProgress? ==>
        |b.features| > 0 && 0.0 <= t.trace[|s.trace|].fractionDone <= 1.0
  {
    if !s.canceled && !(s.inFlight.None? && s.featureIndex >= |b.features|) {
      var job := JobFor(k, b, s.featureIndex);
      var cur := if s.inFlight.Some? then s.inFlight.value else Initial(job);
      InitialInv(k, job);
      ProgressNeverDecreases(k, job, cur);
      var o := StepOutcome(k, job, cur);
      var n := |b.features| as real;
      var c := s.splitFeatureCount as real;
      assert c + 1.0 <= n;
      if o.keepGoing == Success(true) {
        assert 0.0 <= o.state.fractionDone <= 1.0;
        FractionBound(c, o.state.fractionDone, n);
      } else if o.keepGoing == Success(false) {
        FractionBound(c, 1.0, n);
      }
    }
  }

  lemma FractionBound(c: real, f: real, n: real)
    requires 0.0 <= c && 0.0 <= f <= 1.0 && c + 1.0 <= n
    ensures 0.0 <= (c + f) / n <= 1.0
  {
    assert c + f <= n;
  }

  /**
   * One step that does not finish the batch moves it forward: to a later
   * feature, from no splitter to one, or within the feature splitter to a
   * later stage or to less work in the same stage.
   */
  predicate BatchAdvanced(s: BatchState, t: BatchState) {
    || t.featureIndex > s.featureIndex
    || (t.featureIndex == s.featureIndex && s.inFlight.None? && t.inFlight.Some?)
    || (&& t.featureIndex == s.featureIndex && s.inFlight.Some? && t.inFlight.Some?
        && (|| StageCode(t.inFlight.value.stage) > StageCode(s.inFlight.value.stage)
            || (&& t.inFlight.value.stage == s.inFlight.value.stage
                && StageWork(t.inFlight.value) < StageWork(s.inFlight.value))))
  }

  /** Steps of a batch that is neither canceled nor failing complete it or advance it. */
  lemma BatchStepAdvances(k: Kernel, b: Batch, s: BatchState)
    requires BatchInv(k, b, s) && !s.canceled && !s.complete
    requires BatchStep(k, b, s).keepGoing.Success?
    ensures BatchStep(k, b, s).state.complete || BatchAdvanced(s, BatchStep(k, b, s).state)
  {
    if !(s.inFlight.None? && s.featureIndex >= |b.features|) {
      var job := JobFor(k, b, s.featureIndex);
      var cur := if s.inFlight.Some? then s.inFlight.value else Initial(job);
      InitialInv(k, job);
      var o := StepOutcome(k, job, cur);
      if o.keepGoing == Success(true) && s.inFlight.Some? {
        StepAdvances(k, job, cur);
      }
    }
  }

  /**
   * A feature whose splitter gives up at the union stage (bounds apart, or a
   * boundary that is not linear) is recorded with its own geometry as its
   * only part.
   */
  lemma GivingUpKeepsTarget(k: Kernel, b: Batch, s: BatchState)
    requires BatchInv(k, b, s) && !s.canceled && s.inFlight.None? && s.featureIndex < |b.features|
    requires UnionGivesUp(k, JobFor(k, b, s.featureIndex))
    ensures var t := BatchStep(k, b, s).state;
      && t.featureIndex == s.featureIndex + 1
      && t.splitResults == s.splitResults
           + [SplitResult(b.features[s.featureIndex], [b.features[s.featureIndex].geometry.value])]
  {
  }

  /**
   * What a batch step records: once the splitter of the current feature
   * returns false, that feature and the splitter's `targetParts` are
   * appended to the results, the batch moves to the next feature and drops
   * the splitter; on any other outcome the results and the current feature
   * stay as they are and the stepped splitter stays in flight.
   */
  lemma BatchStepRecords(k: Kernel, b: Batch, s: BatchState)
    requires BatchInv(k, b, s) && !s.canceled && !(s.inFlight.None? && s.featureIndex >= |b.features|)
    ensures var job := JobFor(k, b, s.featureIndex);
      var cur := if s.inFlight.Some? then s.inFlight.value else Initial(job);
      var o := StepOutcome(k, job, cur);
      var t := BatchStep(k, b, s).state;
      && (o.keepGoing == Success(false) ==>
            && t.splitResults == s.splitResults + [SplitResult(b.features[s.featureIndex], o.state.targetParts)]
            && t.featureIndex == s.featureIndex + 1
            && t.splitFeatureCount == s.splitFeatureCount + 1
            && t.inFlight.None?)
      && (o.keepGoing != Success(false) ==>
            && t.splitResults == s.splitResults
            && t.featureIndex == s.featureIndex
            && t.splitFeatureCount == s.splitFeatureCount
            && t.inFlight == Some(o.state))
  {
    InitialInv(k, JobFor(k, b, s.featureIndex));
  }

  /** A canceled or finished batch records nothing more. */
  lemma NothingRecordedWhenDone(k: Kernel, b: Batch, s: BatchState)
    requires BatchInv(k, b, s) && (s.canceled || (s.inFlight.None? && s.featureIndex >= |b.features|))
    ensures var t := BatchStep(k, b, s).state;
      && t.splitResults == s.splitResults
      && t.featureIndex == s.featureIndex
      && t.inFlight == s.inFlight
  {
  }

  /**
   * Building the splitter lazily changes nothing a step does: stepping with
   * no splitter in flight is stepping a fresh one for the current feature.
   */
  lemma BatchStepBuildsLazily(k: Kernel, b: Batch, s: BatchState)
    requires BatchInv(k, b, s) && !s.canceled && s.inFlight.None? && s.featureIndex < |b.features|
    ensures BatchInv(k, b, s.(inFlight := Some(Initial(JobFor(k, b, s.featureIndex)))))
    ensures BatchStep(k, b, s)
            == BatchStep(k, b, s.(inFlight := Some(Initial(JobFor(k, b, s.featureIndex)))))
  {
    InitialInv(k, JobFor(k, b, s.featureIndex));
  }

  // ---------------------------------------------------------------- class

  class StepSplitter {
    const kernel: Kernel
    const sourceFeature: Feature
    const jstsSource: JstsGeometry
    const features: seq<Feature>
    const numFeatures: nat

    var complete: bool
    var canceled: bool
    var featureIndex: nat
    var splitFeatureCount: nat
    var featureSplitter: StepFeatureSplitter?
    var splitResults: seq<SplitResult>
    /** The events object is still there (not yet destroyed). */
    var listening: bool
    /** The events triggered so far. */
    ghost var trace: seq<BatchEvent>

    function Config(): Batch {
      Batch(sourceFeature, jstsSource, features)
    }

    ghost function Snapshot(): BatchState
      reads this, featureSplitter
    {
      BatchState(complete, canceled, featureIndex, splitFeatureCount, splitResults,
                 if featureSplitter == null then None else Some(featureSplitter.Snapshot()),
                 trace)
    }

    /**
     * The splitter in flight is this batch's, for the current feature, and
     * still listening; its own invariant is part of BatchInv.
     */
    ghost predicate Valid()
      reads this, featureSplitter
    {
      && numFeatures == |features|
      && BatchInv(kernel, Config(), Snapshot())
      && (featureSplitter != null ==>
            && featureSplitter.listening
            && featureSplitter.kernel == kernel
            && featureSplitter.Job() == JobFor(kernel, Config(), featureIndex))
    }

    /** `initialize`: parse the source once; no feature is split yet. */
    constructor (kernel: Kernel, sourceFeature: Feature, features: seq<Feature>)
      requires sourceFeature.geometry.Some?
      requires WellFormedBatch(Batch(sourceFeature, kernel.read(sourceFeature.geometry.value), features))
      ensures Valid() && listening
      ensures this.kernel == kernel
      ensures Config() == Batch(sourceFeature, kernel.read(sourceFeature.geometry.value), features)
      ensures Snapshot() == BatchInitial()
    {
      this.kernel := kernel;
      this.sourceFeature := sourceFeature;
      this.jstsSource := kernel.read(sourceFeature.geometry.value);
      this.features := features;
      this.numFeatures := |features|;
      complete, canceled := false, false;
      featureIndex, splitFeatureCount := 0, 0;
      featureSplitter := null;
      splitResults := [];
      listening := true;
      trace := [];
      new;
      BatchInitialInv(kernel, Config());
    }

    /** `cancel`: later steps return false; the splitter in flight is not canceled. */
    method Cancel()
      requires Valid()
      modifies this
      ensures Valid() && listening == old(listening) && featureSplitter == old(featureSplitter)
      ensures Snapshot() == old(Snapshot()).(canceled := true)
    {
      canceled := true;
    }

    /** `destroy`: drop the events object; the splitter in flight is left alone. */
    method Destroy()
      requires Valid()
      modifies this
      ensures Valid() && !listening
      ensures Snapshot() == old(Snapshot())
    {
      listening := false;
    }

    /** `ensureSplitter`: build a splitter for the current feature if none is in flight. */
    method EnsureSplitter() returns (ready: bool)
      requires Valid() && !canceled
      modifies this
      ensures Valid() && listening == old(listening)
      ensures ready <==> !(old(featureSplitter) == null && featureIndex >= |features|)
      ensures ready ==> featureSplitter != null && featureIndex < |features|
      ensures old(featureSplitter) != null ==> featureSplitter == old(featureSplitter)
      ensures old(featureSplitter) == null && ready ==>
                fresh(featureSplitter) && featureSplitter.Snapshot() == Initial(JobFor(kernel, Config(), featureIndex))
      ensures !ready ==> featureSplitter == null
      ensures complete == old(complete) && canceled == old(canceled) && trace == old(trace)
      ensures featureIndex == old(featureIndex) && splitFeatureCount == old(splitFeatureCount)
      ensures splitResults == old(splitResults)
    {
      if featureSplitter == null {
        if featureIndex >= |features| {
          return false;
        }
        assert features[featureIndex] in features;
        featureSplitter := new StepFeatureSplitter(kernel, sourceFeature, jstsSource, features[featureIndex]);
        InitialInv(kernel, JobFor(kernel, Config(), featureIndex));
      }
      return true;
    }

    /** `step` */
    method Step() returns (keepGoing: Result<bool, Fault>)
      requires Valid() && (listening || canceled)
      modifies this, featureSplitter
      ensures Valid() && listening == old(listening)
      ensures BatchStepped(Snapshot(), keepGoing) == BatchStep(kernel, Config(), old(Snapshot()))
    {
      ghost var before := Snapshot();
      if canceled {
        return Success(false);
      }
      var ready := EnsureSplitter();
      if ready {
        if before.inFlight.None? {
          BatchStepBuildsLazily(kernel, Config(), before);
        }
        keepGoing := StepFeature();
      } else {
        complete := true;
        trace := trace + [BatchComplete];
        keepGoing := Success(true);
      }
    }

    /** The `ensureSplitter()` branch of `step`: step the splitter in flight and report. */
    method StepFeature() returns (keepGoing: Result<bool, Fault>)
      requires Valid() && listening && !canceled && featureSplitter != null
      modifies this, featureSplitter
      ensures Valid() && listening == old(listening)
      ensures BatchStepped(Snapshot(), keepGoing) == BatchStep(kernel, Config(), old(Snapshot()))
    {
      ghost var before := Snapshot();
      ghost var job := JobFor(kernel, Config(), featureIndex);
      BatchStepPreservesInv(kernel, Config(), before);
      assert featureSplitter.Valid();
      var r := featureSplitter.Step();
      ghost var o := Stepped(featureSplitter.Snapshot(), r);
      assert o == StepOutcome(kernel, job, before.inFlight.value);
      assert BatchStep(kernel, Config(), before) == Report(Config(), before, job, o);
      if r.Failure? {
        return Failure(r.error);
      }
      if r.value {
        ReportProgress();
      } else {
        RecordResult();
      }
      assert Snapshot() == BatchStep(kernel, Config(), before).state;
      return Success(true);
    }

    /** A splitter that goes on stays in flight; progress within the current feature fires. */
    method ReportProgress()
      requires featureSplitter != null && numFeatures > 0
      modifies this
      ensures listening == old(listening) && featureSplitter == old(featureSplitter)
      ensures Snapshot()
              == old(Snapshot()).(trace := old(trace)
                   + [BatchProgress((splitFeatureCount as real + featureSplitter.fractionDone) / numFeatures as real)])
    {
      var addl := featureSplitter.fractionDone;
      trace := trace + [BatchProgress((splitFeatureCount as real + addl) / numFeatures as real)];
    }

    /** A splitter that stops has its target and parts recorded and is destroyed and dropped. */
    method RecordResult()
      requires featureSplitter != null && featureSplitter.Valid() && numFeatures > 0
      modifies this, featureSplitter
      ensures listening == old(listening) && featureSplitter == null
      ensures Snapshot()
              == old(Snapshot()).(splitFeatureCount := old(splitFeatureCount) + 1,
                                  splitResults := old(splitResults)
                                    + [SplitResult(old(featureSplitter.targetFeature), old(featureSplitter.targetParts))],
                                  inFlight := None,
                                  featureIndex := old(featureIndex) + 1,
                                  trace := old(trace)
                                    + [BatchProgress((old(splitFeatureCount) + 1) as real / numFeatures as real)])
    {
      splitFeatureCount := splitFeatureCount + 1;
      splitResults := splitResults + [SplitResult(featureSplitter.targetFeature, featureSplitter.targetParts)];
      featureSplitter.Destroy();
      featureSplitter := null;
      featureIndex := featureIndex + 1;
      trace := trace + [BatchProgress(splitFeatureCount as real / numFeatures as real)];
    }
  }
}
