/**
 * OpenLayers.Control.SplitPolygon (the stepping control): picks the target
 * features a new splitter line may split, hands them to a StepSplitter,
 * steps it from a timer, and when it completes turns every approved result
 * into new features.
 */
module SplitControl {
  import opened Wrappers
  import opened Geometry
  import opened FeatureSplitter
  import opened BatchSplitting
  import opened FeatureParts

  /** An attribute filter (`OpenLayers.Filter.evaluate`); None when the control has none. */
  predicate PassesFilter(filter: Option<Attributes -> bool>, attributes: Attributes) {
    filter.None? || filter.value(attributes)
  }

  /**
   * `isEligible`: a target needs a geometry, must not be deleted, must not
   * be the control's own feature, and must pass the target filter if one is
   * set.  Visibility is not looked at.
   */
  predicate IsEligible(current: Option<Feature>, targetFilter: Option<Attributes -> bool>, target: Feature) {
    && target.geometry.Some?
    && target.state != Some(Delete)
    && current != Some(target)
    && PassesFilter(targetFilter, target.attributes)
  }

  /** The targets of `beginSplit`: eligible layer features whose bounds meet the source's, in layer order. */
  function Targets(k: Kernel, current: Option<Feature>, targetFilter: Option<Attributes -> bool>,
                   bounds: Box, features: seq<Feature>): seq<Feature>
    decreases |features|
  {
    if features == [] then []
    else
      var rest := Targets(k, current, targetFilter, bounds, features[..|features| - 1]);
      var f := features[|features| - 1];
      if IsEligible(current, targetFilter, f) && Intersects(k.bounds(f.geometry.value), bounds)
      then rest + [f] else rest
  }

  /**
   * The targets are exactly the eligible layer features whose bounds meet
   * the source bounds, in layer order; in particular each has a geometry.
   */
  lemma {:induction false} TargetsMeaning(k: Kernel, current: Option<Feature>, targetFilter: Option<Attributes -> bool>,
                                          bounds: Box, features: seq<Feature>)
    ensures var ts := Targets(k, current, targetFilter, bounds, features);
      && SubsequenceOf(ts, features)
      && forall f :: f in ts <==>
           f in features && IsEligible(current, targetFilter, f) && Intersects(k.bounds(f.geometry.value), bounds)
    decreases |features|
  {
    if features != [] {
      var init, f := features[..|features| - 1], features[|features| - 1];
      TargetsMeaning(k, current, targetFilter, bounds, init);
      assert features == init + [f];
      var rest := Targets(k, current, targetFilter, bounds, init);
      assert (rest + [f])[..|rest|] == rest;
    }
  }

  /** The loop of `beginSplit` that collects the targets. */
  method CollectTargets(k: Kernel, current: Option<Feature>, targetFilter: Option<Attributes -> bool>,
                        bounds: Box, features: seq<Feature>)
    returns (targetFeatures: seq<Feature>)
    ensures targetFeatures == Targets(k, current, targetFilter, bounds, features)
  {
    targetFeatures := [];
    var i := 0;
    while i < |features|
      invariant 0 <= i <= |features|
      invariant targetFeatures == Targets(k, current, targetFilter, bounds, features[..i])
    {
      var targetFeature := features[i];
      assert features[..i + 1][..i] == features[..i];
      if IsEligible(current, targetFilter, targetFeature)
         && Intersects(k.bounds(targetFeature.geometry.value), bounds) {
        targetFeatures := targetFeatures + [targetFeature];
      }
      i := i + 1;
    }
    assert features[..|features|] == features;
  }

  /**
   * `splitComplete`, as lists: every result whose "beforesplit" is not
   * vetoed has its parts turned into features (advancing the id counter);
   * those features are the additions and its target is a removal.
   */
  function Collected(k: Kernel, source: Feature, results: seq<SplitResult>,
                     proceed: (Feature, Feature) -> bool, nextId: int)
    : (seq<Feature>, seq<Feature>, int)
    decreases |results|
  {
    if results == [] then ([], [], nextId)
    else
      var (additions, removals, next) := Collected(k, source, results[..|results| - 1], proceed, nextId);
      var result := results[|results| - 1];
      if proceed(source, result.feature) then
        var (parts, after) := PartsAsFeatures(k, result.feature, result.parts, next);
        (additions + parts, removals + [result.feature], after)
      else (additions, removals, next)
  }

  /** The results nobody vetoed, in order. */
  function ApprovedResults(source: Feature, results: seq<SplitResult>, proceed: (Feature, Feature) -> bool)
    : seq<SplitResult>
    decreases |results|
  {
    if results == [] then []
    else
      var rest := ApprovedResults(source, results[..|results| - 1], proceed);
      var r := results[|results| - 1];
      if proceed(source, r.feature) then rest + [r] else rest
  }

  /** The approved results are the results "beforesplit" lets through, in result order. */
  lemma {:induction false} ApprovedResultsMeaning(source: Feature, results: seq<SplitResult>,
                                                  proceed: (Feature, Feature) -> bool)
    ensures var rs := ApprovedResults(source, results, proceed);
      && SubsequenceOf(rs, results)
      && forall r :: r in rs <==> r in results && proceed(source, r.feature)
    decreases |results|
  {
    if results != [] {
      var init, r := results[..|results| - 1], results[|results| - 1];
      ApprovedResultsMeaning(source, init, proceed);
      assert results == init + [r];
      var rest := ApprovedResults(source, init, proceed);
      assert (rest + [r])[..|rest|] == rest;
    }
  }

  /** The target of each result, in order. */
  function ResultFeatures(results: seq<SplitResult>): seq<Feature> {
    seq(|results|, i requires 0 <= i < |results| => results[i].feature)
  }

  lemma ResultFeaturesSnoc(results: seq<SplitResult>, r: SplitResult)
    ensures ResultFeatures(results + [r]) == ResultFeatures(results) + [r.feature]
  {
    var lhs, rhs := ResultFeatures(results + [r]), ResultFeatures(results) + [r.feature];
    assert |lhs| == |rhs|;
    forall i | 0 <= i < |lhs|
      ensures lhs[i] == rhs[i]
    {
      if i < |results| {
        assert (results + [r])[i] == results[i];
      }
    }
  }

  /** How many parts the results carry in all. */
  function PartCount(results: seq<SplitResult>): nat
    decreases |results|
  {
    if results == [] then 0
    else PartCount(results[..|results| - 1]) + |results[|results| - 1].parts|
  }

  /** How many fresh ids numbering the results' parts takes: one per part beyond the first. */
  function IdsUsed(results: seq<SplitResult>): nat
    decreases |results|
  {
    if results == [] then 0
    else
      var parts := results[|results| - 1].parts;
      IdsUsed(results[..|results| - 1]) + (if parts == [] then 0 else |parts| - 1)
  }

  /** `geomsToFeatures` of each result's parts in turn, the id counter threaded through. */
  function FeaturesOfParts(k: Kernel, results: seq<SplitResult>, nextId: int): (seq<Feature>, int)
    decreases |results|
  {
    if results == [] then ([], nextId)
    else
      var (additions, next) := FeaturesOfParts(k, results[..|results| - 1], nextId);
      var r := results[|results| - 1];
      var (fs, after) := PartsAsFeatures(k, r.feature, r.parts, next);
      (additions + fs, after)
  }

  /**
   * Turning the results' parts into features gives one INSERT feature per
   * part, each carrying a geometry, and takes exactly one fresh id per part
   * beyond the first of each result.
   */
  lemma {:induction false} FeaturesOfPartsMeaning(k: Kernel, results: seq<SplitResult>, nextId: int)
    ensures var (fs, next) := FeaturesOfParts(k, results, nextId);
      && |fs| == PartCount(results)
      && next == nextId + IdsUsed(results)
      && forall f :: f in fs ==> f.state == Some(Insert) && f.geometry.Some?
    decreases |results|
  {
    if results != [] {
      var init, r := results[..|results| - 1], results[|results| - 1];
      FeaturesOfPartsMeaning(k, init, nextId);
      var (additions, next) := FeaturesOfParts(k, init, nextId);
      PartsAsFeaturesMeaning(k, r.feature, r.parts, next);
    }
  }

  /** `splitComplete` as lists is the approved results' targets and their parts turned into features. */
  lemma {:induction false} CollectedIsApproved(k: Kernel, source: Feature, results: seq<SplitResult>,
                                               proceed: (Feature, Feature) -> bool, nextId: int)
    ensures var (additions, removals, next) := Collected(k, source, results, proceed, nextId);
      var approved := ApprovedResults(source, results, proceed);
      && removals == ResultFeatures(approved)
      && (additions, next) == FeaturesOfParts(k, approved, nextId)
    decreases |results|
  {
    if results != [] {
      var init, r := results[..|results| - 1], results[|results| - 1];
      CollectedIsApproved(k, source, init, proceed, nextId);
      var rest := ApprovedResults(source, init, proceed);
      if proceed(source, r.feature) {
        assert (rest + [r])[..|rest|] == rest;
        ResultFeaturesSnoc(rest, r);
      }
    }
  }

  /**
   * What `splitComplete` promises: the removals are the targets of the
   * approved results, in result order; the additions are `geomsToFeatures`
   * of those results' parts, in the same order, so one INSERT feature per
   * part; and the id counter advances by one per part beyond the first of
   * each approved result.
   */
  lemma CollectedMeaning(k: Kernel, source: Feature, results: seq<SplitResult>,
                         proceed: (Feature, Feature) -> bool, nextId: int)
    ensures var (additions, removals, next) := Collected(k, source, results, proceed, nextId);
      var approved := ApprovedResults(source, results, proceed);
      && removals == ResultFeatures(approved)
      && (additions, next) == FeaturesOfParts(k, approved, nextId)
      && |additions| == PartCount(approved)
      && next == nextId + IdsUsed(approved)
      && (forall f :: f in additions ==> f.state == Some(Insert))
  {
    CollectedIsApproved(k, source, results, proceed, nextId);
    FeaturesOfPartsMeaning(k, ApprovedResults(source, results, proceed), nextId);
  }

  /** The loop of `splitComplete` over the results, with the id counter as a local. */
  method CollectResults(k: Kernel, source: Feature, splitResults: seq<SplitResult>,
                        proceed: (Feature, Feature) -> bool, nextId: int)
    returns (additions: seq<Feature>, removals: seq<Feature>, nextIdAfter: int)
    ensures (additions, removals, nextIdAfter) == Collected(k, source, splitResults, proceed, nextId)
  {
    additions, removals, nextIdAfter := [], [], nextId;
    var i := 0;
    while i < |splitResults|
      invariant 0 <= i <= |splitResults|
      invariant (additions, removals, nextIdAfter) == Collected(k, source, splitResults[..i], proceed, nextId)
    {
      var result := splitResults[i];
      assert splitResults[..i + 1][..i] == splitResults[..i];
      if proceed(source, result.feature) {
        var parts;
        parts, nextIdAfter := GeomsToFeatures(k, result.feature, result.parts, nextIdAfter);
        additions := additions + parts;
        removals := removals + [result.feature];
      }
      i := i + 1;
    }
    assert splitResults[..|splitResults|] == splitResults;
  }

  class SplitPolygonControl {
    const kernel: Kernel
    /** The feature being edited, never split against itself (`onSketchComplete` clears it). */
    var feature: Option<Feature>
    var targetFilter: Option<Attributes -> bool>
    /** The next fresh feature id. */
    var nextId: int
    var splitter: StepSplitter?

    constructor (kernel: Kernel, targetFilter: Option<Attributes -> bool>)
      ensures this.kernel == kernel && this.targetFilter == targetFilter
      ensures feature == None && nextId == 1 && splitter == null
    {
      this.kernel := kernel;
      this.targetFilter := targetFilter;
      feature := None;
      nextId := 1;
      splitter := null;
    }

    /**
     * `beginSplit`: take the layer's next id, collect the targets and start
     * a batch splitter over them (its first step is scheduled, not run).
     */
    method BeginSplit(source: Feature, layerFeatures: seq<Feature>, layerNextId: int)
      requires source.geometry.Some?
      modifies this
      ensures nextId == layerNextId && feature == old(feature) && targetFilter == old(targetFilter)
      ensures splitter != null && fresh(splitter) && splitter.Valid() && splitter.listening
      ensures splitter.kernel == kernel
      ensures splitter.Config()
              == Batch(source, kernel.read(source.geometry.value),
                       Targets(kernel, feature, targetFilter, kernel.bounds(source.geometry.value), layerFeatures))
      ensures splitter.Snapshot() == BatchInitial()
    {
      nextId := layerNextId;
      var bounds := kernel.bounds(source.geometry.value);
      var targetFeatures := CollectTargets(kernel, feature, targetFilter, bounds, layerFeatures);
      TargetsMeaning(kernel, feature, targetFilter, bounds, layerFeatures);
      splitter := new StepSplitter(kernel, source, targetFeatures);
    }

    /**
     * The body of the timer `scheduleStep` sets: step the splitter; once it
     * is complete, destroy it and drop it, otherwise schedule another step.
     * Returns whether another step is scheduled; an exception of the step
     * propagates and nothing more is scheduled.
     */
    method ScheduledStep() returns (rescheduled: Result<bool, Fault>)
      requires splitter != null && splitter.Valid() && splitter.listening
      modifies this, splitter, splitter.featureSplitter
      ensures var o := BatchStep(old(splitter).kernel, old(splitter).Config(), old(splitter.Snapshot()));
        && old(splitter).Snapshot() == o.state
        && (o.keepGoing.Failure? ==> rescheduled.Failure? && splitter == old(splitter))
        && (o.keepGoing.Success? ==>
              && rescheduled == Success(!o.state.complete)
              && splitter == (if o.state.complete then null else old(splitter))
              && old(splitter).listening == !o.state.complete)
      ensures feature == old(feature) && targetFilter == old(targetFilter) && nextId == old(nextId)
    {
      var r := splitter.Step();
      if r.Failure? {
        return Failure(r.error);
      }
      if !splitter.complete {
        return Success(true);
      }
      splitter.Destroy();
      splitter := null;
      return Success(false);
    }

    /**
     * `splitComplete`: ask "beforesplit" for each result in turn; for each
     * approved one turn its parts into features and record the addition and
     * removal.  Returns the additions and removals given to the layer.
     */
    method SplitComplete(proceed: (Feature, Feature) -> bool) returns (additions: seq<Feature>, removals: seq<Feature>)
      requires splitter != null
      modifies this
      ensures splitter == old(splitter) && feature == old(feature) && targetFilter == old(targetFilter)
      ensures (additions, removals, nextId)
              == Collected(kernel, splitter.sourceFeature, splitter.splitResults, proceed, old(nextId))
    {
      additions, removals, nextId := CollectResults(kernel, splitter.sourceFeature, splitter.splitResults, proceed, nextId);
    }
  }
}
