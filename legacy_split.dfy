/**
 * The older, synchronous OpenLayers.Control.SplitPolygon: `considerSplit`
 * splits every eligible target against a new feature in one call.  It keeps
 * the intersections (not the candidates) of a polygonized boundary, drops
 * invalid pieces instead of repairing them, and splits a target only into
 * more than one part.
 */
module LegacySplit {
  import opened Wrappers
  import opened Geometry
  import opened FeatureParts
  import SplitControl
  import BatchSplitting
  import FeatureSplitter

  /** The least area a kept intersection must exceed. */
  const MinPrelimArea: real := 0.00000001

  /**
   * `isEligible`: as in the stepping control (geometry, not deleted, not the
   * control's own feature, target filter), and the target must be visible.
   */
  predicate IsEligible(current: Option<Feature>, targetFilter: Option<Attributes -> bool>, target: Feature) {
    && target.geometry.Some?
    && target.state != Some(Delete)
    && current != Some(target)
    && IsVisible(target)
    && SplitControl.PassesFilter(targetFilter, target.attributes)
  }

  /** The two controls differ only by the visibility test. */
  lemma EligibleMeansVisibleToo(current: Option<Feature>, targetFilter: Option<Attributes -> bool>, target: Feature)
    ensures IsEligible(current, targetFilter, target)
            <==> SplitControl.IsEligible(current, targetFilter, target) && IsVisible(target)
  {
  }

  /** What `considerSplit` derives from the new feature once, before the loop over targets. */
  datatype Source = Source(feature: Feature, jstsSource: JstsGeometry, sourceEnv: Box, sourceBounds: Box)

  function SourceOf(k: Kernel, feature: Feature): Source
    requires feature.geometry.Some?
  {
    var jstsSource := k.read(feature.geometry.value);
    Source(feature, jstsSource, k.envelope(jstsSource), k.bounds(feature.geometry.value))
  }

  // ---------------------------------------------------------------- one target

  /** What one candidate adds to `prelimPolys`: its intersection, if that is a big enough Polygon. */
  function PrelimOf(k: Kernel, jstsTarget: JstsGeometry, sourceEnv: Box, p2: JstsGeometry): seq<JstsGeometry> {
    if Intersects(sourceEnv, k.envelope(p2)) then
      var intersection := KeeperIntersection(k, jstsTarget, p2);
      if intersection.Polygon? && k.area(intersection) > MinPrelimArea then [intersection] else []
    else []
  }

  /** `prelimPolys` after the loop over the candidates. */
  function PrelimPolys(k: Kernel, jstsTarget: JstsGeometry, sourceEnv: Box, candidates: seq<JstsGeometry>)
    : seq<JstsGeometry>
    decreases |candidates|
  {
    if candidates == [] then []
    else
      PrelimPolys(k, jstsTarget, sourceEnv, candidates[..|candidates| - 1])
        + PrelimOf(k, jstsTarget, sourceEnv, candidates[|candidates| - 1])
  }

  /**
   * Every preliminary piece is a Polygon of area above 1e-8 and is the
   * intersection of a candidate whose envelope meets the source's; every
   * such intersection is kept; there is at most one piece per candidate.
   */
  lemma {:induction false} PrelimPolysMeaning(k: Kernel, jstsTarget: JstsGeometry, sourceEnv: Box,
                                              candidates: seq<JstsGeometry>)
    ensures var prelim := PrelimPolys(k, jstsTarget, sourceEnv, candidates);
      && |prelim| <= |candidates|
      && (forall p :: p in prelim ==>
            && p.Polygon? && k.area(p) > MinPrelimArea
            && exists c :: c in candidates && Intersects(sourceEnv, k.envelope(c))
                           && KeeperIntersection(k, jstsTarget, c) == p)
      && (forall c :: c in candidates && Intersects(sourceEnv, k.envelope(c))
                      && KeeperIntersection(k, jstsTarget, c).Polygon?
                      && k.area(KeeperIntersection(k, jstsTarget, c)) > MinPrelimArea
            ==> KeeperIntersection(k, jstsTarget, c) in prelim)
    decreases |candidates|
  {
    if candidates != [] {
      var init, last := candidates[..|candidates| - 1], candidates[|candidates| - 1];
      PrelimPolysMeaning(k, jstsTarget, sourceEnv, init);
      assert candidates == init + [last];
    }
  }

  /** What one polygon adds to `finalPolys`: itself if valid with positive area; nothing else. */
  function ValidPieces(k: Kernel, polys: seq<JstsGeometry>): seq<JstsGeometry>
    decreases |polys|
  {
    if polys == [] then []
    else
      var rest := ValidPieces(k, polys[..|polys| - 1]);
      var p := polys[|polys| - 1];
      if k.isValid(p) && k.area(p) > 0.0 then rest + [p] else rest
  }

  /** `finalPolys`: the valid pieces of positive area of each preliminary piece's polygons. */
  function FinalPolys(k: Kernel, prelim: seq<JstsGeometry>): seq<JstsGeometry>
    decreases |prelim|
  {
    if prelim == [] then []
    else FinalPolys(k, prelim[..|prelim| - 1]) + ValidPieces(k, GetPolygons(k, prelim[|prelim| - 1], 0.0))
  }

  /** `finalPolys` keeps exactly the valid polygons of positive area, in order. */
  lemma {:induction false} ValidPiecesMeaning(k: Kernel, polys: seq<JstsGeometry>)
    ensures var vs := ValidPieces(k, polys);
      && SubsequenceOf(vs, polys)
      && forall p :: p in vs <==> p in polys && k.isValid(p) && k.area(p) > 0.0
    decreases |polys|
  {
    if polys != [] {
      var init, p := polys[..|polys| - 1], polys[|polys| - 1];
      ValidPiecesMeaning(k, init);
      assert polys == init + [p];
      var rest := ValidPieces(k, init);
      assert (rest + [p])[..|rest|] == rest;
    }
  }

  /**
   * On polygons of positive area, as every preliminary piece is, `finalPolys`
   * is just the valid ones: an invalid piece is dropped, never repaired.
   */
  lemma {:induction false} FinalPolysDropInvalid(k: Kernel, prelim: seq<JstsGeometry>)
    requires forall p :: p in prelim ==> p.Polygon? && k.area(p) > 0.0
    ensures FinalPolys(k, prelim) == ValidPieces(k, prelim)
    decreases |prelim|
  {
    if prelim != [] {
      var init, p := prelim[..|prelim| - 1], prelim[|prelim| - 1];
      assert prelim == init + [p];
      FinalPolysDropInvalid(k, init);
      assert GetPolygons(k, p, 0.0) == [p];
      assert ValidPieces(k, [p]) == (if k.isValid(p) && k.area(p) > 0.0 then [p] else []) by {
        assert [p][..0] == [];
      }
    }
  }

  /** The fate of one eligible target: skipped (boundary not linear), or its final `targetParts`. */
  datatype TargetOutcome = Skipped | Parts(parts: seq<OlGeometry>)

  /** The target's boundary is a LineString or a MultiLineString, the only kinds that are polygonized. */
  predicate LinearBoundary(k: Kernel, tg: OlGeometry) {
    var boundary := k.boundary(k.read(tg));
    boundary.LineString? || boundary.MultiLineString?
  }

  /** The candidates: the polygons of the target's boundary, as a MultiLineString, unioned with the source. */
  function Candidates(k: Kernel, src: Source, tg: OlGeometry): seq<JstsGeometry>
    requires LinearBoundary(k, tg)
  {
    var boundary := k.boundary(k.read(tg));
    var lines := if boundary.LineString? then MultiLineString([boundary]) else boundary;
    k.polygonize(k.union(lines, src.jstsSource))
  }

  /** The written final pieces of a target with a linear boundary. */
  function WrittenPieces(k: Kernel, src: Source, tg: OlGeometry): seq<OlGeometry>
    requires LinearBoundary(k, tg)
  {
    FeatureSplitter.WriteAll(k, FinalPolys(k, PrelimPolys(k, k.read(tg), src.sourceEnv, Candidates(k, src, tg))))
  }

  /**
   * One eligible target: unless the bounds meet, its parts stay
   * `[target]`; a boundary that is neither a LineString nor a
   * MultiLineString skips it; otherwise the written final pieces replace
   * `[target]` if there are more than one and "beforesplit" is not vetoed.
   */
  function TargetParts(k: Kernel, src: Source, target: Feature, proceed: (Feature, Feature) -> bool): TargetOutcome
    requires target.geometry.Some?
  {
    var tg := target.geometry.value;
    if !Intersects(src.sourceBounds, k.bounds(tg)) then Parts([tg])
    else if !LinearBoundary(k, tg) then Skipped
    else
      var results := WrittenPieces(k, src, tg);
      if |results| > 1 && proceed(src.feature, target) then Parts(results) else Parts([tg])
  }

  /**
   * A target is skipped exactly when the bounds meet and its boundary is
   * not linear.  It is split into more than one part exactly when the bounds
   * meet, the boundary is linear, there is more than one written final piece
   * and "beforesplit" allows it; the parts are then those pieces, written
   * valid polygons of positive area.  In every other case its parts stay
   * `[target]`.
   */
  lemma TargetPartsMeaning(k: Kernel, src: Source, target: Feature, proceed: (Feature, Feature) -> bool)
    requires target.geometry.Some?
    ensures var o := TargetParts(k, src, target, proceed);
      o.Skipped? <==> Intersects(src.sourceBounds, k.bounds(target.geometry.value))
                      && !LinearBoundary(k, target.geometry.value)
    ensures var o := TargetParts(k, src, target, proceed);
      var tg := target.geometry.value;
      o.Parts? && |o.parts| > 1 <==>
        && Intersects(src.sourceBounds, k.bounds(tg))
        && LinearBoundary(k, tg)
        && |WrittenPieces(k, src, tg)| > 1
        && proceed(src.feature, target)
    ensures var o := TargetParts(k, src, target, proceed);
      var tg := target.geometry.value;
      o.Parts? && |o.parts| > 1 ==>
        && LinearBoundary(k, tg)
        && o.parts == WrittenPieces(k, src, tg)
        && WrittenValidPieces(k, o.parts)
    ensures var o := TargetParts(k, src, target, proceed);
      o.Parts? && |o.parts| <= 1 ==> o.parts == [target.geometry.value]
  {
    var tg := target.geometry.value;
    if Intersects(src.sourceBounds, k.bounds(tg)) && LinearBoundary(k, tg) {
      var candidates := Candidates(k, src, tg);
      FinalPiecesValid(k, k.read(tg), src.sourceEnv, candidates);
      WrittenValidPiecesIntro(k, FinalPolys(k, PrelimPolys(k, k.read(tg), src.sourceEnv, candidates)));
    }
  }

  /** `parts` are the written forms, one each, of valid polygons of positive area. */
  ghost predicate WrittenValidPieces(k: Kernel, parts: seq<OlGeometry>) {
    exists finals: seq<JstsGeometry> :: |finals| == |parts| && parts == FeatureSplitter.WriteAll(k, finals)
      && forall p :: p in finals ==> p.Polygon? && k.isValid(p) && k.area(p) > 0.0
  }

  lemma WrittenValidPiecesIntro(k: Kernel, finals: seq<JstsGeometry>)
    requires forall p :: p in finals ==> p.Polygon? && k.isValid(p) && k.area(p) > 0.0
    ensures WrittenValidPieces(k, FeatureSplitter.WriteAll(k, finals))
  {
    assert |FeatureSplitter.WriteAll(k, finals)| == |finals|;
  }

  /** Every final piece of a target is a valid polygon of positive area. */
  lemma FinalPiecesValid(k: Kernel, jstsTarget: JstsGeometry, sourceEnv: Box, candidates: seq<JstsGeometry>)
    ensures forall p :: p in FinalPolys(k, PrelimPolys(k, jstsTarget, sourceEnv, candidates)) ==>
              p.Polygon? && k.isValid(p) && k.area(p) > 0.0
  {
    var prelim := PrelimPolys(k, jstsTarget, sourceEnv, candidates);
    PrelimPolysMeaning(k, jstsTarget, sourceEnv, candidates);
    FinalPolysDropInvalid(k, prelim);
    ValidPiecesMeaning(k, prelim);
  }

  // ---------------------------------------------------------------- all targets

  /**
   * The loop over the layer's features: each eligible target whose parts
   * are more than one has them turned into features (advancing the id
   * counter); they are additions and the target is a removal.
   */
  function Considered(k: Kernel, src: Source, current: Option<Feature>, targetFilter: Option<Attributes -> bool>,
                      features: seq<Feature>, proceed: (Feature, Feature) -> bool, nextId: int)
    : (seq<Feature>, seq<Feature>, int)
    decreases |features|
  {
    if features == [] then ([], [], nextId)
    else
      var (additions, removals, next) :=
        Considered(k, src, current, targetFilter, features[..|features| - 1], proceed, nextId);
      var f := features[|features| - 1];
      if IsSplit(k, src, current, targetFilter, proceed, f) then
        var (fs, after) := PartsAsFeatures(k, f, TargetParts(k, src, f, proceed).parts, next);
        (additions + fs, removals + [f], after)
      else (additions, removals, next)
  }

  /** An eligible target that `considerSplit` splits into more than one part. */
  predicate IsSplit(k: Kernel, src: Source, current: Option<Feature>, targetFilter: Option<Attributes -> bool>,
                    proceed: (Feature, Feature) -> bool, f: Feature)
  {
    && IsEligible(current, targetFilter, f)
    && TargetParts(k, src, f, proceed).Parts?
    && |TargetParts(k, src, f, proceed).parts| > 1
  }

  /**
   * The targets the loop splits, each with its parts: the eligible layer
   * features split into more than one part, in layer order.
   */
  function Chosen(k: Kernel, src: Source, current: Option<Feature>, targetFilter: Option<Attributes -> bool>,
                  features: seq<Feature>, proceed: (Feature, Feature) -> bool): seq<BatchSplitting.SplitResult>
    decreases |features|
  {
    if features == [] then []
    else
      var rest := Chosen(k, src, current, targetFilter, features[..|features| - 1], proceed);
      var f := features[|features| - 1];
      if IsSplit(k, src, current, targetFilter, proceed, f)
      then rest + [BatchSplitting.SplitResult(f, TargetParts(k, src, f, proceed).parts)]
      else rest
  }

  /**
   * The removed targets are exactly the eligible layer features split into
   * more than one part, in layer order, each with "beforesplit" allowing it.
   */
  lemma {:induction false} ConsideredMeaning(k: Kernel, src: Source, current: Option<Feature>,
                                             targetFilter: Option<Attributes -> bool>, features: seq<Feature>,
                                             proceed: (Feature, Feature) -> bool, nextId: int)
    ensures var (additions, removals, next) := Considered(k, src, current, targetFilter, features, proceed, nextId);
      && SubsequenceOf(removals, features)
      && (forall f :: f in removals <==> f in features && IsSplit(k, src, current, targetFilter, proceed, f))
      && (forall f :: f in removals ==> proceed(src.feature, f))
    decreases |features|
  {
    if features != [] {
      var init, f := features[..|features| - 1], features[|features| - 1];
      assert features == init + [f];
      ConsideredMeaning(k, src, current, targetFilter, init, proceed, nextId);
      var (additions, removals, next) := Considered(k, src, current, targetFilter, init, proceed, nextId);
      if IsSplit(k, src, current, targetFilter, proceed, f) {
        TargetPartsMeaning(k, src, f, proceed);
        assert (removals + [f])[..|removals|] == removals;
      }
    }
  }

  /** The loop's removals are the chosen targets, in layer order. */
  lemma {:induction false} RemovalsAreChosen(k: Kernel, src: Source, current: Option<Feature>,
                                             targetFilter: Option<Attributes -> bool>, features: seq<Feature>,
                                             proceed: (Feature, Feature) -> bool, nextId: int)
    ensures Considered(k, src, current, targetFilter, features, proceed, nextId).1
            == SplitControl.ResultFeatures(Chosen(k, src, current, targetFilter, features, proceed))
    decreases |features|
  {
    if features != [] {
      var init, f := features[..|features| - 1], features[|features| - 1];
      RemovalsAreChosen(k, src, current, targetFilter, init, proceed, nextId);
      var rest := Chosen(k, src, current, targetFilter, init, proceed);
      if IsSplit(k, src, current, targetFilter, proceed, f) {
        var r := BatchSplitting.SplitResult(f, TargetParts(k, src, f, proceed).parts);
        SplitControl.ResultFeaturesSnoc(rest, r);
      }
    }
  }

  /**
   * The loop's additions and final id counter are the chosen targets' parts
   * turned into features in layer order, the id counter threaded through.
   */
  lemma {:induction false} AdditionsAreChosen(k: Kernel, src: Source, current: Option<Feature>,
                                              targetFilter: Option<Attributes -> bool>, features: seq<Feature>,
                                              proceed: (Feature, Feature) -> bool, nextId: int)
    ensures var c := Considered(k, src, current, targetFilter, features, proceed, nextId);
      (c.0, c.2) == SplitControl.FeaturesOfParts(k, Chosen(k, src, current, targetFilter, features, proceed), nextId)
    decreases |features|
  {
    if features != [] {
      var init, f := features[..|features| - 1], features[|features| - 1];
      AdditionsAreChosen(k, src, current, targetFilter, init, proceed, nextId);
      var rest := Chosen(k, src, current, targetFilter, init, proceed);
      if IsSplit(k, src, current, targetFilter, proceed, f) {
        var r := BatchSplitting.SplitResult(f, TargetParts(k, src, f, proceed).parts);
        assert (rest + [r])[..|rest|] == rest;
      }
    }
  }

  /** Each chosen target carries its own parts, more than one, and is eligible. */
  lemma {:induction false} ChosenCarriesParts(k: Kernel, src: Source, current: Option<Feature>,
                                              targetFilter: Option<Attributes -> bool>, features: seq<Feature>,
                                              proceed: (Feature, Feature) -> bool)
    ensures forall r :: r in Chosen(k, src, current, targetFilter, features, proceed) ==>
              && r.feature in features
              && IsEligible(current, targetFilter, r.feature)
              && TargetParts(k, src, r.feature, proceed) == Parts(r.parts)
              && |r.parts| > 1
    decreases |features|
  {
    if features != [] {
      var init := features[..|features| - 1];
      ChosenCarriesParts(k, src, current, targetFilter, init, proceed);
      assert features == init + [features[|features| - 1]];
    }
  }

  /**
   * What `considerSplit`'s loop adds: one INSERT feature per part of the
   * chosen targets, and the id counter advanced by one per part beyond the
   * first of each, so it never goes back.
   */
  lemma ConsideredAdditions(k: Kernel, src: Source, current: Option<Feature>,
                            targetFilter: Option<Attributes -> bool>, features: seq<Feature>,
                            proceed: (Feature, Feature) -> bool, nextId: int)
    ensures var (additions, removals, next) := Considered(k, src, current, targetFilter, features, proceed, nextId);
      var chosen := Chosen(k, src, current, targetFilter, features, proceed);
      && |additions| == SplitControl.PartCount(chosen)
      && next == nextId + SplitControl.IdsUsed(chosen)
      && (forall f :: f in additions ==> f.state == Some(Insert))
  {
    AdditionsAreChosen(k, src, current, targetFilter, features, proceed, nextId);
    SplitControl.FeaturesOfPartsMeaning(k, Chosen(k, src, current, targetFilter, features, proceed), nextId);
  }

  // ---------------------------------------------------------------- layer changes

  /** What happens to the layer: features destroyed, features marked DELETE, features added. */
  datatype LayerChanges = LayerChanges(destroyed: seq<Feature>, markedDeleted: seq<Feature>, added: seq<Feature>)

  /** The removals not yet inserted into the store (state INSERT): destroyed at once. */
  function Uninserted(removals: seq<Feature>): seq<Feature>
    decreases |removals|
  {
    if removals == [] then []
    else
      var rest := Uninserted(removals[..|removals| - 1]);
      var f := removals[|removals| - 1];
      if f.state == Some(Insert) then rest + [f] else rest
  }

  /** The other removals, with their state set to DELETE. */
  function MarkedDeleted(removals: seq<Feature>): seq<Feature>
    decreases |removals|
  {
    if removals == [] then []
    else
      var f := removals[|removals| - 1];
      MarkedDeleted(removals[..|removals| - 1]) + (if f.state == Some(Insert) then [] else [f.(state := Some(Delete))])
  }

  /** Every feature set to state INSERT. */
  function AllInserted(additions: seq<Feature>): (r: seq<Feature>)
  {
    seq(|additions|, i requires 0 <= i < |additions| => additions[i].(state := Some(Insert)))
  }

  /**
   * The end of `considerSplit`: nothing happens unless a target was split;
   * with `deferDelete`, removals in state INSERT are destroyed, the others
   * are kept and marked DELETE, and every addition is set to INSERT;
   * without it all removals are destroyed.
   */
  function Changes(removals: seq<Feature>, additions: seq<Feature>, deferDelete: bool): LayerChanges {
    if removals == [] then LayerChanges([], [], [])
    else if deferDelete then LayerChanges(Uninserted(removals), MarkedDeleted(removals), AllInserted(additions))
    else LayerChanges(removals, [], additions)
  }

  /**
   * With `deferDelete` every removal is accounted for exactly once: either
   * destroyed (it was in state INSERT) or marked DELETE, each list keeping
   * the removals' order.
   */
  lemma {:induction false} DeferDeletePartitions(removals: seq<Feature>)
    ensures var (d, m) := (Uninserted(removals), MarkedDeleted(removals));
      && |d| + |m| == |removals|
      && SubsequenceOf(d, removals)
      && (forall f :: f in d <==> f in removals && f.state == Some(Insert))
      && (forall f :: f in m ==> f.state == Some(Delete))
      && (forall f :: f in removals && f.state != Some(Insert) ==> f.(state := Some(Delete)) in m)
    decreases |removals|
  {
    if removals != [] {
      var init, f := removals[..|removals| - 1], removals[|removals| - 1];
      DeferDeletePartitions(init);
      assert removals == init + [f];
      var d := Uninserted(init);
      assert (d + [f])[..|d|] == d;
    }
  }

  /** The `deferDelete` loops: sort the removals into destroyed and marked, then mark every addition INSERT. */
  method DeferDelete(removals: seq<Feature>, additions: seq<Feature>)
    returns (destroys: seq<Feature>, deleted: seq<Feature>, added: seq<Feature>)
    ensures destroys == Uninserted(removals) && deleted == MarkedDeleted(removals)
    ensures added == AllInserted(additions)
  {
    destroys, deleted := [], [];
    var i := 0;
    while i < |removals|
      invariant 0 <= i <= |removals|
      invariant destroys == Uninserted(removals[..i]) && deleted == MarkedDeleted(removals[..i])
    {
      var feat := removals[i];
      assert removals[..i + 1][..i] == removals[..i];
      if feat.state == Some(Insert) {
        destroys := destroys + [feat];
      } else {
        deleted := deleted + [feat.(state := Some(Delete))];
      }
      i := i + 1;
    }
    assert removals[..|removals|] == removals;
    added := [];
    i := 0;
    while i < |additions|
      invariant 0 <= i <= |additions|
      invariant added == AllInserted(additions[..i])
    {
      added := added + [additions[i].(state := Some(Insert))];
      i := i + 1;
    }
    assert additions[..|additions|] == additions;
  }

  // ---------------------------------------------------------------- loops of one target

  /** The loop over the polygonized candidates. */
  method CollectPrelim(k: Kernel, jstsTarget: JstsGeometry, sourceEnv: Box, candidates: seq<JstsGeometry>)
    returns (prelimPolys: seq<JstsGeometry>)
    ensures prelimPolys == PrelimPolys(k, jstsTarget, sourceEnv, candidates)
  {
    prelimPolys := [];
    var jpi := 0;
    while jpi < |candidates|
      invariant 0 <= jpi <= |candidates|
      invariant prelimPolys == PrelimPolys(k, jstsTarget, sourceEnv, candidates[..jpi])
    {
      var p2 := candidates[jpi];
      assert candidates[..jpi + 1][..jpi] == candidates[..jpi];
      if Intersects(sourceEnv, k.envelope(p2)) {
        var intersection := KeeperIntersection(k, jstsTarget, p2);
        if intersection.Polygon? && k.area(intersection) > MinPrelimArea {
          prelimPolys := prelimPolys + [intersection];
        }
      }
      jpi := jpi + 1;
    }
    assert candidates[..|candidates|] == candidates;
  }

  /** The inner loop over the polygons of one preliminary piece. */
  method AppendValidPieces(k: Kernel, acc: seq<JstsGeometry>, polys: seq<JstsGeometry>)
    returns (out: seq<JstsGeometry>)
    ensures out == acc + ValidPieces(k, polys)
  {
    out := acc;
    var polyi := 0;
    while polyi < |polys|
      invariant 0 <= polyi <= |polys|
      invariant out == acc + ValidPieces(k, polys[..polyi])
    {
      var polyToAdd := polys[polyi];
      assert polys[..polyi + 1][..polyi] == polys[..polyi];
      if k.isValid(polyToAdd) && k.area(polyToAdd) > 0.0 {
        out := out + [polyToAdd];
      }
      polyi := polyi + 1;
    }
    assert polys[..|polys|] == polys;
  }

  /** The loop over the preliminary pieces. */
  method CollectFinal(k: Kernel, prelimPolys: seq<JstsGeometry>) returns (finalPolys: seq<JstsGeometry>)
    ensures finalPolys == FinalPolys(k, prelimPolys)
  {
    finalPolys := [];
    var ppi := 0;
    while ppi < |prelimPolys|
      invariant 0 <= ppi <= |prelimPolys|
      invariant finalPolys == FinalPolys(k, prelimPolys[..ppi])
    {
      var polys := GetPolygons(k, prelimPolys[ppi], 0.0);
      assert prelimPolys[..ppi + 1][..ppi] == prelimPolys[..ppi];
      finalPolys := AppendValidPieces(k, finalPolys, polys);
      ppi := ppi + 1;
    }
    assert prelimPolys[..|prelimPolys|] == prelimPolys;
  }

  /** The body of the target loop for one eligible target. */
  method SplitTarget(k: Kernel, src: Source, targetFeature: Feature, proceed: (Feature, Feature) -> bool)
    returns (outcome: TargetOutcome)
    requires targetFeature.geometry.Some?
    ensures outcome == TargetParts(k, src, targetFeature, proceed)
  {
    var target := targetFeature.geometry.value;
    var targetParts := [target];
    if Intersects(src.sourceBounds, k.bounds(target)) {
      var jstsTarget := k.read(target);
      var boundary := k.boundary(jstsTarget);
      var multiLineString: Option<JstsGeometry> := None;
      if boundary.LineString? {
        multiLineString := Some(MultiLineString([boundary]));
      } else if boundary.MultiLineString? {
        multiLineString := Some(boundary);
      }
      if multiLineString.None? {
        return Skipped;
      }
      assert LinearBoundary(k, target);
      var jstsPolygons := k.polygonize(k.union(multiLineString.value, src.jstsSource));
      assert jstsPolygons == Candidates(k, src, target);
      var prelimPolys := CollectPrelim(k, jstsTarget, src.sourceEnv, jstsPolygons);
      var finalPolys := CollectFinal(k, prelimPolys);
      var results := FeatureSplitter.AppendWritten(k, [], finalPolys);
      assert results == WrittenPieces(k, src, target);
      if |results| > 1 && proceed(src.feature, targetFeature) {
        targetParts := results;
      }
    }
    return Parts(targetParts);
  }

  // ---------------------------------------------------------------- the control

  class LegacySplitControl {
    const kernel: Kernel
    /** The feature being edited, never split against itself. */
    var feature: Option<Feature>
    var sourceFilter: Option<Attributes -> bool>
    var targetFilter: Option<Attributes -> bool>
    /** Mark removed features DELETE instead of destroying them. */
    var deferDelete: bool
    /** The next fresh feature id. */
    var nextId: int

    constructor (kernel: Kernel, sourceFilter: Option<Attributes -> bool>,
                 targetFilter: Option<Attributes -> bool>, deferDelete: bool)
      ensures this.kernel == kernel && this.sourceFilter == sourceFilter
      ensures this.targetFilter == targetFilter && this.deferDelete == deferDelete
      ensures feature == None && nextId == 1
    {
      this.kernel := kernel;
      this.sourceFilter := sourceFilter;
      this.targetFilter := targetFilter;
      this.deferDelete := deferDelete;
      feature := None;
      nextId := 1;
    }

    /**
     * `considerSplit`: unless the source filter rejects the new feature,
     * take the layer's next id and split every eligible target; report the
     * layer changes.  The source itself is never split: the result is always
     * false.
     */
    method ConsiderSplit(source: Feature, layerFeatures: seq<Feature>, layerNextId: int,
                         proceed: (Feature, Feature) -> bool)
      returns (sourceSplit: bool, changes: LayerChanges)
      requires source.geometry.Some?
      modifies this
      ensures !sourceSplit
      ensures feature == old(feature) && sourceFilter == old(sourceFilter)
      ensures targetFilter == old(targetFilter) && deferDelete == old(deferDelete)
      ensures !SplitControl.PassesFilter(sourceFilter, source.attributes) ==>
                changes == LayerChanges([], [], []) && nextId == old(nextId)
      ensures SplitControl.PassesFilter(sourceFilter, source.attributes) ==>
                var (additions, removals, next) :=
                  Considered(kernel, SourceOf(kernel, source), feature, targetFilter, layerFeatures, proceed, layerNextId);
                nextId == next && changes == Changes(removals, additions, deferDelete)
    {
      sourceSplit := false;
      changes := LayerChanges([], [], []);
      if !SplitControl.PassesFilter(sourceFilter, source.attributes) {
        return;
      }
      nextId := layerNextId;
      var src := SourceOf(kernel, source);
      var additions, removals := [], [];
      var i := 0;
      while i < |layerFeatures|
        invariant 0 <= i <= |layerFeatures|
        invariant feature == old(feature) && sourceFilter == old(sourceFilter)
        invariant targetFilter == old(targetFilter) && deferDelete == old(deferDelete)
        invariant (additions, removals, nextId)
                  == Considered(kernel, src, feature, targetFilter, layerFeatures[..i], proceed, layerNextId)
      {
        var targetFeature := layerFeatures[i];
        assert layerFeatures[..i + 1][..i] == layerFeatures[..i];
        if IsEligible(feature, targetFilter, targetFeature) {
          var outcome := SplitTarget(kernel, src, targetFeature, proceed);
          if outcome.Parts? && |outcome.parts| > 1 {
            var parts;
            parts, nextId := GeomsToFeatures(kernel, targetFeature, outcome.parts, nextId);
            additions := additions + parts;
            removals := removals + [targetFeature];
          }
        }
        i := i + 1;
      }
      assert layerFeatures[..|layerFeatures|] == layerFeatures;
      if removals != [] {
        if deferDelete {
          var destroys, deleted, added := DeferDelete(removals, additions);
          changes := LayerChanges(destroys, deleted, added);
        } else {
          changes := LayerChanges(removals, [], additions);
        }
      }
    }
  }
}
