# Polygon splitting in OpenLayers, as a verified model

This project models the polygon-split engine of an OpenLayers editing
extension. A newly drawn line or polygon (the *source*) splits every
eligible polygon feature of a vector layer (the *targets*) into the
polygons formed by the source and the target's boundary.

- `FeatureSplitter` (`step_feature_splitter.dfy`) models
  `OpenLayers.StepFeatureSplitter`. It splits one target, one bounded unit
  of work per `step()`, through five stages: union the boundary with the
  source, polygonize, scan the candidates one per step for keepers, merge
  the keepers of an invisible feature, and convert. The class keeps the
  source's fields. A ghost `Snapshot()` maps them to a `SplitterState`
  record, and every method is proved to move that record exactly as the
  pure `StepOutcome` says. The lemmas are about `StepOutcome`.
- `BatchSplitting` (`step_splitter.dfy`) models `OpenLayers.StepSplitter`.
  It drives one feature splitter at a time over a list of targets and
  records `{feature, parts}` per target. It is built the same way, around
  `BatchState` and `BatchStep`.
- `SplitControl` (`split_control.dfy`) models the stepping
  `OpenLayers.Control.SplitPolygon`: target selection (`isEligible`,
  `beginSplit`), the timer body of `scheduleStep`, and `splitComplete`.
- `LegacySplit` (`legacy_split.dfy`) models the older synchronous control
  in `lib/OpenLayers/SplitPolygon.js` and its `considerSplit`. Both files
  declare the same class name, so they are separate modules here.
- `FeatureParts` (`feature_parts.dfy`) holds the list code both controls
  share: `geomsToFeatures` and `removeByGeometry`.
- `Geometry` (`geometry.dfy`) holds features, bounding boxes, the jsts
  geometry shapes the code tests with `instanceof`, and the geometry kernel
  as an injected record of functions (`Kernel`). `getPolygons` and the
  intersection fallback chain live here too. `Wrappers` holds `Option` and
  `Result`.

The jsts calls the code wraps in `try`/`catch` (`contains`,
`intersection`) return an `Option`, where `None` means "threw". The other
kernel calls are total functions the model knows nothing about. Events
fired through `OpenLayers.Events` are recorded in a ghost `trace`.

## Model

| member | source | states |
|---|---|---|
| Geometry.PolygonMembers | lib/OpenLayers/StepFeatureSplitter.js:317-326 | the members of a collection that `getPolygons` keeps: exactly the Polygon members above the size threshold, in collection order |
| Geometry.GetPolygons | lib/OpenLayers/StepFeatureSplitter.js:315-334 | only Polygons above the threshold come out; a collection gives its qualifying Polygon members in order (nested collections are not entered); a lone Polygon gives itself iff it qualifies; anything else gives nothing |
| Geometry.KeeperIntersection | lib/OpenLayers/StepFeatureSplitter.js:217-246 | the fallback chain: a throwing `contains` counts as false; if contains, `p2`; else `p2 ∩ target`; if that throws, `target ∩ p2`; if that throws too, `p2` |
| FeatureSplitter.StepOutcome | lib/OpenLayers/StepFeatureSplitter.js:102-142 | a canceled splitter returns false and changes nothing; "progress" fires iff the step returns true and "complete" iff it returns false; stages never go back; the only exception is `merge` on an empty list, which leaves the state unchanged |
| FeatureSplitter.InitialInv | lib/OpenLayers/StepFeatureSplitter.js:63-90 | the freshly built splitter (`targetParts == [target]`, stage UNION, cursor 0) satisfies the invariant |
| FeatureSplitter.StepPreservesInv | lib/OpenLayers/StepFeatureSplitter.js:102-142 | every step keeps the invariant: cursor ≤ number of candidates; only an invisible target reaches MERGE, and it reaches CONVERT with one fragment; nothing is converted or written before completion; `targetParts` stays `[target]` until CONVERT completes |
| FeatureSplitter.ProgressNeverDecreases | lib/OpenLayers/StepFeatureSplitter.js:108-135 | `fractionDone` never decreases and stays within [0, 1] (0.25, 0.5, 0.5 + 0.25·index/num, 0.75, 1.0) |
| FeatureSplitter.StepAdvances | lib/OpenLayers/StepFeatureSplitter.js:102-142 | a step that returns true moves to a later stage or leaves strictly less work in the same stage: the measure by which `run()` ends |
| FeatureSplitter.FindKeepersScansOne | lib/OpenLayers/StepFeatureSplitter.js:205-256 | a FIND_KEEPERS step before the last candidate advances the cursor by exactly one; it appends the candidate itself, never its intersection, iff the envelopes meet and the intersection is a Polygon of more than half the candidate's area |
| FeatureSplitter.MergeFoldsLastIntoFirst | lib/OpenLayers/StepFeatureSplitter.js:262-273 | with more than one fragment, entry 0 becomes union(entry 0, last entry), the middle entries stay, and the list is one shorter |
| FeatureSplitter.MergeOfOneMovesToConvert | lib/OpenLayers/StepFeatureSplitter.js:262-267 | with exactly one fragment, a MERGE step returns true and moves to CONVERT with that fragment, at `fractionDone` 0.75 |
| FeatureSplitter.GiveUpShortCircuit | lib/OpenLayers/StepFeatureSplitter.js:102-166 | when the bounds do not meet or the target's boundary is neither a LineString nor a MultiLineString, the first step returns false and completes; `targetParts` is still `[target]`, `fractionDone` is 0.25, and only "complete" fires |
| FeatureSplitter.PolygonPiecesCharacterized | lib/OpenLayers/StepFeatureSplitter.js:285-299 | every piece kept is a Polygon of positive area; every valid polygon of positive area is kept; any other piece comes from the bowtie repair of an invalid polygon and is not validated again |
| FeatureSplitter.ConvertedPiecesArePolygons | lib/OpenLayers/StepFeatureSplitter.js:281-300 | everything CONVERT pushes onto `finalJstsPolys` is a Polygon of positive area |
| FeatureSplitter.ConvertCompletes | lib/OpenLayers/StepFeatureSplitter.js:275-313 | a CONVERT step of any reachable splitter that has not completed returns false, completes with `fractionDone` 1.0, and sets `targetParts` to the written converted pieces, one per piece, in the same order |
| FeatureSplitter.WriteAll | lib/OpenLayers/StepFeatureSplitter.js:302-304 | `parser.write` over a list keeps its length and order: entry i is the written entry i |
| FeatureSplitter.AppendRepaired | lib/OpenLayers/StepFeatureSplitter.js:286-298 | the pieces one polygon pushes are its bowtie repair if invalid, else itself if its area is positive |
| FeatureSplitter.AppendPolygonPieces | lib/OpenLayers/StepFeatureSplitter.js:285-299 | the middle loop pushes exactly `PolygonPieces` of a fragment's polygons |
| FeatureSplitter.AppendConvertedPieces | lib/OpenLayers/StepFeatureSplitter.js:281-300 | the outer loop pushes exactly `ConvertedPieces` of the preliminary fragments |
| FeatureSplitter.AppendWritten | lib/OpenLayers/StepFeatureSplitter.js:302-304 | the write loop appends `WriteAll` of the pieces |
| FeatureSplitter.StepFeatureSplitter.constructor | lib/OpenLayers/StepFeatureSplitter.js:63-90 | the job comes from the source bounds, the parsed source and its envelope, and the target; the state is `Initial`, so `targetParts == [target]` |
| FeatureSplitter.StepFeatureSplitter.Cancel | lib/OpenLayers/StepFeatureSplitter.js:98-100 | only `canceled` changes |
| FeatureSplitter.StepFeatureSplitter.Destroy | lib/OpenLayers/StepFeatureSplitter.js:336-345 | only the events object goes; the split state is unchanged |
| FeatureSplitter.StepFeatureSplitter.Step | lib/OpenLayers/StepFeatureSplitter.js:102-142 | the new fields and the result are exactly `StepOutcome` of the old fields, and the invariant holds |
| FeatureSplitter.StepFeatureSplitter.RunStage | lib/OpenLayers/StepFeatureSplitter.js:107-131 | the `switch` runs the current stage and sets `fractionDone` as `StepOutcome` does before its event |
| FeatureSplitter.StepFeatureSplitter.Run | lib/OpenLayers/StepFeatureSplitter.js:92-96 | the loop ends; afterwards the splitter is complete or canceled, or an empty merge threw |
| FeatureSplitter.StepFeatureSplitter.UnionLineStrings | lib/OpenLayers/StepFeatureSplitter.js:144-166 | fields and result are `UnionOutcome`: give up on disjoint bounds or a non-linear boundary, else union the boundary with the source and move to POLYGONIZE |
| FeatureSplitter.StepFeatureSplitter.Polygonize | lib/OpenLayers/StepFeatureSplitter.js:168-188 | fields and result are `PolygonizeOutcome`: store the candidates and their count, and always move to FIND_KEEPERS |
| FeatureSplitter.StepFeatureSplitter.FindKeepers | lib/OpenLayers/StepFeatureSplitter.js:195-260 | fields and result are `FindKeepersOutcome`: scan one candidate, or leave for MERGE (invisible target) or CONVERT |
| FeatureSplitter.StepFeatureSplitter.Merge | lib/OpenLayers/StepFeatureSplitter.js:262-273 | on an empty list it throws with nothing changed; otherwise fields and result are `MergeOutcome` |
| FeatureSplitter.StepFeatureSplitter.Convert | lib/OpenLayers/StepFeatureSplitter.js:275-313 | fields and result are `ConvertOutcome`: append the pieces, write them out after the earlier results, and make that list `targetParts` |
| BatchSplitting.JobFor | lib/OpenLayers/StepSplitter.js:98-108 | the splitter for feature i targets `features[i]` and gets the source parsed once at construction |
| BatchSplitting.BatchStep | lib/OpenLayers/StepSplitter.js:70-96 | a canceled batch returns false and changes nothing; otherwise the step returns true, or rethrows the splitter's exception with the same feature still in flight; `canceled` is never changed |
| BatchSplitting.BatchInitialInv | lib/OpenLayers/StepSplitter.js:43-58 | the new batch satisfies `BatchInv` |
| BatchSplitting.BatchStepPreservesInv | lib/OpenLayers/StepSplitter.js:70-96 | every step keeps `splitFeatureCount == featureIndex == |splitResults| <= |features|` and `splitResults[i].feature == features[i]`; a splitter in flight is for the next unfinished feature; `complete` only once no splitter is in flight and every feature is done |
| BatchSplitting.ReportKeepsInv | lib/OpenLayers/StepSplitter.js:74-89 | recording or continuing a feature splitter's outcome keeps `BatchInv` |
| BatchSplitting.BatchStopsOnlyWhenCanceled | lib/OpenLayers/StepSplitter.js:60-96 | a step returns false iff the batch is canceled, so `run()` ends only by cancellation |
| BatchSplitting.CompleteFiresAgain | lib/OpenLayers/StepSplitter.js:90-95 | a finished batch that is not canceled fires "complete" again on every step and returns true |
| BatchSplitting.BatchProgressInUnitInterval | lib/OpenLayers/StepSplitter.js:74-89 | a progress value is reported only when there is a feature (so no division by zero), and it lies in [0, 1] |
| BatchSplitting.BatchStepAdvances | lib/OpenLayers/StepSplitter.js:70-96 | a step that neither throws nor finishes the batch moves it forward: a later feature, a new splitter, or progress inside the current splitter |
| BatchSplitting.GivingUpKeepsTarget | lib/OpenLayers/StepSplitter.js:74-88 | a target whose bounds miss the source, or whose boundary is not linear, is recorded in one step with its own geometry as its only part |
| BatchSplitting.BatchStepRecords | lib/OpenLayers/StepSplitter.js:74-89 | when the current feature's splitter returns false, that feature and the splitter's `targetParts` are appended to the results, the count and index go up by one and the splitter is dropped; on any other outcome the results, count and index stay and the stepped splitter stays in flight |
| BatchSplitting.NothingRecordedWhenDone | lib/OpenLayers/StepSplitter.js:70-95 | a canceled or finished batch appends no result and moves no index |
| BatchSplitting.BatchStepBuildsLazily | lib/OpenLayers/StepSplitter.js:98-108 | building the splitter inside the step is the same as stepping a fresh splitter for the current feature |
| BatchSplitting.StepSplitter.constructor | lib/OpenLayers/StepSplitter.js:43-58 | the source is parsed once; no result yet; the batch invariant holds |
| BatchSplitting.StepSplitter.Cancel | lib/OpenLayers/StepSplitter.js:66-68 | only `canceled` changes; the splitter in flight is not canceled |
| BatchSplitting.StepSplitter.Destroy | lib/OpenLayers/StepSplitter.js:110-119 | only the events object goes |
| BatchSplitting.StepSplitter.EnsureSplitter | lib/OpenLayers/StepSplitter.js:98-108 | reports false iff no splitter is in flight and no feature is left; otherwise a splitter exists afterwards, fresh and `Initial` for the current feature if there was none |
| BatchSplitting.StepSplitter.Step | lib/OpenLayers/StepSplitter.js:70-96 | the new fields (including the feature splitter's) and the result are exactly `BatchStep` of the old ones |
| BatchSplitting.StepSplitter.StepFeature | lib/OpenLayers/StepSplitter.js:74-89 | stepping the splitter in flight and reporting agrees with `BatchStep` |
| BatchSplitting.StepSplitter.ReportProgress | lib/OpenLayers/StepSplitter.js:75-89 | progress `(count + splitter fraction) / n` is appended; nothing else changes |
| BatchSplitting.StepSplitter.RecordResult | lib/OpenLayers/StepSplitter.js:79-89 | `{target, parts}` is appended, the count and index go up by one, the splitter is dropped, and progress `count / n` fires |
| FeatureParts.BiggestIndexIsFirstMax | lib/OpenLayers/Control/SplitPolygon.js:558-565 | the biggest-part loop picks the first index of maximal area, since the strict `>` sends ties to the earliest part |
| FeatureParts.NumberedPartsMeaning | lib/OpenLayers/Control/SplitPolygon.js:566-578 | one INSERT feature per part, in order, with the template's style and attributes; the biggest part keeps the template's fid; the others get ids from `nextId` upwards, increasing in input order |
| FeatureParts.InsertByFid | lib/OpenLayers/Control/SplitPolygon.js:580-592 | inserting into a list sorted by fid keeps it sorted and adds exactly the one feature |
| FeatureParts.SortByFid | lib/OpenLayers/Control/SplitPolygon.js:580-592 | the result is sorted ascending by fid and is a permutation of the input |
| FeatureParts.SortedIsDetermined | lib/OpenLayers/Control/SplitPolygon.js:580-592 | with distinct fids, any two sorted permutations are equal, so the sort's tie-breaking does not matter |
| FeatureParts.PartsAsFeaturesMeaning | lib/OpenLayers/Control/SplitPolygon.js:554-594 | the list keeps its length, is sorted by fid, and holds only INSERT features carrying the given geometries; `nextId` grows by len−1 (an empty list leaves it); the result is a permutation of the numbered parts; all fids are distinct unless the template's fid falls among the fresh ids |
| FeatureParts.FindBiggest | lib/OpenLayers/Control/SplitPolygon.js:558-565 | the loop returns the first index of maximal area |
| FeatureParts.NumberParts | lib/OpenLayers/Control/SplitPolygon.js:566-578 | the numbering loop builds `NumberedParts` and advances `nextId` by len−1 |
| FeatureParts.GeomsToFeatures | lib/OpenLayers/Control/SplitPolygon.js:554-594 | the features and the counter are `PartsAsFeatures` of the input |
| FeatureParts.RemoveByGeometry | lib/OpenLayers/Control/SplitPolygon.js:397-404 | only the first feature carrying the geometry is removed, and the rest keep their order; with no match the list is unchanged |
| SplitControl.TargetsMeaning | lib/OpenLayers/Control/SplitPolygon.js:456-462 | the targets are an order-preserving subsequence of the layer's features: exactly the eligible ones whose bounds meet the source's |
| SplitControl.CollectTargets | lib/OpenLayers/Control/SplitPolygon.js:456-462 | the loop builds exactly `Targets` |
| SplitControl.ApprovedResultsMeaning | lib/OpenLayers/Control/SplitPolygon.js:507-512 | the approved results are an order-preserving subsequence of the results: exactly those whose "beforesplit" is not vetoed |
| SplitControl.FeaturesOfPartsMeaning | lib/OpenLayers/Control/SplitPolygon.js:513-521 | turning each result's parts into features gives one INSERT feature with a geometry per part, and takes one fresh id per part beyond the first of each result |
| SplitControl.CollectedIsApproved | lib/OpenLayers/Control/SplitPolygon.js:501-541 | the removals are the targets of the approved results, in order; the additions and the new `nextId` are `geomsToFeatures` of those results' parts in turn, the counter threaded through |
| SplitControl.CollectedMeaning | lib/OpenLayers/Control/SplitPolygon.js:501-541 | the removals are the approved targets in result order; one INSERT addition per part of an approved result; `nextId` advances by exactly one per part beyond the first of each approved result |
| SplitControl.CollectResults | lib/OpenLayers/Control/SplitPolygon.js:507-528 | the loop over the results builds exactly `Collected` |
| SplitControl.SplitPolygonControl.constructor | lib/OpenLayers/Control/SplitPolygon.js:120-131 | no target filter unless given; `nextId` starts at 1; no splitter |
| SplitControl.SplitPolygonControl.BeginSplit | lib/OpenLayers/Control/SplitPolygon.js:446-476 | takes the layer's next id and starts a fresh batch over `Targets`, with nothing stepped yet |
| SplitControl.SplitPolygonControl.ScheduledStep | lib/OpenLayers/Control/SplitPolygon.js:478-490 | steps the batch; once it is complete it is destroyed and dropped and nothing is rescheduled; an exception stops the rescheduling |
| SplitControl.SplitPolygonControl.SplitComplete | lib/OpenLayers/Control/SplitPolygon.js:501-541 | the additions, removals and new `nextId` are `Collected` of the batch's results |
| LegacySplit.EligibleMeansVisibleToo | lib/OpenLayers/SplitPolygon.js:389-408 | the legacy `isEligible` is the stepping control's plus visibility (no style, or `display` not "none") |
| LegacySplit.PrelimPolysMeaning | lib/OpenLayers/SplitPolygon.js:471-528 | each preliminary piece is the intersection, not the candidate, of a candidate whose envelope meets the source's, and is a Polygon of area > 1e-8; every such intersection is kept; at most one piece per candidate |
| LegacySplit.ValidPiecesMeaning | lib/OpenLayers/SplitPolygon.js:533-538 | exactly the valid polygons of positive area are kept, in order |
| LegacySplit.FinalPolysDropInvalid | lib/OpenLayers/SplitPolygon.js:529-539 | `finalPolys` is the valid, positive-area preliminary pieces; invalid ones are dropped with no bowtie repair |
| LegacySplit.TargetPartsMeaning | lib/OpenLayers/SplitPolygon.js:443-556 | a target is skipped iff the bounds meet and its boundary is not linear; it gets more than one part iff the bounds meet, the boundary is linear, there is more than one written final piece and "beforesplit" allows it, and the parts are then exactly those pieces, written valid polygons of positive area; otherwise its parts stay `[target geometry]` |
| LegacySplit.ConsideredMeaning | lib/OpenLayers/SplitPolygon.js:440-568 | a layer feature is removed iff it is eligible and split into more than one part; removals keep layer order and each had "beforesplit" allowing it |
| LegacySplit.RemovalsAreChosen | lib/OpenLayers/SplitPolygon.js:440-568 | the removals are the chosen targets (eligible, split into more than one part) in layer order |
| LegacySplit.AdditionsAreChosen | lib/OpenLayers/SplitPolygon.js:541-566 | the additions and the new `nextId` are `geomsToFeatures` of each chosen target's parts in layer order, the counter threaded through |
| LegacySplit.ChosenCarriesParts | lib/OpenLayers/SplitPolygon.js:541-566 | each chosen target is an eligible layer feature, carrying its own parts, more than one |
| LegacySplit.ConsideredAdditions | lib/OpenLayers/SplitPolygon.js:541-566 | one INSERT addition per part of the chosen targets; `nextId` advances by exactly one per part beyond the first of each |
| LegacySplit.DeferDeletePartitions | lib/OpenLayers/SplitPolygon.js:582-599 | with `deferDelete`, every removal is either destroyed (it was INSERT) or marked DELETE, and the destroyed keep the removals' order |
| LegacySplit.DeferDelete | lib/OpenLayers/SplitPolygon.js:582-596 | the loops build exactly `Uninserted`, `MarkedDeleted` and `AllInserted` |
| LegacySplit.CollectPrelim | lib/OpenLayers/SplitPolygon.js:471-528 | the candidate loop builds exactly `PrelimPolys` |
| LegacySplit.AppendValidPieces | lib/OpenLayers/SplitPolygon.js:533-538 | the inner loop appends exactly `ValidPieces` |
| LegacySplit.CollectFinal | lib/OpenLayers/SplitPolygon.js:529-539 | the preliminary-piece loop builds exactly `FinalPolys` |
| LegacySplit.SplitTarget | lib/OpenLayers/SplitPolygon.js:443-556 | the body of the target loop computes exactly `TargetParts` |
| LegacySplit.LegacySplitControl.constructor | lib/OpenLayers/SplitPolygon.js:104-139 | filters and `deferDelete` as given; `nextId` starts at 1 |
| LegacySplit.LegacySplitControl.ConsiderSplit | lib/OpenLayers/SplitPolygon.js:423-611 | always returns false (the source is never split); with the source filter rejecting, nothing changes; otherwise `nextId` and the layer changes are `Considered` then `Changes` |

## Left out

- The jsts geometry kernel and `OpenLayersParser` are not modelled. They are uninterpreted functions in `Kernel`, and only `contains` and `intersection` may throw. An exception from any other kernel call would escape `step()`; the model does not represent it.
- Event dispatch is recorded as a ghost `trace`, not delivered. Listeners, the "error" event, and their effects (the progress overlay, `alert`) are not modelled.
- `window.setTimeout` scheduling is reduced to `ScheduledStep`, which returns whether another step would be scheduled.
- The DOM, links, `activate`/`deactivate`, `setSource`, sketch handling, `lib/OpenLayers/ProgressOverlay.js`, and the cache controls are not part of this model.
- Layer side effects (`destroyFeatures`, `addFeatures`, `drawFeature`) become the lists the model returns. `layer.getNextId()` is a parameter.
- The "beforesplit" veto is a function parameter `proceed`. The "split" and "aftersplit" events are not modelled.
- Features are values. Feature identity (`!==`, `===` on geometries) is value equality on features and on the `ref` of a geometry.
- Cloning a feature and copying its attributes through JSON is modelled as copying the style and attributes.
- Fids are integers. `parseInt`, string fids and a comparator on `NaN` are not modelled.
- `geomsToFeatures` rewrites the `geoms` array in place and sorts it with `Array.prototype.sort`. The model returns a new sequence sorted by a functional insertion sort. `SortedIsDetermined` shows the order is the same for any sort when fids are distinct. Ties, possible only when the template's fid clashes with a fresh id, may be ordered differently by the engine.
- `removeByGeometry` splices in place. The model returns the new sequence.
- `fractionDone` is undefined before the first step. The model starts it at 0.0.
- Areas and progress fractions are exact reals, not floating point.
- The `null` branches of the constructors (no source feature, no target) are not modelled. The model requires a source and target geometry, which every caller passes.
- `BatchSplitting.StepSplitter` has no `Run` method. Its `run()` loop ends only by cancellation, so it cannot be a terminating method. `BatchStopsOnlyWhenCanceled` and `CompleteFiresAgain` state its behaviour instead.
- `StepFeatureSplitter.Step` and `StepSplitter.Step` require that the splitter was not destroyed (or is canceled). Stepping after `destroy()` throws in the source when it fires an event.
- The legacy `considerSplit` calls a global `getPolygons` that its file does not define. The model uses the feature splitter's `getPolygons` (`Geometry.GetPolygons`). Every preliminary piece is a Polygon of area above 1e-8, so the result is the piece itself.
- `isFeatureVisible` and `isVisible` are the predicate `Geometry.IsVisible`. A missing feature, which they also reject, cannot occur here.

## Behaviour worth knowing

- A batch step returns true after every target is done and fires "complete" again on each later step, so `run()` ends only by cancellation (`lib/OpenLayers/StepSplitter.js:60-64`, `90-95`).
- Canceling a batch sets only the batch's own flag; the feature splitter in flight is not canceled (`lib/OpenLayers/StepSplitter.js:66-68`).
- Only `contains` and `intersection` are guarded by `try`/`catch`. `merge` on an empty fragment list throws a TypeError, which the model reports as `Failure(MergeOfEmptyList)`; this happens when an invisible target has no keepers (`lib/OpenLayers/StepFeatureSplitter.js:262-273`).
- CONVERT keeps valid pieces of area > 0, and the pieces of a bowtie repair are kept without being validated again (`lib/OpenLayers/StepFeatureSplitter.js:287-297`).
