/**
 * OpenLayers.StepFeatureSplitter: splits one target feature against one
 * pre-parsed source geometry, one bounded unit of work per `step()`.
 *
 * The pure part (a state record, one function per stage and `StepOutcome`)
 * says what a step does; the class keeps the source's fields and its
 * methods are proved to move those fields exactly as `StepOutcome` says.
 */
module FeatureSplitter {
  import opened Wrappers
  import opened Geometry

  /** The pipeline stages, in the order a splitter passes through them. */
  datatype Stage = UnionStage | PolygonizeStage | FindKeepersStage | MergeStage | ConvertStage

  /** STAGE_UNION_LINESTRINGS = 0, STAGE_POLYGONIZE = 1, …, STAGE_CONVERT = 4. */
  function StageCode(s: Stage): nat {
    match s
    case UnionStage => 0
    case PolygonizeStage => 1
    case FindKeepersStage => 2
    case MergeStage => 3
    case ConvertStage => 4
  }

  /** The events a splitter triggers. */
  datatype Event = Progress(fractionDone: real) | Complete

  /** `merge` on an empty list reads `prelimJstsPolys[0].union`: a TypeError. */
  datatype Fault = MergeOfEmptyList

  /** What a splitter is given at construction and never changes. */
  datatype SplitJob = SplitJob(
    sourceBounds: Box,          // sourceFeature.geometry.getBounds()
    jstsSource: JstsGeometry,   // the source, already parsed
    sourceEnv: Box,             // jstsSource.getEnvelopeInternal()
    targetFeature: Feature,
    target: OlGeometry)         // targetFeature.geometry

  predicate WellFormedJob(job: SplitJob) {
    job.targetFeature.geometry == Some(job.target)
  }

  /** The fields a step reads and writes, plus the events fired so far. */
  datatype SplitterState = SplitterState(
    stage: Stage,
    complete: bool,
    canceled: bool,
    fractionDone: real,
    targetParts: seq<OlGeometry>,
    jstsTarget: Option<JstsGeometry>,
    multiLineString: Option<JstsGeometry>,
    jstsPolygons: seq<JstsGeometry>,
    numJstsPolygons: nat,
    jstsPolygonIndex: nat,
    prelimJstsPolys: seq<JstsGeometry>,
    finalJstsPolys: seq<JstsGeometry>,
    resultPolygons: seq<OlGeometry>,
    trace: seq<Event>)

  /** The state right after construction: `targetParts` is `[target]`. */
  function Initial(job: SplitJob): SplitterState {
    SplitterState(UnionStage, false, false, 0.0, [job.target], None, None,
                  [], 0, 0, [], [], [], [])
  }

  /** The progress of a FIND_KEEPERS step: 0.5 plus a quarter of the share of candidates scanned. */
  function KeepersFraction(index: nat, num: nat): real {
    0.5 + 0.25 * (if num > 0 then index as real / num as real else 1.0)
  }

  /** The fraction a state of each stage carries, as the steps that lead there set it. */
  predicate FractionMatchesStage(s: SplitterState) {
    match s.stage
    case UnionStage => s.fractionDone == 0.0 || s.fractionDone == 0.25
    case PolygonizeStage => s.fractionDone == 0.25
    case FindKeepersStage =>
      s.fractionDone == (if s.jstsPolygonIndex == 0 then 0.5
                         else KeepersFraction(s.jstsPolygonIndex, s.numJstsPolygons))
    case MergeStage => s.fractionDone == 0.75
    case ConvertStage => s.fractionDone == 0.75 || s.fractionDone == 1.0
  }

  /**
   * What holds of every state a splitter reaches: the cursor stays within the
   * candidates, only an invisible target is merged and it reaches CONVERT
   * with exactly one fragment, nothing is converted or written before the
   * splitter completes, and `targetParts` is `[target]` until CONVERT
   * completes.
   */
  predicate Inv(k: Kernel, job: SplitJob, s: SplitterState) {
    && s.numJstsPolygons == |s.jstsPolygons|
    && s.jstsPolygonIndex <= s.numJstsPolygons
    && (s.stage == UnionStage ==> s.multiLineString.None?)
    && (s.stage == UnionStage || s.stage == PolygonizeStage ==> s.jstsPolygonIndex == 0)
    && (s.complete && s.stage == UnionStage ==> UnionGivesUp(k, job))
    && (s.stage != UnionStage ==> s.jstsTarget.Some? && s.multiLineString.Some?)
    && (s.stage == MergeStage ==> !IsVisible(job.targetFeature))
    && (s.stage == ConvertStage && !IsVisible(job.targetFeature) ==> |s.prelimJstsPolys| == 1)
    && FractionMatchesStage(s)
    && (s.complete ==> s.stage == UnionStage || s.stage == ConvertStage)
    && (s.complete && s.stage == ConvertStage ==> s.fractionDone == 1.0)
    && (!s.complete ==> s.finalJstsPolys == [] && s.resultPolygons == [])
    && (s.targetParts == [job.target]
        || (s.stage == ConvertStage && s.complete && s.targetParts == s.resultPolygons))
  }

  // ---------------------------------------------------------------- stages

  /**
   * The two early exits of `unionLineStrings`: the bounds do not meet, or the
   * target's boundary is neither a LineString nor a MultiLineString.
   */
  predicate UnionGivesUp(k: Kernel, job: SplitJob) {
    var boundary := k.boundary(k.read(job.target));
    !Intersects(job.sourceBounds, k.bounds(job.target))
    || (!boundary.LineString? && !boundary.MultiLineString?)
  }

  /**
   * `unionLineStrings`: give up (false) when the bounds do not meet or the
   * target's boundary is neither a LineString nor a MultiLineString;
   * otherwise union the boundary, as a MultiLineString, with the source.
   */
  function UnionOutcome(k: Kernel, job: SplitJob, s: SplitterState): (SplitterState, bool) {
    if !Intersects(job.sourceBounds, k.bounds(job.target)) then (s, false)
    else
      var jstsTarget := k.read(job.target);
      var boundary := k.boundary(jstsTarget);
      var lines :=
        if boundary.LineString? then Some(MultiLineString([boundary]))
        else if boundary.MultiLineString? then Some(boundary)
        else s.multiLineString;
      if lines.None? then (s.(jstsTarget := Some(jstsTarget)), false)
      else
        (s.(jstsTarget := Some(jstsTarget),
            multiLineString := Some(k.union(lines.value, job.jstsSource)),
            stage := PolygonizeStage), true)
  }

  /** `polygonize`: always moves on, however many polygons come out. */
  function PolygonizeOutcome(k: Kernel, s: SplitterState): (SplitterState, bool)
    requires s.multiLineString.Some?
  {
    var polygons := k.polygonize(s.multiLineString.value);
    (s.(jstsPolygons := polygons, numJstsPolygons := |polygons|, stage := FindKeepersStage), true)
  }

  /**
   * The keeper test: more than half of the candidate's area lies in the
   * target, judged on a Polygon-valued intersection.
   */
  predicate IsKeeper(k: Kernel, jstsTarget: JstsGeometry, p2: JstsGeometry) {
    var intersection := KeeperIntersection(k, jstsTarget, p2);
    intersection.Polygon? && k.area(intersection) > k.area(p2) / 2.0
  }

  /**
   * `findKeepers`: one candidate per call; once the cursor is past the last
   * candidate, move to MERGE for an invisible target and to CONVERT otherwise.
   */
  function FindKeepersOutcome(k: Kernel, job: SplitJob, s: SplitterState): (SplitterState, bool)
    requires s.numJstsPolygons == |s.jstsPolygons| && s.jstsTarget.Some?
  {
    if s.jstsPolygonIndex >= s.numJstsPolygons then
      (s.(stage := if !IsVisible(job.targetFeature) then MergeStage else ConvertStage), true)
    else
      var p2 := s.jstsPolygons[s.jstsPolygonIndex];
      var advanced := s.(jstsPolygonIndex := s.jstsPolygonIndex + 1);
      if Intersects(job.sourceEnv, k.envelope(p2)) && IsKeeper(k, s.jstsTarget.value, p2) then
        (advanced.(prelimJstsPolys := s.prelimJstsPolys + [p2]), true)
      else
        (advanced, true)
  }

  /** `merge` on a non-empty list: fold the last entry into entry 0, or move on at length 1. */
  function MergeOutcome(k: Kernel, s: SplitterState): (SplitterState, bool)
    requires s.prelimJstsPolys != []
  {
    var polys := s.prelimJstsPolys;
    var len := |polys|;
    if len == 1 then (s.(stage := ConvertStage), true)
    else (s.(prelimJstsPolys := polys[..len - 1][0 := k.union(polys[0], polys[len - 1])]), true)
  }

  /**
   * What one polygon of a preliminary fragment contributes to
   * `finalJstsPolys`: an invalid one is replaced by the polygons of its
   * bowtie repair (not validated again), a valid one is kept if its area is
   * positive.
   */
  function RepairedPieces(k: Kernel, poly: JstsGeometry): seq<JstsGeometry> {
    if !k.isValid(poly) then GetPolygons(k, k.splitAndUnionBowtie(poly), 0.0)
    else if k.isValid(poly) && k.area(poly) > 0.0 then [poly]
    else []
  }

  /** The pieces of a list of polygons, in order. */
  function PolygonPieces(k: Kernel, polys: seq<JstsGeometry>): (pieces: seq<JstsGeometry>)
    decreases |polys|
  {
    if polys == [] then []
    else PolygonPieces(k, polys[..|polys| - 1]) + RepairedPieces(k, polys[|polys| - 1])
  }

  /**
   * Exactly what survives CONVERT from a list of polygons: every piece is a
   * Polygon of positive area; every valid polygon of positive area survives;
   * and a piece is either such a valid polygon or comes from repairing an
   * invalid one (and is then not validated again).
   */
  lemma {:induction false} PolygonPiecesCharacterized(k: Kernel, polys: seq<JstsGeometry>)
    requires forall p :: p in polys ==> p.Polygon?
    ensures forall p :: p in PolygonPieces(k, polys) ==> p.Polygon? && k.area(p) > 0.0
    ensures forall p :: p in polys && k.isValid(p) && k.area(p) > 0.0 ==> p in PolygonPieces(k, polys)
    ensures forall p :: p in PolygonPieces(k, polys) ==>
              (p in polys && k.isValid(p))
              || exists q :: q in polys && !k.isValid(q) && p in GetPolygons(k, k.splitAndUnionBowtie(q), 0.0)
    decreases |polys|
  {
    if polys != [] {
      var rest, last := polys[..|polys| - 1], polys[|polys| - 1];
      assert polys == rest + [last];
      PolygonPiecesCharacterized(k, rest);
    }
  }

  lemma ConcatAssoc<T>(a: seq<T>, b: seq<T>, c: seq<T>)
    ensures a + (b + c) == (a + b) + c
  {
  }

  lemma PolygonPiecesStep(k: Kernel, polys: seq<JstsGeometry>, i: nat)
    requires i < |polys|
    ensures PolygonPieces(k, polys[..i + 1]) == PolygonPieces(k, polys[..i]) + RepairedPieces(k, polys[i])
  {
    assert polys[..i + 1][..i] == polys[..i];
  }

  /** All pieces `convert` pushes onto `finalJstsPolys`, fragment by fragment. */
  function ConvertedPieces(k: Kernel, prelim: seq<JstsGeometry>): seq<JstsGeometry>
    decreases |prelim|
  {
    if prelim == [] then []
    else
      ConvertedPieces(k, prelim[..|prelim| - 1])
        + PolygonPieces(k, GetPolygons(k, prelim[|prelim| - 1], 0.0))
  }

  /** Every piece CONVERT keeps is a Polygon of positive area. */
  lemma {:induction false} ConvertedPiecesArePolygons(k: Kernel, prelim: seq<JstsGeometry>)
    ensures forall p :: p in ConvertedPieces(k, prelim) ==> p.Polygon? && k.area(p) > 0.0
    decreases |prelim|
  {
    if prelim != [] {
      ConvertedPiecesArePolygons(k, prelim[..|prelim| - 1]);
      PolygonPiecesCharacterized(k, GetPolygons(k, prelim[|prelim| - 1], 0.0));
    }
  }

  lemma ConvertedPiecesStep(k: Kernel, prelim: seq<JstsGeometry>, i: nat)
    requires i < |prelim|
    ensures ConvertedPieces(k, prelim[..i + 1])
            == ConvertedPieces(k, prelim[..i]) + PolygonPieces(k, GetPolygons(k, prelim[i], 0.0))
  {
    assert prelim[..i + 1][..i] == prelim[..i];
  }

  /** `parser.write` over a list, in the same order. */
  function WriteAll(k: Kernel, gs: seq<JstsGeometry>): (ws: seq<OlGeometry>)
    ensures |ws| == |gs|
    ensures forall i :: 0 <= i < |gs| ==> ws[i] == k.write(gs[i])
    decreases |gs|
  {
    if gs == [] then []
    else WriteAll(k, gs[..|gs| - 1]) + [k.write(gs[|gs| - 1])]
  }

  lemma WriteAllStep(k: Kernel, gs: seq<JstsGeometry>, i: nat)
    requires i < |gs|
    ensures WriteAll(k, gs[..i + 1]) == WriteAll(k, gs[..i]) + [k.write(gs[i])]
  {
    assert gs[..i + 1][..i] == gs[..i];
  }

  // ------------------------------------------------------------------ convert loops

  /** The body of `convert`'s middle loop: push what one polygon contributes onto `acc`. */
  method AppendRepaired(k: Kernel, acc: seq<JstsGeometry>, polyToAdd: JstsGeometry)
    returns (out: seq<JstsGeometry>)
    ensures out == acc + RepairedPieces(k, polyToAdd)
  {
    out := acc;
    if !k.isValid(polyToAdd) {
      var tmppolys := GetPolygons(k, k.splitAndUnionBowtie(polyToAdd), 0.0);
      var j := 0;
      while j < |tmppolys|
        invariant 0 <= j <= |tmppolys|
        invariant out == acc + tmppolys[..j]
      {
        out := out + [tmppolys[j]];
        assert tmppolys[..j + 1] == tmppolys[..j] + [tmppolys[j]];
        j := j + 1;
      }
      assert tmppolys[..|tmppolys|] == tmppolys;
    } else if k.isValid(polyToAdd) && k.area(polyToAdd) > 0.0 {
      out := out + [polyToAdd];
    }
  }

  /** The middle loop of `convert` for one fragment: push its pieces onto `acc`. */
  method AppendPolygonPieces(k: Kernel, acc: seq<JstsGeometry>, polys: seq<JstsGeometry>)
    returns (out: seq<JstsGeometry>)
    ensures out == acc + PolygonPieces(k, polys)
  {
    out := acc;
    var i := 0;
    while i < |polys|
      invariant 0 <= i <= |polys|
      invariant out == acc + PolygonPieces(k, polys[..i])
    {
      out := AppendRepaired(k, out, polys[i]);
      PolygonPiecesStep(k, polys, i);
      ConcatAssoc(acc, PolygonPieces(k, polys[..i]), RepairedPieces(k, polys[i]));
      i := i + 1;
    }
    assert polys[..|polys|] == polys;
  }

  /** The outer loop of `convert`: push the pieces of every preliminary fragment onto `acc`. */
  method AppendConvertedPieces(k: Kernel, acc: seq<JstsGeometry>, prelim: seq<JstsGeometry>)
    returns (out: seq<JstsGeometry>)
    ensures out == acc + ConvertedPieces(k, prelim)
  {
    out := acc;
    var i := 0;
    while i < |prelim|
      invariant 0 <= i <= |prelim|
      invariant out == acc + ConvertedPieces(k, prelim[..i])
    {
      var polys := GetPolygons(k, prelim[i], 0.0);
      out := AppendPolygonPieces(k, out, polys);
      ConvertedPiecesStep(k, prelim, i);
      ConcatAssoc(acc, ConvertedPieces(k, prelim[..i]), PolygonPieces(k, polys));
      i := i + 1;
    }
    assert prelim[..|prelim|] == prelim;
  }

  /** The last loop of `convert`: push `parser.write` of every piece onto `acc`. */
  method AppendWritten(k: Kernel, acc: seq<OlGeometry>, gs: seq<JstsGeometry>)
    returns (out: seq<OlGeometry>)
    ensures out == acc + WriteAll(k, gs)
  {
    out := acc;
    var i := 0;
    while i < |gs|
      invariant 0 <= i <= |gs|
      invariant out == acc + WriteAll(k, gs[..i])
    {
      out := out + [k.write(gs[i])];
      WriteAllStep(k, gs, i);
      i := i + 1;
    }
    assert gs[..|gs|] == gs;
  }

  /**
   * `convert`: extend `finalJstsPolys` with the pieces of every preliminary
   * fragment, write all of `finalJstsPolys` out after `resultPolygons`, and
   * make that list `targetParts`.  Always reports that nothing remains.
   */
  function ConvertOutcome(k: Kernel, s: SplitterState): (SplitterState, bool) {
    var finals := s.finalJstsPolys + ConvertedPieces(k, s.prelimJstsPolys);
    var results := s.resultPolygons + WriteAll(k, finals);
    (s.(finalJstsPolys := finals, resultPolygons := results, targetParts := results), false)
  }

  // ------------------------------------------------------------------ step

  /** A step's new state and what it returned (or threw). */
  datatype Stepped = Stepped(state: SplitterState, keepGoing: Result<bool, Fault>)

  /** After a stage ran: fire "progress" if work remains, otherwise mark complete and fire "complete". */
  function Announce(s: SplitterState, more: bool): Stepped {
    if more then Stepped(s.(trace := s.trace + [Progress(s.fractionDone)]), Success(true))
    else Stepped(s.(complete := true, trace := s.trace + [Complete]), Success(false))
  }

  /**
   * `step()`: a canceled splitter returns false and changes nothing;
   * otherwise the current stage runs, `fractionDone` is set, and exactly one
   * event fires — "progress" when it returns true, "complete" when false.
   * Stages never go back.
   */
  function StepOutcome(k: Kernel, job: SplitJob, s: SplitterState): (o: Stepped)
    requires Inv(k, job, s)
    ensures s.canceled ==> o == Stepped(s, Success(false))
    ensures o.state.canceled == s.canceled
    ensures StageCode(o.state.stage) >= StageCode(s.stage)
    ensures o.keepGoing.Failure? ==>
              o.state == s && s.stage == MergeStage && s.prelimJstsPolys == []
    ensures !s.canceled && o.keepGoing == Success(true) ==>
              o.state.trace == s.trace + [Progress(o.state.fractionDone)] && o.state.complete == s.complete
    ensures !s.canceled && o.keepGoing == Success(false) ==>
              o.state.complete && o.state.trace == s.trace + [Complete]
  {
    if s.canceled then Stepped(s, Success(false))
    else
      match s.stage
      case UnionStage =>
        var (next, more) := UnionOutcome(k, job, s);
        Announce(next.(fractionDone := 0.25), more)
      case PolygonizeStage =>
        var (next, more) := PolygonizeOutcome(k, s);
        Announce(next.(fractionDone := 0.5), more)
      case FindKeepersStage =>
        var (next, more) := FindKeepersOutcome(k, job, s);
        Announce(next.(fractionDone := KeepersFraction(next.jstsPolygonIndex, next.numJstsPolygons)), more)
      case MergeStage =>
        if s.prelimJstsPolys == [] then Stepped(s, Failure(MergeOfEmptyList))
        else
          var (next, more) := MergeOutcome(k, s);
          Announce(next.(fractionDone := 0.75), more)
      case ConvertStage =>
        var (next, more) := ConvertOutcome(k, s);
        Announce(next.(fractionDone := 0.75 + 0.25 * 1.0), more)
  }

  /** The work left inside the current stage: candidates to scan, or fragments to fold. */
  function StageWork(s: SplitterState): nat {
    match s.stage
    case FindKeepersStage => if s.jstsPolygonIndex <= s.numJstsPolygons then s.numJstsPolygons - s.jstsPolygonIndex + 1 else 0
    case MergeStage => |s.prelimJstsPolys|
    case _ => 0
  }

  // ---------------------------------------------------------------- lemmas

  /** A freshly constructed splitter satisfies the invariant. */
  lemma InitialInv(k: Kernel, job: SplitJob)
    ensures Inv(k, job, Initial(job))
  {
  }

  lemma RatioAtMostOne(i: nat, n: nat)
    requires 0 < n && i <= n
    ensures 0.0 <= i as real / n as real <= 1.0
  {
  }

  lemma RatioGrows(i: nat, n: nat)
    requires 0 < n
    ensures i as real / n as real < (i + 1) as real / n as real
  {
  }

  /** Every step keeps the invariant. */
  lemma StepPreservesInv(k: Kernel, job: SplitJob, s: SplitterState)
    requires Inv(k, job, s)
    ensures Inv(k, job, StepOutcome(k, job, s).state)
  {
    var o := StepOutcome(k, job, s);
    if !s.canceled && s.stage == FindKeepersStage {
      var (next, more) := FindKeepersOutcome(k, job, s);
      if s.jstsPolygonIndex >= s.numJstsPolygons && s.numJstsPolygons > 0 {
        assert s.jstsPolygonIndex as real / s.numJstsPolygons as real == 1.0;
      }
    }
  }

  /**
   * Progress never goes back and stays within [0, 1]: 0.25, 0.5, then
   * 0.5 + 0.25 * index / num while scanning, 0.75 for merging, 1.0 at the end.
   */
  lemma ProgressNeverDecreases(k: Kernel, job: SplitJob, s: SplitterState)
    requires Inv(k, job, s)
    ensures s.fractionDone <= StepOutcome(k, job, s).state.fractionDone <= 1.0
    ensures 0.0 <= s.fractionDone
  {
    var i, n := s.jstsPolygonIndex, s.numJstsPolygons;
    if s.stage == FindKeepersStage {
      if i > 0 {
        RatioAtMostOne(i, n);
      }
      if i < n {
        RatioGrows(i, n);
        RatioAtMostOne(i + 1, n);
      } else if n > 0 {
        assert i as real / n as real == 1.0;
      }
    }
  }

  /**
   * A step that returns true moves to a later stage or, within a stage, has
   * strictly less work left: the measure `run()` terminates by.
   */
  lemma StepAdvances(k: Kernel, job: SplitJob, s: SplitterState)
    requires Inv(k, job, s)
    requires StepOutcome(k, job, s).keepGoing == Success(true)
    ensures var t := StepOutcome(k, job, s).state;
      StageCode(t.stage) > StageCode(s.stage)
      || (t.stage == s.stage && StageWork(t) < StageWork(s))
  {
  }

  /**
   * One FIND_KEEPERS step before the last candidate: the cursor moves by
   * exactly one, and the candidate itself — never its intersection — is
   * appended iff its envelope meets the source's and it passes the keeper
   * test.
   */
  lemma FindKeepersScansOne(k: Kernel, job: SplitJob, s: SplitterState)
    requires Inv(k, job, s) && !s.canceled
    requires s.stage == FindKeepersStage && s.jstsPolygonIndex < s.numJstsPolygons
    ensures var t := StepOutcome(k, job, s).state;
      var p2 := s.jstsPolygons[s.jstsPolygonIndex];
      && t.stage == FindKeepersStage
      && t.jstsPolygonIndex == s.jstsPolygonIndex + 1
      && (if Intersects(job.sourceEnv, k.envelope(p2)) && IsKeeper(k, s.jstsTarget.value, p2)
          then t.prelimJstsPolys == s.prelimJstsPolys + [p2]
          else t.prelimJstsPolys == s.prelimJstsPolys)
  {
  }

  /**
   * One MERGE step on more than one fragment: entry 0 becomes its union with
   * the last entry, the middle entries stay, and the list is one shorter.
   */
  lemma MergeFoldsLastIntoFirst(k: Kernel, job: SplitJob, s: SplitterState)
    requires Inv(k, job, s) && !s.canceled
    requires s.stage == MergeStage && |s.prelimJstsPolys| > 1
    ensures var t := StepOutcome(k, job, s).state;
      var ps := s.prelimJstsPolys;
      && t.stage == MergeStage
      && |t.prelimJstsPolys| == |ps| - 1
      && t.prelimJstsPolys[0] == k.union(ps[0], ps[|ps| - 1])
      && t.prelimJstsPolys[1..] == ps[1..|ps| - 1]
  {
  }

  /**
   * Giving up: when the bounds do not meet or the target's boundary is not
   * linear, the first step returns false, completes, leaves `targetParts` as
   * `[target]` and `fractionDone` at 0.25.
   */
  lemma GiveUpShortCircuit(k: Kernel, job: SplitJob)
    requires UnionGivesUp(k, job)
    ensures var o := StepOutcome(k, job, Initial(job));
      && o.keepGoing == Success(false)
      && o.state.complete
      && o.state.stage == UnionStage
      && o.state.targetParts == [job.target]
      && o.state.fractionDone == 0.25
      && o.state.trace == [Complete]
  {
    InitialInv(k, job);
  }

  /**
   * One MERGE step on a single fragment: it returns true and moves to
   * CONVERT with that fragment.
   */
  lemma MergeOfOneMovesToConvert(k: Kernel, job: SplitJob, s: SplitterState)
    requires Inv(k, job, s) && !s.canceled
    requires s.stage == MergeStage && |s.prelimJstsPolys| == 1
    ensures var o := StepOutcome(k, job, s);
      && o.keepGoing == Success(true)
      && o.state.stage == ConvertStage
      && o.state.prelimJstsPolys == s.prelimJstsPolys
      && o.state.fractionDone == 0.75
  {
  }

  /**
   * CONVERT finishes the splitter: it returns false, and `targetParts` is the
   * written form of every converted piece, in order.
   */
  lemma ConvertCompletes(k: Kernel, job: SplitJob, s: SplitterState)
    requires Inv(k, job, s) && !s.canceled && !s.complete && s.stage == ConvertStage
    ensures var o := StepOutcome(k, job, s);
      var pieces := ConvertedPieces(k, s.prelimJstsPolys);
      && o.keepGoing == Success(false)
      && o.state.complete
      && o.state.fractionDone == 1.0
      && |o.state.targetParts| == |pieces|
      && (forall i :: 0 <= i < |pieces| ==> o.state.targetParts[i] == k.write(pieces[i]))
  {
    var pieces := ConvertedPieces(k, s.prelimJstsPolys);
    var (next, more) := ConvertOutcome(k, s);
    assert [] + pieces == pieces;
    assert next.targetParts == WriteAll(k, pieces);
    assert StepOutcome(k, job, s) == Announce(next.(fractionDone := 1.0), false);
  }

  // ----------------------------------------------------------------- class

  /** OpenLayers.StepFeatureSplitter, with the fields a step updates. */
  class StepFeatureSplitter {
    const kernel: Kernel
    const sourceFeature: Feature
    const sourceBounds: Box
    const jstsSource: JstsGeometry
    const sourceEnv: Box
    const targetFeature: Feature
    const target: OlGeometry

    var stage: Stage
    var complete: bool
    var canceled: bool
    var fractionDone: real
    var targetParts: seq<OlGeometry>
    var jstsTarget: Option<JstsGeometry>
    var multiLineString: Option<JstsGeometry>
    var jstsPolygons: seq<JstsGeometry>
    var numJstsPolygons: nat
    var jstsPolygonIndex: nat
    var prelimJstsPolys: seq<JstsGeometry>
    var finalJstsPolys: seq<JstsGeometry>
    var resultPolygons: seq<OlGeometry>
    /** The events object is still there (not yet destroyed). */
    var listening: bool
    /** The events triggered so far. */
    ghost var trace: seq<Event>

    function Job(): SplitJob {
      SplitJob(sourceBounds, jstsSource, sourceEnv, targetFeature, target)
    }

    ghost function Snapshot(): SplitterState
      reads this
    {
      SplitterState(stage, complete, canceled, fractionDone, targetParts, jstsTarget,
                    multiLineString, jstsPolygons, numJstsPolygons, jstsPolygonIndex,
                    prelimJstsPolys, finalJstsPolys, resultPolygons, trace)
    }

    ghost predicate Valid()
      reads this
    {
      WellFormedJob(Job()) && Inv(kernel, Job(), Snapshot())
    }

    /** `initialize`: remember the source and the target; `targetParts` starts as `[target]`. */
    constructor (kernel: Kernel, sourceFeature: Feature, jstsSource: JstsGeometry, targetFeature: Feature)
      requires sourceFeature.geometry.Some? && targetFeature.geometry.Some?
      ensures Valid() && listening
      ensures this.kernel == kernel && this.sourceFeature == sourceFeature
      ensures Job() == SplitJob(kernel.bounds(sourceFeature.geometry.value), jstsSource,
                                kernel.envelope(jstsSource), targetFeature, targetFeature.geometry.value)
      ensures Snapshot() == Initial(Job())
    {
      this.kernel := kernel;
      this.sourceFeature := sourceFeature;
      this.sourceBounds := kernel.bounds(sourceFeature.geometry.value);
      this.jstsSource := jstsSource;
      this.sourceEnv := kernel.envelope(jstsSource);
      this.targetFeature := targetFeature;
      this.target := targetFeature.geometry.value;
      stage := UnionStage;
      complete, canceled := false, false;
      fractionDone := 0.0;
      targetParts := [targetFeature.geometry.value];
      jstsTarget, multiLineString := None, None;
      jstsPolygons, numJstsPolygons, jstsPolygonIndex := [], 0, 0;
      prelimJstsPolys, finalJstsPolys, resultPolygons := [], [], [];
      listening := true;
      trace := [];
      new;
      InitialInv(kernel, Job());
    }

    /** `cancel`: every later step returns false and changes nothing. */
    method Cancel()
      requires Valid()
      modifies this
      ensures Valid() && listening == old(listening)
      ensures Snapshot() == old(Snapshot()).(canceled := true)
    {
      canceled := true;
    }

    /** `destroy`: drop the events object; idempotent, the split state stays readable. */
    method Destroy()
      requires Valid()
      modifies this
      ensures Valid() && !listening
      ensures Snapshot() == old(Snapshot())
    {
      listening := false;
    }

    /** `step` */
    method Step() returns (keepGoing: Result<bool, Fault>)
      requires Valid() && (listening || canceled)
      modifies this
      ensures Valid() && listening == old(listening)
      ensures Stepped(Snapshot(), keepGoing) == StepOutcome(kernel, Job(), old(Snapshot()))
    {
      ghost var before := Snapshot();
      StepPreservesInv(kernel, Job(), before);
      if canceled {
        return Success(false);
      }
      var stageResult := RunStage();
      if stageResult.Failure? {
        return stageResult;
      }
      var more := stageResult.value;
      if more {
        trace := trace + [Progress(fractionDone)];
      } else {
        complete := true;
        trace := trace + [Complete];
      }
      keepGoing := Success(more);
      assert Snapshot() == StepOutcome(kernel, Job(), before).state;
    }

    /** The `switch` of `step`: run the current stage and set `fractionDone`. */
    method RunStage() returns (more: Result<bool, Fault>)
      requires Valid() && !canceled
      modifies this
      ensures listening == old(listening)
      ensures more.Failure? ==> Snapshot() == old(Snapshot())
                                && StepOutcome(kernel, Job(), old(Snapshot())) == Stepped(Snapshot(), more)
      ensures more.Success? ==> StepOutcome(kernel, Job(), old(Snapshot())) == Announce(Snapshot(), more.value)
    {
      ghost var before := Snapshot();
      var keepGoing: bool;
      ghost var mid: SplitterState;
      match stage {
        case UnionStage =>
          keepGoing := UnionLineStrings();
          fractionDone := 0.25;
          mid := UnionOutcome(kernel, Job(), before).0.(fractionDone := 0.25);
        case PolygonizeStage =>
          keepGoing := Polygonize();
          fractionDone := 0.5;
          mid := PolygonizeOutcome(kernel, before).0.(fractionDone := 0.5);
        case FindKeepersStage =>
          keepGoing := FindKeepers();
          var ratio := 1.0;
          if numJstsPolygons > 0 {
            ratio := jstsPolygonIndex as real / numJstsPolygons as real;
          }
          fractionDone := 0.5 + 0.25 * ratio;
          mid := FindKeepersOutcome(kernel, Job(), before).0;
          mid := mid.(fractionDone := KeepersFraction(mid.jstsPolygonIndex, mid.numJstsPolygons));
        case MergeStage =>
          var merged := Merge();
          if merged.Failure? {
            return merged;
          }
          keepGoing := merged.value;
          fractionDone := 0.75;
          mid := MergeOutcome(kernel, before).0.(fractionDone := 0.75);
        case ConvertStage =>
          keepGoing := Convert();
          var ratio2 := 1.0;
          fractionDone := 0.75 + 0.25 * ratio2;
          mid := ConvertOutcome(kernel, before).0.(fractionDone := 1.0);
      }
      assert Snapshot() == mid;
      more := Success(keepGoing);
    }

    /** `run`: step until a step returns false (or throws). */
    method Run() returns (outcome: Result<(), Fault>)
      requires Valid() && (listening || canceled)
      modifies this
      ensures Valid() && listening == old(listening) && canceled == old(canceled)
      ensures outcome.Success? ==> canceled || complete
      ensures outcome.Failure? ==> stage == MergeStage && prelimJstsPolys == []
    {
      var r := Step();
      while r.Success? && r.value
        invariant Valid() && listening == old(listening) && canceled == old(canceled)
        invariant r.Success? && !r.value ==> canceled || complete
        invariant r.Failure? ==> stage == MergeStage && prelimJstsPolys == []
        decreases (if r.Success? && r.value then 1 else 0), 4 - StageCode(stage), StageWork(Snapshot())
      {
        ghost var before := Snapshot();
        r := Step();
        if r.Success? && r.value {
          StepAdvances(kernel, Job(), before);
        }
      }
      outcome := if r.Failure? then Failure(r.error) else Success(());
    }

    /** `unionLineStrings` */
    method UnionLineStrings() returns (more: bool)
      modifies this
      ensures (Snapshot(), more) == UnionOutcome(kernel, Job(), old(Snapshot()))
      ensures listening == old(listening)
    {
      if !Intersects(sourceBounds, kernel.bounds(target)) {
        return false;
      }
      jstsTarget := Some(kernel.read(target));
      var boundary := kernel.boundary(jstsTarget.value);
      if boundary.LineString? {
        multiLineString := Some(MultiLineString([boundary]));
      } else if boundary.MultiLineString? {
        multiLineString := Some(boundary);
      }
      if multiLineString.None? {
        return false;
      }
      multiLineString := Some(kernel.union(multiLineString.value, jstsSource));
      stage := PolygonizeStage;
      return true;
    }

    /** `polygonize` */
    method Polygonize() returns (more: bool)
      requires multiLineString.Some?
      modifies this
      ensures (Snapshot(), more) == PolygonizeOutcome(kernel, old(Snapshot()))
      ensures listening == old(listening)
    {
      jstsPolygons := kernel.polygonize(multiLineString.value);
      numJstsPolygons := |jstsPolygons|;
      stage := FindKeepersStage;
      return true;
    }

    /** `findKeepers` */
    method FindKeepers() returns (more: bool)
      requires numJstsPolygons == |jstsPolygons| && jstsTarget.Some?
      modifies this
      ensures (Snapshot(), more) == FindKeepersOutcome(kernel, Job(), old(Snapshot()))
      ensures listening == old(listening)
    {
      if jstsPolygonIndex >= numJstsPolygons {
        if !IsVisible(targetFeature) {
          stage := MergeStage;
        } else {
          stage := ConvertStage;
        }
      } else {
        var p2 := jstsPolygons[jstsPolygonIndex];
        jstsPolygonIndex := jstsPolygonIndex + 1;
        var p2env := kernel.envelope(p2);
        if Intersects(sourceEnv, p2env) {
          var intersection := KeeperIntersection(kernel, jstsTarget.value, p2);
          if intersection.Polygon? && kernel.area(intersection) > kernel.area(p2) / 2.0 {
            prelimJstsPolys := prelimJstsPolys + [p2];
          }
        }
      }
      return true;
    }

    /** `merge`; on an empty list the source throws before changing anything. */
    method Merge() returns (more: Result<bool, Fault>)
      modifies this
      ensures old(prelimJstsPolys) == [] ==> more == Failure(MergeOfEmptyList) && Snapshot() == old(Snapshot())
      ensures old(prelimJstsPolys) != [] ==>
                more.Success? && (Snapshot(), more.value) == MergeOutcome(kernel, old(Snapshot()))
      ensures listening == old(listening)
    {
      var len := |prelimJstsPolys|;
      if len == 1 {
        stage := ConvertStage;
      } else if len == 0 {
        // prelimJstsPolys[0] is undefined: reading .union on it throws
        return Failure(MergeOfEmptyList);
      } else {
        prelimJstsPolys := prelimJstsPolys[0 := kernel.union(prelimJstsPolys[0], prelimJstsPolys[len - 1])];
        prelimJstsPolys := prelimJstsPolys[..len - 1];
      }
      return Success(true);
    }

    /** `convert`: the pushes onto `finalJstsPolys` and `resultPolygons` are done on local copies. */
    method Convert() returns (more: bool)
      modifies this
      ensures (Snapshot(), more) == ConvertOutcome(kernel, old(Snapshot()))
      ensures listening == old(listening)
    {
      var finals := AppendConvertedPieces(kernel, finalJstsPolys, prelimJstsPolys);
      var results := AppendWritten(kernel, resultPolygons, finals);
      finalJstsPolys, resultPolygons := finals, results;
      targetParts := results;
      return false;
    }
  }
}
