/**
 * The values the splitting code works on: OpenLayers features and geometries,
 * jsts geometries, bounding boxes, and the jsts geometry kernel itself, which is
 * an injected capability (a record of functions) rather than code of this model.
 */
module Geometry {
  import opened Wrappers

  /** An OpenLayers geometry object; `ref` stands for its object identity. */
  datatype OlGeometry = OlGeometry(ref: nat)

  /**
   * A jsts geometry, reduced to the class distinctions the splitting code
   * tests with `instanceof`.  A LinearRing is a LineString; a
   * MultiLineString is a GeometryCollection, as in jsts.
   */
  datatype JstsGeometry =
    | Polygon(ref: nat)
    | LineString(ref: nat)
    | MultiLineString(members: seq<JstsGeometry>)
    | GeometryCollection(members: seq<JstsGeometry>)
    | OtherGeometry(ref: nat)

  /** `g instanceof jsts.geom.GeometryCollection` */
  predicate IsCollection(g: JstsGeometry) {
    g.MultiLineString? || g.GeometryCollection?
  }

  /** An axis-aligned bounding box (OpenLayers.Bounds or a jsts Envelope). */
  datatype Box = Box(minX: real, minY: real, maxX: real, maxY: real)

  /** Inclusive overlap test of `intersectsBounds` and `Envelope.intersects`. */
  predicate Intersects(a: Box, b: Box) {
    a.minX <= b.maxX && b.minX <= a.maxX && a.minY <= b.maxY && b.minY <= a.maxY
  }

  /**
   * The jsts kernel and the OpenLayers geometry methods the core calls.
   * `contains` and `intersection` are the calls the code wraps in try/catch:
   * None stands for "threw".  All others are total: where they would throw,
   * the exception would escape `step()` and that is not modelled.
   */
  datatype Kernel = Kernel(
    bounds: OlGeometry -> Box,                        // geometry.getBounds()
    olArea: OlGeometry -> real,                       // geometry.getArea()
    read: OlGeometry -> JstsGeometry,                 // OpenLayersParser.read
    write: JstsGeometry -> OlGeometry,                // OpenLayersParser.write
    envelope: JstsGeometry -> Box,                    // getEnvelopeInternal()
    rectangle: Box -> JstsGeometry,                   // Polygon over an envelope's corners
    boundary: JstsGeometry -> JstsGeometry,           // getBoundary()
    union: (JstsGeometry, JstsGeometry) -> JstsGeometry,
    polygonize: JstsGeometry -> seq<JstsGeometry>,    // Polygonizer add + getPolygons
    contains: (JstsGeometry, JstsGeometry) -> Option<bool>,
    intersection: (JstsGeometry, JstsGeometry) -> Option<JstsGeometry>,
    area: JstsGeometry -> real,
    isValid: JstsGeometry -> bool,
    splitAndUnionBowtie: JstsGeometry -> JstsGeometry)

  /** OpenLayers.State; a feature whose state is null has `state == None`. */
  datatype State = Unknown | Insert | Update | Delete

  /** A feature style; only its `display` property matters here. */
  datatype Style = Style(display: Option<string>)

  type Attributes = map<string, string>

  /**
   * An OpenLayers vector feature.  Feature identity is value equality; the
   * fid is the integer that `parseInt` would read from it.
   */
  datatype Feature = Feature(
    fid: int,
    geometry: Option<OlGeometry>,
    state: Option<State>,
    style: Option<Style>,
    attributes: Attributes)

  /** A feature is drawn unless its style sets display to "none". */
  predicate IsVisible(f: Feature) {
    f.style.None? || f.style.value.display != Some("none")
  }

  /** `a` is `b` with some elements left out and the rest kept in order. */
  predicate SubsequenceOf<T(==)>(a: seq<T>, b: seq<T>)
    decreases |b|
  {
    if b == [] then a == []
    else
      (a != [] && a[|a| - 1] == b[|b| - 1] && SubsequenceOf(a[..|a| - 1], b[..|b| - 1]))
      || SubsequenceOf(a, b[..|b| - 1])
  }

  /**
   * `getPolygons` over the members of a collection: the Polygon members whose
   * area exceeds `minPolygonSize`, in collection order.
   */
  function PolygonMembers(k: Kernel, gs: seq<JstsGeometry>, minPolygonSize: real): (ps: seq<JstsGeometry>)
    ensures forall p :: p in ps ==> p.Polygon? && k.area(p) > minPolygonSize
    ensures forall g :: g in gs && g.Polygon? && k.area(g) > minPolygonSize ==> g in ps
    ensures SubsequenceOf(ps, gs)
    decreases |gs|
  {
    if gs == [] then []
    else
      var last := gs[|gs| - 1];
      assert forall g :: g in gs ==> g in gs[..|gs| - 1] || g == last by {
        assert gs == gs[..|gs| - 1] + [last];
      }
      var rest := PolygonMembers(k, gs[..|gs| - 1], minPolygonSize);
      if last.Polygon? && k.area(last) > minPolygonSize then
        assert (rest + [last])[..|rest|] == rest;
        rest + [last]
      else rest
  }

  /**
   * `getPolygons(g, minPolygonSize)`: the polygons of `g` larger than
   * `minPolygonSize` -- a collection contributes its qualifying Polygon
   * members in order (nested collections are not entered), a lone Polygon
   * itself if it qualifies, anything else nothing.
   */
  function GetPolygons(k: Kernel, g: JstsGeometry, minPolygonSize: real): (ps: seq<JstsGeometry>)
    ensures forall p :: p in ps ==> p.Polygon? && k.area(p) > minPolygonSize
    ensures IsCollection(g) ==>
              && SubsequenceOf(ps, g.members)
              && forall m :: m in g.members && m.Polygon? && k.area(m) > minPolygonSize ==> m in ps
    ensures g.Polygon? ==> (ps == [g] <==> k.area(g) > minPolygonSize) && (ps == [] <==> k.area(g) <= minPolygonSize)
    ensures !IsCollection(g) && !g.Polygon? ==> ps == []
  {
    if IsCollection(g) then PolygonMembers(k, g.members, minPolygonSize)
    else if g.Polygon? && k.area(g) > minPolygonSize then [g]
    else []
  }

  /**
   * The intersection value both split controls compute for a candidate
   * polygon `p2` of the polygonized boundary: if the target contains the
   * candidate's envelope rectangle, `p2` itself; otherwise `p2 ∩ target`,
   * retried as `target ∩ p2` when that throws, and `p2` itself when both
   * throw.  A `contains` that throws counts as false.
   */
  function KeeperIntersection(k: Kernel, jstsTarget: JstsGeometry, p2: JstsGeometry): (r: JstsGeometry)
    ensures r == p2 || k.intersection(p2, jstsTarget) == Some(r) || k.intersection(jstsTarget, p2) == Some(r)
    ensures k.contains(jstsTarget, k.rectangle(k.envelope(p2))) == Some(true) ==> r == p2
    ensures k.contains(jstsTarget, k.rectangle(k.envelope(p2))) != Some(true) ==>
      (k.intersection(p2, jstsTarget).Some? ==> r == k.intersection(p2, jstsTarget).value)
      && (k.intersection(p2, jstsTarget).None? && k.intersection(jstsTarget, p2).Some? ==>
            r == k.intersection(jstsTarget, p2).value)
      && (k.intersection(p2, jstsTarget).None? && k.intersection(jstsTarget, p2).None? ==> r == p2)
  {
    var contains := k.contains(jstsTarget, k.rectangle(k.envelope(p2))).GetOr(false);
    if contains then p2
    else
      match k.intersection(p2, jstsTarget)
      case Some(g) => g
      case None => k.intersection(jstsTarget, p2).GetOr(p2)
  }
}
