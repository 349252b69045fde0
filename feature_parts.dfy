/**
 * The feature-list code both split controls share.  `removeByGeometry`
 * drops the first feature carrying a geometry.  `geomsToFeatures` turns the
 * parts of a split feature into new features.  The part of largest area inherits the
 * original fid, every other part takes the next fresh id in input order,
 * all parts are marked INSERT, and the list is sorted by numeric fid.
 */
module FeatureParts {
  import opened Wrappers
  import opened Geometry

  // ------------------------------------------------------- the biggest part

  /**
   * The loop over the parts that keeps the index of the biggest: a later
   * part replaces the current one only if strictly larger.
   */
  function BiggestIndex(k: Kernel, geoms: seq<OlGeometry>): (b: nat)
    requires |geoms| > 0
    ensures b < |geoms|
    decreases |geoms|
  {
    if |geoms| == 1 then 0
    else
      var b := BiggestIndex(k, geoms[..|geoms| - 1]);
      if k.olArea(geoms[|geoms| - 1]) > k.olArea(geoms[b]) then |geoms| - 1 else b
  }

  /** `b` is the first index of maximal area. */
  predicate IsFirstMax(k: Kernel, geoms: seq<OlGeometry>, b: nat) {
    && b < |geoms|
    && (forall j :: 0 <= j < |geoms| ==> k.olArea(geoms[j]) <= k.olArea(geoms[b]))
    && (forall j :: 0 <= j < b ==> k.olArea(geoms[j]) < k.olArea(geoms[b]))
  }

  /** Because the comparison is strict, ties go to the earliest part. */
  lemma {:induction false} BiggestIndexIsFirstMax(k: Kernel, geoms: seq<OlGeometry>)
    requires |geoms| > 0
    ensures IsFirstMax(k, geoms, BiggestIndex(k, geoms))
    decreases |geoms|
  {
    if |geoms| > 1 {
      var init := geoms[..|geoms| - 1];
      BiggestIndexIsFirstMax(k, init);
      assert forall j :: 0 <= j < |init| ==> init[j] == geoms[j];
    }
  }

  /** There is only one first index of maximal area. */
  lemma FirstMaxIsUnique(k: Kernel, geoms: seq<OlGeometry>, b1: nat, b2: nat)
    requires IsFirstMax(k, geoms, b1) && IsFirstMax(k, geoms, b2)
    ensures b1 == b2
  {
  }

  // ------------------------------------------------------- numbering

  /**
   * The fid of part `i` when part `biggest` keeps `templateFid`: the others
   * count up from `nextId` in input order.
   */
  function PartFid(i: nat, biggest: nat, templateFid: int, nextId: int): int {
    if i == biggest then templateFid
    else if i < biggest then nextId + i
    else nextId + i - 1
  }

  /** A clone of the template without its geometry, given a part and a fid, in state INSERT. */
  function NewPart(template: Feature, g: OlGeometry, fid: int): Feature {
    Feature(fid, Some(g), Some(Insert), template.style, template.attributes)
  }

  /** The parts as features, in input order, before sorting. */
  function NumberedParts(k: Kernel, template: Feature, geoms: seq<OlGeometry>, nextId: int): (fs: seq<Feature>)
    requires |geoms| > 0
  {
    var b := BiggestIndex(k, geoms);
    seq(|geoms|, i requires 0 <= i < |geoms| => NewPart(template, geoms[i], PartFid(i, b, template.fid, nextId)))
  }

  /**
   * What numbering promises: one feature per part, in order, each in state
   * INSERT with the template's style and attributes; the biggest part (the
   * first of maximal area) keeps the template's fid; the other parts take
   * the ids from `nextId` to `nextId + |geoms| - 2`, increasing in input
   * order.
   */
  lemma NumberedPartsMeaning(k: Kernel, template: Feature, geoms: seq<OlGeometry>, nextId: int, b: nat)
    requires |geoms| > 0 && IsFirstMax(k, geoms, b)
    ensures var fs := NumberedParts(k, template, geoms, nextId);
      && |fs| == |geoms|
      && (forall i :: 0 <= i < |fs| ==>
            && fs[i].geometry == Some(geoms[i]) && fs[i].state == Some(Insert)
            && fs[i].style == template.style && fs[i].attributes == template.attributes)
      && fs[b].fid == template.fid
      && (forall i :: 0 <= i < |fs| && i != b ==> nextId <= fs[i].fid <= nextId + |geoms| - 2)
      && (forall i, j :: 0 <= i < j < |fs| && i != b && j != b ==> fs[i].fid < fs[j].fid)
  {
    BiggestIndexIsFirstMax(k, geoms);
    FirstMaxIsUnique(k, geoms, b, BiggestIndex(k, geoms));
  }

  // ------------------------------------------------------- sorting by fid

  /** Ascending by numeric fid. */
  predicate SortedByFid(fs: seq<Feature>) {
    forall i, j :: 0 <= i < j < |fs| ==> fs[i].fid <= fs[j].fid
  }

  /** No two features share a fid. */
  predicate DistinctFids(fs: seq<Feature>) {
    forall i, j :: 0 <= i < j < |fs| ==> fs[i].fid != fs[j].fid
  }

  /** Insert `f` into a list sorted by fid, after the entries with a smaller or equal fid. */
  function InsertByFid(f: Feature, fs: seq<Feature>): (r: seq<Feature>)
    requires SortedByFid(fs)
    ensures SortedByFid(r)
    ensures multiset(r) == multiset(fs) + multiset{f}
    decreases |fs|
  {
    if fs == [] then [f]
    else if f.fid < fs[0].fid then [f] + fs
    else
      var rest := InsertByFid(f, fs[1..]);
      assert fs == [fs[0]] + fs[1..];
      HeadBoundsInsertion(f, fs, rest);
      ConsSorted(fs[0], rest);
      [fs[0]] + rest
  }

  /** The head of a sorted list bounds the result of inserting a larger-or-equal `f` into its tail. */
  lemma HeadBoundsInsertion(f: Feature, fs: seq<Feature>, rest: seq<Feature>)
    requires SortedByFid(fs) && fs != [] && fs[0].fid <= f.fid
    requires multiset(rest) == multiset(fs[1..]) + multiset{f}
    ensures forall x :: x in rest ==> fs[0].fid <= x.fid
  {
    forall x | x in rest
      ensures fs[0].fid <= x.fid
    {
      assert x in multiset(rest);
      assert x == f || x in multiset(fs[1..]);
    }
  }

  /** A feature no larger than every entry of a sorted list can go in front of it. */
  lemma ConsSorted(x: Feature, rest: seq<Feature>)
    requires SortedByFid(rest) && forall y :: y in rest ==> x.fid <= y.fid
    ensures SortedByFid([x] + rest)
  {
    forall i, j | 0 <= i < j < |rest| + 1
      ensures ([x] + rest)[i].fid <= ([x] + rest)[j].fid
    {
      assert ([x] + rest)[j] == rest[j - 1];
      if i > 0 {
        assert ([x] + rest)[i] == rest[i - 1];
      }
    }
  }

  /** `Array.prototype.sort` with the comparator on parsed fids. */
  function SortByFid(fs: seq<Feature>): (r: seq<Feature>)
    ensures SortedByFid(r)
    ensures multiset(r) == multiset(fs)
    decreases |fs|
  {
    if fs == [] then []
    else
      assert fs == fs[..|fs| - 1] + [fs[|fs| - 1]];
      InsertByFid(fs[|fs| - 1], SortByFid(fs[..|fs| - 1]))
  }

  /**
   * When the fids are distinct, a list sorted by fid is determined by its
   * elements: any sort algorithm, stable or not, gives the same result.
   */
  lemma {:induction false} SortedIsDetermined(a: seq<Feature>, b: seq<Feature>)
    requires SortedByFid(a) && SortedByFid(b) && multiset(a) == multiset(b) && DistinctFids(a)
    ensures a == b
    decreases |a|
  {
    if a != [] {
      SortedSameHead(a, b);
      TailsAgree(a, b);
      SortedIsDetermined(a[1..], b[1..]);
      assert a == [a[0]] + a[1..];
      assert b == [b[0]] + b[1..];
    }
  }

  /** Two sorted lists with the same elements and distinct fids start with the same feature. */
  lemma SortedSameHead(a: seq<Feature>, b: seq<Feature>)
    requires SortedByFid(a) && SortedByFid(b) && multiset(a) == multiset(b) && DistinctFids(a)
    requires a != []
    ensures b != [] && a[0] == b[0]
  {
    assert a[0] in multiset(b);
    var j :| 0 <= j < |b| && b[j] == a[0];
    assert b[0] in multiset(a);
    var i :| 0 <= i < |a| && a[i] == b[0];
    assert a[0].fid <= a[i].fid == b[0].fid <= b[j].fid == a[0].fid;
  }

  /** Taking the same first element off two lists with the same elements leaves the same elements. */
  lemma TailsAgree(a: seq<Feature>, b: seq<Feature>)
    requires a != [] && b != [] && a[0] == b[0] && multiset(a) == multiset(b)
    ensures multiset(a[1..]) == multiset(b[1..])
  {
    assert a == [a[0]] + a[1..];
    assert b == [b[0]] + b[1..];
    forall y
      ensures multiset(a[1..])[y] == multiset(b[1..])[y]
    {
      assert multiset(a)[y] == multiset(b)[y];
    }
  }

  // ------------------------------------------------------- geomsToFeatures

  /**
   * The features `geomsToFeatures` leaves in the list and the `nextId` it
   * leaves behind; an empty list changes nothing.
   */
  function PartsAsFeatures(k: Kernel, template: Feature, geoms: seq<OlGeometry>, nextId: int)
    : (r: (seq<Feature>, int))
  {
    if geoms == [] then ([], nextId)
    else (SortByFid(NumberedParts(k, template, geoms, nextId)), nextId + |geoms| - 1)
  }

  /**
   * The result is sorted by fid and holds exactly the numbered parts; with
   * a template fid outside the fresh ids the fids are distinct, so the sorted
   * order does not depend on how the sort breaks ties.
   */
  lemma PartsAsFeaturesMeaning(k: Kernel, template: Feature, geoms: seq<OlGeometry>, nextId: int)
    ensures var (fs, next) := PartsAsFeatures(k, template, geoms, nextId);
      && |fs| == |geoms|
      && next == nextId + (if geoms == [] then 0 else |geoms| - 1)
      && SortedByFid(fs)
      && (geoms != [] ==> multiset(fs) == multiset(NumberedParts(k, template, geoms, nextId)))
      && (forall f :: f in fs ==> f.state == Some(Insert) && f.geometry.Some? && f.geometry.value in geoms)
      && (!(nextId <= template.fid < nextId + |geoms| - 1) ==> DistinctFids(fs))
  {
    if geoms != [] {
      var ns := NumberedParts(k, template, geoms, nextId);
      var fs := SortByFid(ns);
      BiggestIndexIsFirstMax(k, geoms);
      NumberedPartsMeaning(k, template, geoms, nextId, BiggestIndex(k, geoms));
      assert |fs| == |ns| by {
        assert |multiset(fs)| == |multiset(ns)|;
      }
      PermutationMembers(ns, fs);
      if !(nextId <= template.fid < nextId + |geoms| - 1) {
        assert DistinctFids(ns);
        DistinctFidsKept(ns, fs);
      }
    }
  }

  /** A permutation has the same members. */
  lemma PermutationMembers(a: seq<Feature>, b: seq<Feature>)
    requires multiset(a) == multiset(b)
    ensures forall f :: f in b ==> f in a
  {
    forall f | f in b
      ensures f in a
    {
      assert f in multiset(a);
    }
  }

  /** A permutation keeps fids distinct. */
  lemma DistinctFidsKept(a: seq<Feature>, b: seq<Feature>)
    requires DistinctFids(a) && multiset(a) == multiset(b)
    ensures DistinctFids(b)
  {
    forall i, j | 0 <= i < j < |b|
      ensures b[i].fid != b[j].fid
    {
      if b[i].fid == b[j].fid {
        assert b[i] in multiset(a) && b[j] in multiset(a);
        var i' :| 0 <= i' < |a| && a[i'] == b[i];
        var j' :| 0 <= j' < |a| && a[j'] == b[j];
        if i' == j' {
          // b[i] == b[j]: then that element occurs twice in b, but only once in a
          assert b[i] == b[j];
          MultiplicityOfDistinct(a, i');
          MultiplicityAtLeastTwo(b, i, j);
          assert false;
        }
      }
    }
  }

  /** With distinct fids, each element of `a` occurs once. */
  lemma MultiplicityOfDistinct(a: seq<Feature>, i: nat)
    requires DistinctFids(a) && i < |a|
    ensures multiset(a)[a[i]] == 1
  {
    assert a == a[..i] + [a[i]] + a[i + 1..];
    assert a[i] !in a[..i];
    assert a[i] !in a[i + 1..];
  }

  /** An element at two positions occurs at least twice. */
  lemma MultiplicityAtLeastTwo(b: seq<Feature>, i: nat, j: nat)
    requires i < j < |b| && b[i] == b[j]
    ensures multiset(b)[b[i]] >= 2
  {
    assert b == b[..i] + [b[i]] + b[i + 1..j] + [b[j]] + b[j + 1..];
  }

  /** The first loop of `geomsToFeatures`: the index of the biggest part. */
  method FindBiggest(k: Kernel, geoms: seq<OlGeometry>) returns (biggestIndex: int)
    requires |geoms| > 0
    ensures 0 <= biggestIndex && IsFirstMax(k, geoms, biggestIndex)
    ensures biggestIndex == BiggestIndex(k, geoms)
  {
    biggestIndex := -1;
    var i := 0;
    while i < |geoms|
      invariant 0 <= i <= |geoms|
      invariant i == 0 <==> biggestIndex == -1
      invariant i > 0 ==> biggestIndex == BiggestIndex(k, geoms[..i])
    {
      if biggestIndex == -1 || k.olArea(geoms[i]) > k.olArea(geoms[biggestIndex]) {
        biggestIndex := i;
      }
      assert geoms[..i + 1][..i] == geoms[..i];
      i := i + 1;
    }
    assert geoms[..|geoms|] == geoms;
    BiggestIndexIsFirstMax(k, geoms);
  }

  /** The second loop of `geomsToFeatures`: clone, attach, number and mark every part. */
  method NumberParts(k: Kernel, template: Feature, geoms: seq<OlGeometry>, nextId: int, biggestIndex: nat)
    returns (features: seq<Feature>, nextIdAfter: int)
    requires |geoms| > 0 && biggestIndex == BiggestIndex(k, geoms)
    ensures features == NumberedParts(k, template, geoms, nextId)
    ensures nextIdAfter == nextId + |geoms| - 1
  {
    features, nextIdAfter := [], nextId;
    ghost var numbered := NumberedParts(k, template, geoms, nextId);
    var i := 0;
    while i < |geoms|
      invariant 0 <= i <= |geoms|
      invariant features == numbered[..i]
      invariant nextIdAfter == nextId + i - (if i > biggestIndex then 1 else 0)
    {
      var fid: int;
      if i == biggestIndex {
        fid := template.fid;
      } else {
        fid := nextIdAfter;
        nextIdAfter := nextIdAfter + 1;
      }
      features := features + [NewPart(template, geoms[i], fid)];
      assert numbered[..i + 1] == numbered[..i] + [numbered[i]];
      i := i + 1;
    }
    assert numbered[..|geoms|] == numbered;
  }

  /**
   * `geomsToFeatures`: find the biggest part, number the parts while
   * advancing the id counter, then sort by fid.
   */
  method GeomsToFeatures(k: Kernel, template: Feature, geoms: seq<OlGeometry>, nextId: int)
    returns (features: seq<Feature>, nextIdAfter: int)
    ensures (features, nextIdAfter) == PartsAsFeatures(k, template, geoms, nextId)
  {
    features, nextIdAfter := [], nextId;
    if |geoms| > 0 {
      var biggestIndex := FindBiggest(k, geoms);
      features, nextIdAfter := NumberParts(k, template, geoms, nextId, biggestIndex);
      features := SortByFid(features);
    }
  }

  // ------------------------------------------------------- removeByGeometry

  /** `i` is the first position whose feature carries `geometry`. */
  predicate IsFirstWith(features: seq<Feature>, geometry: OlGeometry, i: nat) {
    && i < |features|
    && features[i].geometry == Some(geometry)
    && forall j :: 0 <= j < i ==> features[j].geometry != Some(geometry)
  }

  /**
   * `removeByGeometry`: splice out the first feature carrying `geometry`,
   * keeping the others in order; without one, nothing changes.
   */
  method RemoveByGeometry(features: seq<Feature>, geometry: OlGeometry) returns (remaining: seq<Feature>)
    ensures forall i: nat :: IsFirstWith(features, geometry, i) ==>
              remaining == features[..i] + features[i + 1..]
    ensures (forall i :: 0 <= i < |features| ==> features[i].geometry != Some(geometry)) ==>
              remaining == features
  {
    remaining := features;
    var i := 0;
    while i < |features|
      invariant 0 <= i <= |features|
      invariant forall j :: 0 <= j < i ==> features[j].geometry != Some(geometry)
    {
      if features[i].geometry == Some(geometry) {
        remaining := features[..i] + features[i + 1..];
        assert forall k: nat :: IsFirstWith(features, geometry, k) ==> k == i;
        return;
      }
      i := i + 1;
    }
  }
}
