/** The sequential join of census tracts to zip-code areas: the records, the
    first-match rule, the in-place aggregation loop, and the loader's
    MultiPolygon merge and `PopSum: 0` initialisation. This is the reference
    the two parallel schedulers are compared with. */
module Sequential {
  import opened Wrappers
  import opened Orb
  import opened Sequences

  /** A census tract: its centroid and its population. */
  datatype CensusTract = CensusTract(centroid: Point, population: int)

  /** A zip-code area: its polygon, its ZIP and the population summed into it. */
  datatype ZipcodeArea = ZipcodeArea(polygon: Polygon, zip: string, popSum: int)

  /** Same zone count and order, same polygons and ZIPs; only PopSum may differ. */
  ghost predicate SameLayout(a: seq<ZipcodeArea>, b: seq<ZipcodeArea>)
  {
    |a| == |b| &&
    forall j :: 0 <= j < |a| ==> a[j].polygon == b[j].polygon && a[j].zip == b[j].zip
  }

  // ---------------------------------------------------------------------------
  // The first-match rule
  // ---------------------------------------------------------------------------

  function FirstMatchFrom(zones: seq<ZipcodeArea>, pt: Point, contains: Contains, k: nat): (r: Option<nat>)
    requires k <= |zones|
    ensures r.Some? ==> k <= r.value < |zones| && contains(zones[r.value].polygon, pt)
    ensures r.Some? ==> forall j :: k <= j < r.value ==> !contains(zones[j].polygon, pt)
    ensures r.None? ==> forall j :: k <= j < |zones| ==> !contains(zones[j].polygon, pt)
    decreases |zones| - k
  {
    if k == |zones| then None
    else if contains(zones[k].polygon, pt) then Some(k)
    else FirstMatchFrom(zones, pt, contains, k + 1)
  }

  /** The index of the first zone, in list order, whose polygon contains `pt`;
      None when no polygon contains it. */
  function FirstMatch(zones: seq<ZipcodeArea>, pt: Point, contains: Contains): (r: Option<nat>)
    ensures r.Some? ==> r.value < |zones| && contains(zones[r.value].polygon, pt)
    ensures r.Some? ==> forall j :: 0 <= j < r.value ==> !contains(zones[j].polygon, pt)
    ensures r.None? <==> forall j :: 0 <= j < |zones| ==> !contains(zones[j].polygon, pt)
  {
    FirstMatchFrom(zones, pt, contains, 0)
  }

  /** The first match depends only on the polygons, not on the sums. */
  lemma FirstMatchLayout(a: seq<ZipcodeArea>, b: seq<ZipcodeArea>, pt: Point, contains: Contains)
    requires SameLayout(a, b)
    ensures FirstMatch(a, pt, contains) == FirstMatch(b, pt, contains)
  {
    var ra, rb := FirstMatch(a, pt, contains), FirstMatch(b, pt, contains);
    if ra.Some? && rb.Some? {
      assert !(ra.value < rb.value) && !(rb.value < ra.value);
    }
  }

  /** The inner scan of each scheduler: walk the zones in order and stop at the
      first one whose polygon contains the point. */
  method FindFirstMatch(zones: seq<ZipcodeArea>, pt: Point, contains: Contains) returns (found: Option<nat>)
    ensures found == FirstMatch(zones, pt, contains)
  {
    for i := 0 to |zones|
      invariant forall j :: 0 <= j < i ==> !contains(zones[j].polygon, pt)
    {
      if contains(zones[i].polygon, pt) {
        return Some(i);
      }
    }
    return None;
  }

  // ---------------------------------------------------------------------------
  // Aggregation
  // ---------------------------------------------------------------------------

  /** One tract joined: its population goes to its first containing zone and
      to no other; a tract no polygon contains changes nothing. */
  function AddTract(zones: seq<ZipcodeArea>, tract: CensusTract, contains: Contains): (r: seq<ZipcodeArea>)
    ensures SameLayout(zones, r)
    ensures forall j :: 0 <= j < |zones| ==>
      r[j].popSum == zones[j].popSum +
        (if FirstMatch(zones, tract.centroid, contains) == Some(j) then tract.population else 0)
  {
    match FirstMatch(zones, tract.centroid, contains)
    case None => zones
    case Some(i) => zones[i := zones[i].(popSum := zones[i].popSum + tract.population)]
  }

  /** The zones after joining every tract in input order. */
  function Aggregated(zones: seq<ZipcodeArea>, tracts: seq<CensusTract>, contains: Contains): (r: seq<ZipcodeArea>)
    ensures SameLayout(zones, r)
    decreases |tracts|
  {
    if tracts == [] then zones
    else AddTract(Aggregated(zones, tracts[..|tracts| - 1], contains), tracts[|tracts| - 1], contains)
  }

  /** RunSequential's aggregation loop over the zone slice, updated in place. */
  method RunSequential(tracts: seq<CensusTract>, zones: array<ZipcodeArea>, contains: Contains)
    modifies zones
    ensures zones[..] == Aggregated(old(zones[..]), tracts, contains)
  {
    for k := 0 to |tracts|
      invariant zones[..] == Aggregated(old(zones[..]), tracts[..k], contains)
    {
      assert tracts[..k + 1][..k] == tracts[..k];
      var tract := tracts[k];
      var found := FindFirstMatch(zones[..], tract.centroid, contains);
      if found.Some? {
        var i := found.value;
        zones[i] := zones[i].(popSum := zones[i].popSum + tract.population);
      }
    }
    assert tracts[..|tracts|] == tracts;
  }

  // ---------------------------------------------------------------------------
  // What aggregation computes
  // ---------------------------------------------------------------------------

  /** The population of the tracts whose first containing zone is zone `i`. */
  function MatchedPopulation(zones: seq<ZipcodeArea>, tracts: seq<CensusTract>, contains: Contains, i: nat): int
    decreases |tracts|
  {
    if tracts == [] then 0
    else
      var last := tracts[|tracts| - 1];
      MatchedPopulation(zones, tracts[..|tracts| - 1], contains, i) +
        (if FirstMatch(zones, last.centroid, contains) == Some(i) then last.population else 0)
  }

  /** Each final PopSum is the starting sum plus the population of exactly the
      tracts whose first containing zone it is. */
  lemma {:induction false} AggregatedPopSum(zones: seq<ZipcodeArea>, tracts: seq<CensusTract>, contains: Contains, i: nat)
    requires i < |zones|
    ensures Aggregated(zones, tracts, contains)[i].popSum == zones[i].popSum + MatchedPopulation(zones, tracts, contains, i)
    decreases |tracts|
  {
    if tracts != [] {
      var prefix := tracts[..|tracts| - 1];
      var last := tracts[|tracts| - 1];
      AggregatedPopSum(zones, prefix, contains, i);
      FirstMatchLayout(zones, Aggregated(zones, prefix, contains), last.centroid, contains);
    }
  }

  /** Zones as loaded (every PopSum 0) end with exactly their matched population. */
  lemma LoadedZonesPopSum(zones: seq<ZipcodeArea>, tracts: seq<CensusTract>, contains: Contains, i: nat)
    requires i < |zones|
    requires forall j :: 0 <= j < |zones| ==> zones[j].popSum == 0
    ensures Aggregated(zones, tracts, contains)[i].popSum == MatchedPopulation(zones, tracts, contains, i)
  {
    AggregatedPopSum(zones, tracts, contains, i);
  }

  /** A tract that no polygon contains leaves every zone as it was. */
  lemma UnmatchedTractChangesNothing(zones: seq<ZipcodeArea>, tract: CensusTract, contains: Contains)
    requires forall j :: 0 <= j < |zones| ==> !contains(zones[j].polygon, tract.centroid)
    ensures AddTract(zones, tract, contains) == zones
  {
  }

  // ---------------------------------------------------------------------------
  // Conservation
  // ---------------------------------------------------------------------------

  function PopSums(zones: seq<ZipcodeArea>): (r: seq<int>)
    ensures |r| == |zones| && forall j :: 0 <= j < |zones| ==> r[j] == zones[j].popSum
  {
    seq(|zones|, j requires 0 <= j < |zones| => zones[j].popSum)
  }

  function TotalPopulation(tracts: seq<CensusTract>): int
    decreases |tracts|
  {
    if tracts == [] then 0
    else TotalPopulation(tracts[..|tracts| - 1]) + tracts[|tracts| - 1].population
  }

  /** The population of the tracts that some zone contains. */
  function MatchedTotal(zones: seq<ZipcodeArea>, tracts: seq<CensusTract>, contains: Contains): int
    decreases |tracts|
  {
    if tracts == [] then 0
    else
      var last := tracts[|tracts| - 1];
      MatchedTotal(zones, tracts[..|tracts| - 1], contains) +
        (if FirstMatch(zones, last.centroid, contains).Some? then last.population else 0)
  }

  lemma {:induction false} SumUpdate(s: seq<int>, i: nat, v: int)
    requires i < |s|
    ensures Sum(s[i := v]) == Sum(s) - s[i] + v
    decreases |s|
  {
    var t := s[i := v];
    if i < |s| - 1 {
      assert t[..|t| - 1] == s[..|s| - 1][i := v];
      SumUpdate(s[..|s| - 1], i, v);
    } else {
      assert t[..|t| - 1] == s[..|s| - 1];
    }
  }

  lemma AddTractTotal(zones: seq<ZipcodeArea>, tract: CensusTract, contains: Contains)
    ensures Sum(PopSums(AddTract(zones, tract, contains))) ==
      Sum(PopSums(zones)) + (if FirstMatch(zones, tract.centroid, contains).Some? then tract.population else 0)
  {
    var m := FirstMatch(zones, tract.centroid, contains);
    if m.Some? {
      var i := m.value;
      assert PopSums(AddTract(zones, tract, contains)) == PopSums(zones)[i := zones[i].popSum + tract.population];
      SumUpdate(PopSums(zones), i, zones[i].popSum + tract.population);
    } else {
      assert PopSums(AddTract(zones, tract, contains)) == PopSums(zones);
    }
  }

  /** Summed over all zones, aggregation adds exactly the population of the
      tracts that some zone contains. */
  lemma {:induction false} AggregatedConserves(zones: seq<ZipcodeArea>, tracts: seq<CensusTract>, contains: Contains)
    ensures Sum(PopSums(Aggregated(zones, tracts, contains))) == Sum(PopSums(zones)) + MatchedTotal(zones, tracts, contains)
    decreases |tracts|
  {
    if tracts != [] {
      var prefix := tracts[..|tracts| - 1];
      var last := tracts[|tracts| - 1];
      AggregatedConserves(zones, prefix, contains);
      FirstMatchLayout(zones, Aggregated(zones, prefix, contains), last.centroid, contains);
      AddTractTotal(Aggregated(zones, prefix, contains), last, contains);
    }
  }

  /** With non-negative populations the matched total never exceeds the input
      total, and reaches it when every centroid lies in some zone; when every
      population is positive it reaches it only then. */
  lemma {:induction false} MatchedTotalBounds(zones: seq<ZipcodeArea>, tracts: seq<CensusTract>, contains: Contains)
    requires forall k :: 0 <= k < |tracts| ==> tracts[k].population >= 0
    ensures MatchedTotal(zones, tracts, contains) <= TotalPopulation(tracts)
    ensures (forall k :: 0 <= k < |tracts| ==> FirstMatch(zones, tracts[k].centroid, contains).Some?) ==>
      MatchedTotal(zones, tracts, contains) == TotalPopulation(tracts)
    ensures (forall k :: 0 <= k < |tracts| ==> tracts[k].population > 0) ==>
      (MatchedTotal(zones, tracts, contains) == TotalPopulation(tracts) <==>
       forall k :: 0 <= k < |tracts| ==> FirstMatch(zones, tracts[k].centroid, contains).Some?)
    decreases |tracts|
  {
    if tracts != [] {
      var prefix := tracts[..|tracts| - 1];
      MatchedTotalBounds(zones, prefix, contains);
      assert forall k :: 0 <= k < |prefix| ==> prefix[k] == tracts[k];
    }
  }

  // ---------------------------------------------------------------------------
  // Order independence
  // ---------------------------------------------------------------------------

  lemma AddTractCommutes(zones: seq<ZipcodeArea>, a: CensusTract, b: CensusTract, contains: Contains)
    ensures AddTract(AddTract(zones, a, contains), b, contains) == AddTract(AddTract(zones, b, contains), a, contains)
  {
    var za, zb := AddTract(zones, a, contains), AddTract(zones, b, contains);
    FirstMatchLayout(zones, za, b.centroid, contains);
    FirstMatchLayout(zones, zb, a.centroid, contains);
    var r1, r2 := AddTract(za, b, contains), AddTract(zb, a, contains);
    assert forall j :: 0 <= j < |r1| ==> r1[j] == r2[j];
  }

  lemma {:induction false} AggregatedAppend(zones: seq<ZipcodeArea>, s: seq<CensusTract>, t: seq<CensusTract>, contains: Contains)
    ensures Aggregated(zones, s + t, contains) == Aggregated(Aggregated(zones, s, contains), t, contains)
    decreases |t|
  {
    if t == [] {
      assert s + t == s;
    } else {
      assert (s + t)[..|s + t| - 1] == s + t[..|t| - 1];
      AggregatedAppend(zones, s, t[..|t| - 1], contains);
    }
  }

  /** Joining one tract first or last gives the same zones. */
  lemma {:induction false} AggregatedShift(zones: seq<ZipcodeArea>, x: CensusTract, t: seq<CensusTract>, contains: Contains)
    ensures Aggregated(AddTract(zones, x, contains), t, contains) == AddTract(Aggregated(zones, t, contains), x, contains)
    decreases |t|
  {
    if t != [] {
      var prefix := t[..|t| - 1];
      AggregatedShift(zones, x, prefix, contains);
      AddTractCommutes(Aggregated(zones, prefix, contains), x, t[|t| - 1], contains);
    }
  }

  /** A tract in the middle of the input may as well come last. */
  lemma MoveToEnd(zones: seq<ZipcodeArea>, before: seq<CensusTract>, x: CensusTract, after: seq<CensusTract>, contains: Contains)
    ensures Aggregated(zones, before + [x] + after, contains) ==
      AddTract(Aggregated(zones, before + after, contains), x, contains)
  {
    var zb := Aggregated(zones, before, contains);
    AggregatedAppend(zones, before, after, contains);
    AggregatedShift(zb, x, after, contains);
    assert (before + [x])[..|before|] == before;
    AggregatedAppend(zones, before + [x], after, contains);
  }

  lemma MultisetRemoveLast<T>(s: seq<T>, t: seq<T>, k: nat)
    requires |s| > 0 && k < |t| && t[k] == s[|s| - 1]
    requires multiset(s) == multiset(t)
    ensures multiset(s[..|s| - 1]) == multiset(t[..k] + t[k + 1..])
  {
    var x := s[|s| - 1];
    assert s == s[..|s| - 1] + [x];
    SplitAt(t, k);
    assert multiset(s[..|s| - 1]) == multiset(s) - multiset{x};
    assert multiset(t[..k] + t[k + 1..]) == multiset(t) - multiset{x};
  }

  /** The result does not depend on the order of the tracts. */
  lemma {:induction false} OrderIndependent(zones: seq<ZipcodeArea>, s: seq<CensusTract>, t: seq<CensusTract>, contains: Contains)
    requires multiset(s) == multiset(t)
    ensures Aggregated(zones, s, contains) == Aggregated(zones, t, contains)
    decreases |s|
  {
    if s == [] {
      assert |t| == |multiset(t)| == 0;
    } else {
      var x := s[|s| - 1];
      assert x in multiset(t);
      var k :| 0 <= k < |t| && t[k] == x;
      var rest := t[..k] + t[k + 1..];
      MultisetRemoveLast(s, t, k);
      OrderIndependent(zones, s[..|s| - 1], rest, contains);
      assert Aggregated(zones, t, contains) == AddTract(Aggregated(zones, rest, contains), x, contains) by {
        MoveToEnd(zones, t[..k], x, t[k + 1..], contains);
        SplitAt(t, k);
      }
    }
  }

  // ---------------------------------------------------------------------------
  // Loading zip-code areas
  // ---------------------------------------------------------------------------

  /** The rings of every part, in part order. */
  function Flatten(parts: MultiPolygon): Polygon
    decreases |parts|
  {
    if parts == [] then [] else Flatten(parts[..|parts| - 1]) + parts[|parts| - 1]
  }

  function RingCount(parts: MultiPolygon): nat
    decreases |parts|
  {
    if parts == [] then 0 else RingCount(parts[..|parts| - 1]) + |parts[|parts| - 1]|
  }

  /** The merged polygon holds as many rings as all the parts together. */
  lemma {:induction false} FlattenLength(parts: MultiPolygon)
    ensures |Flatten(parts)| == RingCount(parts)
    decreases |parts|
  {
    if parts != [] {
      FlattenLength(parts[..|parts| - 1]);
    }
  }

  /** Ring `r` of part `p` sits in the merged polygon right after the rings
      of the parts before `p`. */
  lemma {:induction false} FlattenRing(parts: MultiPolygon, p: nat, r: nat)
    requires p < |parts| && r < |parts[p]|
    ensures RingCount(parts[..p]) + r < |Flatten(parts)|
    ensures Flatten(parts)[RingCount(parts[..p]) + r] == parts[p][r]
    decreases |parts|
  {
    var prefix := parts[..|parts| - 1];
    FlattenLength(prefix);
    FlattenLength(parts);
    assert Flatten(parts) == Flatten(prefix) + parts[|parts| - 1];
    if p < |prefix| {
      assert prefix[..p] == parts[..p];
      assert prefix[p] == parts[p];
      FlattenRing(prefix, p, r);
    } else {
      assert parts[..p] == prefix;
    }
  }

  /** loadZipcodeAreas's merge loop: append the rings of each part in turn. */
  method MergeMultiPolygon(parts: MultiPolygon) returns (merged: Polygon)
    ensures merged == Flatten(parts)
    ensures |merged| == RingCount(parts)
  {
    merged := [];
    for i := 0 to |parts|
      invariant merged == Flatten(parts[..i])
    {
      assert parts[..i + 1][..i] == parts[..i];
      merged := merged + parts[i];
    }
    assert parts[..|parts|] == parts;
    FlattenLength(parts);
  }

  /** A GeoJSON feature of the zip-code file: its geometry and its ZCTA5CE20
      property, None when that property is missing or not a string. */
  datatype Feature = Feature(geometry: Geometry, zip: Option<string>)

  /** Why loading stops: the ZIP property's type assertion panics, or the
      geometry is neither a Polygon nor a MultiPolygon (a fatal log call). */
  datatype LoadError = MissingZip | InvalidGeometry(zip: string)

  /** The fatal error a feature causes, if any. Every branch of the loader
      evaluates the ZIP assertion, so a missing ZIP wins over a bad geometry. */
  function FeatureError(f: Feature): Option<LoadError>
  {
    if f.zip.None? then Some(MissingZip)
    else if f.geometry.OtherGeometry? then Some(InvalidGeometry(f.zip.value))
    else None
  }

  /** The polygon a loadable feature contributes. */
  function PolygonOf(g: Geometry): Polygon
    requires !g.OtherGeometry?
  {
    match g
    case PolygonGeometry(p) => p
    case MultiPolygonGeometry(parts) => Flatten(parts)
  }

  /** loadZipcodeAreas after decoding: one zone per feature, in feature order,
      each starting at PopSum 0; the first feature with no ZIP or an unusable
      geometry stops the load with its error. */
  method LoadZipcodeAreas(features: seq<Feature>) returns (r: Result<seq<ZipcodeArea>, LoadError>)
    ensures r.Success? <==> forall k :: 0 <= k < |features| ==> FeatureError(features[k]).None?
    ensures r.Failure? ==>
      exists k :: 0 <= k < |features| && FeatureError(features[k]) == Some(r.error) &&
                  forall j :: 0 <= j < k ==> FeatureError(features[j]).None?
    ensures r.Success? ==> |r.value| == |features|
    ensures r.Success? ==>
      forall i :: 0 <= i < |features| ==>
        r.value[i] == ZipcodeArea(PolygonOf(features[i].geometry), features[i].zip.value, 0)
  {
    var areas: seq<ZipcodeArea> := [];
    for i := 0 to |features|
      invariant |areas| == i
      invariant forall j :: 0 <= j < i ==> FeatureError(features[j]).None?
      invariant forall j :: 0 <= j < i ==>
        areas[j] == ZipcodeArea(PolygonOf(features[j].geometry), features[j].zip.value, 0)
    {
      var f := features[i];
      match f.geometry
      case PolygonGeometry(p) =>
        if f.zip.None? {
          return Failure(MissingZip);
        }
        areas := areas + [ZipcodeArea(p, f.zip.value, 0)];
      case MultiPolygonGeometry(parts) =>
        var merged := MergeMultiPolygon(parts);
        if f.zip.None? {
          return Failure(MissingZip);
        }
        areas := areas + [ZipcodeArea(merged, f.zip.value, 0)];
      case OtherGeometry =>
        if f.zip.None? {
          return Failure(MissingZip);
        }
        return Failure(InvalidGeometry(f.zip.value));
    }
    return Success(areas);
  }
}
