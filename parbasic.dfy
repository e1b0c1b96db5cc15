/** The static-partition scheduler: contiguous slices of the tract list, one
    worker per slice accumulating private per-ZIP population lists, a
    serial reduction into one total per ZIP and a scatter of the totals back
    onto the zones. Workers run one after another here; the barrier is the
    end of the last one. */
module ParallelBasic {
  import opened Wrappers
  import opened Orb
  import opened Sequences
  import opened IntArith
  import opened Sequential

  // ---------------------------------------------------------------------------
  // Partition bounds
  // ---------------------------------------------------------------------------

  /** Worker `i` of `w` takes tracts [i*n/w, (i+1)*n/w); the last worker's end
      is forced to `n`. */
  function SliceBounds(i: nat, n: nat, w: nat): (b: (nat, nat))
    requires i < w
    ensures b.0 <= b.1 <= n
  {
    SliceBoundsOrdered(i, n, w);
    var start := i * n / w;
    var end := if i == w - 1 then n else (i + 1) * n / w;
    (start, end)
  }

  lemma SliceBoundsOrdered(i: nat, n: nat, w: nat)
    requires i < w
    ensures 0 <= i * n / w <= (i + 1) * n / w <= n
  {
    MulDivCancel(w, n);
    MulMonotone(0, i, n);
    MulMonotone(i, i + 1, n);
    MulMonotone(i + 1, w, n);
    assert w * n == n * w;
    DivMonotone(0, i * n, w);
    DivMonotone(i * n, (i + 1) * n, w);
    DivMonotone((i + 1) * n, w * n, w);
  }

  /** The first slice starts at 0, each slice ends where the next starts, the
      last ends at `n`, and forcing the last end to `n` changes nothing. */
  lemma SlicesAbut(n: nat, w: nat)
    requires w >= 1
    ensures SliceBounds(0, n, w).0 == 0
    ensures SliceBounds(w - 1, n, w).1 == n
    ensures w * n / w == n
    ensures forall i :: 0 <= i < w - 1 ==> SliceBounds(i, n, w).1 == SliceBounds(i + 1, n, w).0
  {
    MulDivCancel(w, n);
  }

  /** Slices are ordered: a slice before another ends no later than it starts. */
  lemma SlicesOrdered(n: nat, w: nat, i: nat, j: nat)
    requires i < j < w
    ensures SliceBounds(i, n, w).1 <= SliceBounds(j, n, w).0
  {
    MulMonotone(i + 1, j, n);
    MulMonotone(0, i + 1, n);
    DivMonotone((i + 1) * n, j * n, w);
  }

  /** Every tract index below `n` lies in exactly one slice. */
  lemma SlicesPartition(n: nat, w: nat, k: nat)
    requires w >= 1 && k < n
    ensures exists i :: 0 <= i < w && SliceBounds(i, n, w).0 <= k < SliceBounds(i, n, w).1
    ensures forall i, j ::
      (0 <= i < w && 0 <= j < w &&
       SliceBounds(i, n, w).0 <= k < SliceBounds(i, n, w).1 &&
       SliceBounds(j, n, w).0 <= k < SliceBounds(j, n, w).1) ==> i == j
  {
    SlicesAbut(n, w);
    SliceContaining(n, w, k, 0);
    forall i, j | 0 <= i < w && 0 <= j < w &&
      SliceBounds(i, n, w).0 <= k < SliceBounds(i, n, w).1 &&
      SliceBounds(j, n, w).0 <= k < SliceBounds(j, n, w).1
      ensures i == j
    {
      if i < j {
        SlicesOrdered(n, w, i, j);
      } else if j < i {
        SlicesOrdered(n, w, j, i);
      }
    }
  }

  lemma {:induction false} SliceContaining(n: nat, w: nat, k: nat, i: nat)
    requires w >= 1 && k < n && i < w
    requires SliceBounds(i, n, w).0 <= k
    ensures exists j :: i <= j < w && SliceBounds(j, n, w).0 <= k < SliceBounds(j, n, w).1
    decreases w - i
  {
    SlicesAbut(n, w);
    if SliceBounds(i, n, w).1 <= k {
      SliceContaining(n, w, k, i + 1);
    }
  }

  /** Every slice holds floor(n/w) or ceil(n/w) tracts. */
  lemma SliceLength(i: nat, n: nat, w: nat)
    requires i < w
    ensures var b := SliceBounds(i, n, w);
      b.1 - b.0 == n / w || b.1 - b.0 == CeilDiv(n, w)
  {
    CeilDivFloor(n, w);
    MulMonotone(0, i, n);
    assert (i + 1) * n == i * n + n;
    QuotientGain(i * n, n, w);
    if i == w - 1 {
      MulDivCancel(w, n);
      assert (i + 1) * n == w * n;
    }
  }

  /** The tracts of worker `i`. */
  function Slice(tracts: seq<CensusTract>, i: nat, w: nat): seq<CensusTract>
    requires i < w
  {
    var b := SliceBounds(i, |tracts|, w);
    tracts[b.0..b.1]
  }

  // ---------------------------------------------------------------------------
  // Worker: private per-ZIP lists
  // ---------------------------------------------------------------------------

  /** The list stored under `zip`; a missing key reads as the empty (nil) slice. */
  function Get(m: map<string, seq<int>>, zip: string): seq<int>
  {
    if zip in m then m[zip] else []
  }

  /** One tract recorded: its population is appended to the list of the ZIP of
      its first containing zone; an unmatched tract records nothing. */
  function Record(m: map<string, seq<int>>, zones: seq<ZipcodeArea>, tract: CensusTract, contains: Contains): map<string, seq<int>>
  {
    match FirstMatch(zones, tract.centroid, contains)
    case None => m
    case Some(i) => m[zones[i].zip := Get(m, zones[i].zip) + [tract.population]]
  }

  /** The lists after recording every tract in order. */
  function Recorded(m: map<string, seq<int>>, zones: seq<ZipcodeArea>, tracts: seq<CensusTract>, contains: Contains): map<string, seq<int>>
    decreases |tracts|
  {
    if tracts == [] then m
    else Record(Recorded(m, zones, tracts[..|tracts| - 1], contains), zones, tracts[|tracts| - 1], contains)
  }

  /** Whether the first zone containing the tract's centroid has ZIP `zip`. */
  predicate MatchesZip(zones: seq<ZipcodeArea>, tract: CensusTract, contains: Contains, zip: string)
  {
    var m := FirstMatch(zones, tract.centroid, contains);
    m.Some? && zones[m.value].zip == zip
  }

  /** The populations, in input order, of the tracts whose first containing
      zone has ZIP `zip`. */
  function ZipMatches(zones: seq<ZipcodeArea>, tracts: seq<CensusTract>, contains: Contains, zip: string): seq<int>
    decreases |tracts|
  {
    if tracts == [] then []
    else
      var last := tracts[|tracts| - 1];
      ZipMatches(zones, tracts[..|tracts| - 1], contains, zip) +
        (if MatchesZip(zones, last, contains, zip) then [last.population] else [])
  }

  lemma {:induction false} ZipMatchesAppend(zones: seq<ZipcodeArea>, s: seq<CensusTract>, t: seq<CensusTract>, contains: Contains, zip: string)
    ensures ZipMatches(zones, s + t, contains, zip) == ZipMatches(zones, s, contains, zip) + ZipMatches(zones, t, contains, zip)
    decreases |t|
  {
    if t == [] {
      assert s + t == s;
    } else {
      assert (s + t)[..|s + t| - 1] == s + t[..|t| - 1];
      ZipMatchesAppend(zones, s, t[..|t| - 1], contains, zip);
    }
  }

  /** Recording appends each matched tract's population exactly once, in
      order, to the list of its first zone's ZIP, and nothing for unmatched
      tracts; a key exists exactly when something was appended under it. */
  lemma {:induction false} RecordedLists(m: map<string, seq<int>>, zones: seq<ZipcodeArea>, tracts: seq<CensusTract>, contains: Contains, zip: string)
    ensures Get(Recorded(m, zones, tracts, contains), zip) == Get(m, zip) + ZipMatches(zones, tracts, contains, zip)
    ensures zip in Recorded(m, zones, tracts, contains) <==> zip in m || ZipMatches(zones, tracts, contains, zip) != []
    decreases |tracts|
  {
    if tracts != [] {
      var prefix, last := tracts[..|tracts| - 1], tracts[|tracts| - 1];
      var prev := Recorded(m, zones, prefix, contains);
      RecordedLists(m, zones, prefix, contains, zip);
      RecordStep(prev, zones, last, contains, zip);
      var added := if MatchesZip(zones, last, contains, zip) then [last.population] else [];
      assert ZipMatches(zones, tracts, contains, zip) == ZipMatches(zones, prefix, contains, zip) + added;
      assert Get(m, zip) + ZipMatches(zones, prefix, contains, zip) + added ==
        Get(m, zip) + (ZipMatches(zones, prefix, contains, zip) + added);
    }
  }

  /** Recording one tract appends its population under `zip` exactly when its
      first containing zone has that ZIP. */
  lemma RecordStep(m: map<string, seq<int>>, zones: seq<ZipcodeArea>, tract: CensusTract, contains: Contains, zip: string)
    ensures Get(Record(m, zones, tract, contains), zip) ==
      Get(m, zip) + (if MatchesZip(zones, tract, contains, zip) then [tract.population] else [])
    ensures zip in Record(m, zones, tract, contains) <==> zip in m || MatchesZip(zones, tract, contains, zip)
  {
  }

  /** A goroutine of the static-partition scheduler. */
  class Worker {
    const id: nat
    const censusTracts: seq<CensusTract>
    var populations: map<string, seq<int>>

    constructor (id: nat, censusTracts: seq<CensusTract>)
      ensures this.id == id && this.censusTracts == censusTracts
      ensures populations == map[]
    {
      this.id := id;
      this.censusTracts := censusTracts;
      populations := map[];
    }

    /** Worker.Start: scan the zones for each of its tracts and append the
        population under the first containing zone's ZIP. The zone list is
        only read. */
    method Start(zones: seq<ZipcodeArea>, contains: Contains)
      modifies this
      ensures populations == Recorded(old(populations), zones, censusTracts, contains)
    {
      for k := 0 to |censusTracts|
        invariant populations == Recorded(old(populations), zones, censusTracts[..k], contains)
      {
        assert censusTracts[..k + 1][..k] == censusTracts[..k];
        var tract := censusTracts[k];
        var found := FindFirstMatch(zones, tract.centroid, contains);
        if found.Some? {
          var zip := zones[found.value].zip;
          populations := populations[zip := Get(populations, zip) + [tract.population]];
        }
      }
      assert censusTracts[..|censusTracts|] == censusTracts;
    }
  }

  /** The lists of all `w` workers, each starting from an empty map. */
  function WorkerLists(zones: seq<ZipcodeArea>, tracts: seq<CensusTract>, w: nat, contains: Contains): (lists: seq<map<string, seq<int>>>)
    ensures |lists| == w
  {
    seq(w, k requires 0 <= k < w => Recorded(map[], zones, Slice(tracts, k, w), contains))
  }

  // ---------------------------------------------------------------------------
  // Reduction
  // ---------------------------------------------------------------------------

  /** The value stored under `zip`; a missing key reads as 0. */
  function Lookup(m: map<string, int>, zip: string): int
  {
    if zip in m then m[zip] else 0
  }

  /** The sum, over all workers, of every entry in their list for `zip`. */
  function TotalFor(lists: seq<map<string, seq<int>>>, zip: string): int
    decreases |lists|
  {
    if lists == [] then 0
    else TotalFor(lists[..|lists| - 1], zip) + Sum(Get(lists[|lists| - 1], zip))
  }

  /** Whether some worker appended an entry under `zip`. */
  predicate Appended(lists: seq<map<string, seq<int>>>, zip: string)
  {
    exists k :: 0 <= k < |lists| && zip in lists[k] && lists[k][zip] != []
  }

  function AllKeys(lists: seq<map<string, seq<int>>>): (keys: set<string>)
    ensures forall zip :: zip in keys <==> exists k :: 0 <= k < |lists| && zip in lists[k]
    decreases |lists|
  {
    if lists == [] then {}
    else
      var prefix := lists[..|lists| - 1];
      assert forall k :: 0 <= k < |prefix| ==> prefix[k] == lists[k];
      AllKeys(prefix) + lists[|lists| - 1].Keys
  }

  /** finalPopulation: one total per ZIP that some worker appended under. */
  function Reduced(lists: seq<map<string, seq<int>>>): (final: map<string, int>)
    ensures forall zip :: zip in final <==> Appended(lists, zip)
    ensures forall zip :: Lookup(final, zip) == (if Appended(lists, zip) then TotalFor(lists, zip) else 0)
  {
    map zip | zip in AllKeys(lists) && Appended(lists, zip) :: TotalFor(lists, zip)
  }

  lemma TotalForStep(lists: seq<map<string, seq<int>>>, k: nat)
    requires k < |lists|
    ensures forall zip :: TotalFor(lists[..k + 1], zip) == TotalFor(lists[..k], zip) + Sum(Get(lists[k], zip))
    ensures forall zip :: Appended(lists[..k + 1], zip) <==>
      Appended(lists[..k], zip) || (zip in lists[k] && lists[k][zip] != [])
  {
    assert lists[..k + 1][..k] == lists[..k];
    forall zip | Appended(lists[..k + 1], zip)
      ensures Appended(lists[..k], zip) || (zip in lists[k] && lists[k][zip] != [])
    {
      var j :| 0 <= j < k + 1 && zip in lists[..k + 1][j] && lists[..k + 1][j][zip] != [];
      if j < k {
        assert lists[..k][j] == lists[j];
      }
    }
    forall zip | Appended(lists[..k], zip)
      ensures Appended(lists[..k + 1], zip)
    {
      var j :| 0 <= j < k && zip in lists[..k][j] && lists[..k][j][zip] != [];
      assert lists[..k + 1][j] == lists[j];
    }
  }

  /** A ZIP no worker appended under totals 0. */
  lemma {:induction false} TotalForNotAppended(lists: seq<map<string, seq<int>>>, zip: string)
    requires !Appended(lists, zip)
    ensures TotalFor(lists, zip) == 0
    decreases |lists|
  {
    if lists != [] {
      var prefix := lists[..|lists| - 1];
      assert forall j :: 0 <= j < |prefix| ==> prefix[j] == lists[j];
      TotalForNotAppended(prefix, zip);
      assert Get(lists[|lists| - 1], zip) == [];
    }
  }

  /** The innermost reduction loop: add every entry of one list to
      finalPopulation[zip]; a key appears as soon as one entry is added. */
  method AddEntries(final: map<string, int>, zip: string, populations: seq<int>) returns (final': map<string, int>)
    ensures Lookup(final', zip) == Lookup(final, zip) + Sum(populations)
    ensures zip in final' <==> zip in final || populations != []
    ensures forall other :: other != zip ==>
      (other in final' <==> other in final) && Lookup(final', other) == Lookup(final, other)
  {
    final' := final;
    for j := 0 to |populations|
      invariant Lookup(final', zip) == Lookup(final, zip) + Sum(populations[..j])
      invariant zip in final' <==> zip in final || j > 0
      invariant forall other :: other != zip ==>
        (other in final' <==> other in final) && Lookup(final', other) == Lookup(final, other)
    {
      assert populations[..j + 1][..j] == populations[..j];
      final' := final'[zip := Lookup(final', zip) + populations[j]];
    }
    assert populations[..|populations|] == populations;
  }

  /** The middle reduction loop: fold one worker's lists into the totals,
      visiting its keys in an arbitrary order (Go's map order). */
  method AddWorker(final: map<string, int>, populations: map<string, seq<int>>) returns (final': map<string, int>)
    ensures forall zip :: Lookup(final', zip) == Lookup(final, zip) + Sum(Get(populations, zip))
    ensures forall zip :: zip in final' <==> zip in final || (zip in populations && populations[zip] != [])
  {
    final' := final;
    var remaining := populations.Keys;
    while remaining != {}
      invariant remaining <= populations.Keys
      invariant forall zip :: zip in populations && zip !in remaining ==>
        Lookup(final', zip) == Lookup(final, zip) + Sum(populations[zip]) &&
        (zip in final' <==> zip in final || populations[zip] != [])
      invariant forall zip :: (zip !in populations || zip in remaining) ==>
        Lookup(final', zip) == Lookup(final, zip) && (zip in final' <==> zip in final)
      decreases remaining
    {
      var zip :| zip in remaining;
      remaining := remaining - {zip};
      final' := AddEntries(final', zip, populations[zip]);
    }
  }

  /** The serial reduction: fold every worker's lists into finalPopulation. */
  method Reduce(lists: seq<map<string, seq<int>>>) returns (final: map<string, int>)
    ensures final == Reduced(lists)
  {
    final := map[];
    for k := 0 to |lists|
      invariant forall zip :: Lookup(final, zip) == TotalFor(lists[..k], zip)
      invariant forall zip :: zip in final <==> Appended(lists[..k], zip)
    {
      TotalForStep(lists, k);
      final := AddWorker(final, lists[k]);
    }
    assert lists[..|lists|] == lists;
    forall zip | zip in final
      ensures final[zip] == Reduced(lists)[zip]
    {
      assert Lookup(final, zip) == final[zip];
    }
  }

  // ---------------------------------------------------------------------------
  // Scatter
  // ---------------------------------------------------------------------------

  /** Each zone whose ZIP has a total takes that total as its PopSum; the
      others keep theirs. */
  function Scattered(zones: seq<ZipcodeArea>, final: map<string, int>): (r: seq<ZipcodeArea>)
    ensures SameLayout(zones, r)
    ensures forall i :: 0 <= i < |zones| ==>
      r[i].popSum == (if zones[i].zip in final then final[zones[i].zip] else zones[i].popSum)
  {
    seq(|zones|, i requires 0 <= i < |zones| =>
      if zones[i].zip in final then zones[i].(popSum := final[zones[i].zip]) else zones[i])
  }

  /** The output loop: overwrite PopSum in place from finalPopulation. */
  method Scatter(zones: array<ZipcodeArea>, final: map<string, int>)
    modifies zones
    ensures zones[..] == Scattered(old(zones[..]), final)
  {
    for i := 0 to zones.Length
      invariant forall j :: 0 <= j < i ==> zones[j] == Scattered(old(zones[..]), final)[j]
      invariant forall j :: i <= j < zones.Length ==> zones[j] == old(zones[j])
    {
      var zip := zones[i].zip;
      if zip in final {
        zones[i] := zones[i].(popSum := final[zip]);
      }
    }
  }

  // ---------------------------------------------------------------------------
  // The whole run
  // ---------------------------------------------------------------------------

  /** RunParallelBasic after loading: a negative thread count panics in make;
      otherwise slice, record, reduce and scatter. */
  method RunParallelBasic(tracts: seq<CensusTract>, zones: array<ZipcodeArea>, threadCount: int, contains: Contains)
    returns (r: Outcome<Panic>)
    modifies zones
    ensures r.Fail? <==> threadCount < 0
    ensures r.Fail? ==> r.error == MakeSliceLenOutOfRange && zones[..] == old(zones[..])
    ensures r.Pass? ==>
      zones[..] == Scattered(old(zones[..]), Reduced(WorkerLists(old(zones[..]), tracts, threadCount, contains)))
  {
    if threadCount < 0 {
      return Fail(MakeSliceLenOutOfRange);
    }
    var w: nat := threadCount;
    var n := |tracts|;
    ghost var loaded := zones[..];
    var lists: seq<map<string, seq<int>>> := [];
    for i := 0 to w
      invariant zones[..] == loaded
      invariant |lists| == i
      invariant forall k :: 0 <= k < i ==> lists[k] == Recorded(map[], loaded, Slice(tracts, k, w), contains)
    {
      var start := i * n / w;
      var end := (i + 1) * n / w;
      if i == w - 1 {
        end := n;
      }
      assert (start, end) == SliceBounds(i, n, w);
      var worker := new Worker(i, tracts[start..end]);
      worker.Start(zones[..], contains);
      lists := lists + [worker.populations];
    }
    assert lists == WorkerLists(loaded, tracts, w, contains) by {
      var spec := WorkerLists(loaded, tracts, w, contains);
      forall k | 0 <= k < w
        ensures lists[k] == spec[k]
      {
      }
    }
    var final := Reduce(lists);
    Scatter(zones, final);
    return Pass;
  }

  // ---------------------------------------------------------------------------
  // Agreement with the sequential join
  // ---------------------------------------------------------------------------

  /** Where the workers' slices end: 0 before any worker, `n` after the last. */
  function Boundary(n: nat, w: nat, k: nat): nat
    requires k <= w
  {
    if k == w then n else SliceBounds(k, n, w).0
  }

  /** Worker `k` holds the tracts between boundaries `k` and `k + 1`. */
  lemma SliceBetweenBoundaries(tracts: seq<CensusTract>, w: nat, k: nat)
    requires k < w
    ensures Boundary(|tracts|, w, k) <= Boundary(|tracts|, w, k + 1) <= |tracts|
    ensures Slice(tracts, k, w) == tracts[Boundary(|tracts|, w, k)..Boundary(|tracts|, w, k + 1)]
  {
  }

  lemma WorkerTotalStep(zones: seq<ZipcodeArea>, tracts: seq<CensusTract>, w: nat, contains: Contains, zip: string, k: nat)
    requires k < w
    ensures TotalFor(WorkerLists(zones, tracts, w, contains)[..k + 1], zip) ==
      TotalFor(WorkerLists(zones, tracts, w, contains)[..k], zip) + Sum(ZipMatches(zones, Slice(tracts, k, w), contains, zip))
  {
    var lists := WorkerLists(zones, tracts, w, contains);
    TotalForStep(lists, k);
    var slice := Slice(tracts, k, w);
    assert lists[k] == Recorded(map[], zones, slice, contains);
    RecordedLists(map[], zones, slice, contains, zip);
    assert Get(lists[k], zip) == ZipMatches(zones, slice, contains, zip);
  }

  /** The first `k` workers together hold the totals of the first `k` slices. */
  lemma {:induction false} TotalOverWorkers(zones: seq<ZipcodeArea>, tracts: seq<CensusTract>, w: nat, contains: Contains, zip: string, k: nat)
    requires 1 <= w && k <= w
    ensures Boundary(|tracts|, w, k) <= |tracts|
    ensures TotalFor(WorkerLists(zones, tracts, w, contains)[..k], zip) ==
      Sum(ZipMatches(zones, tracts[..Boundary(|tracts|, w, k)], contains, zip))
    decreases k
  {
    if k == 0 {
      assert Boundary(|tracts|, w, 0) == 0;
    } else {
      TotalOverWorkers(zones, tracts, w, contains, zip, k - 1);
      WorkerSliceAdds(zones, tracts, w, contains, zip, k);
    }
  }

  /** Adding worker `k - 1` extends the covered prefix from boundary `k - 1`
      to boundary `k`. */
  lemma WorkerSliceAdds(zones: seq<ZipcodeArea>, tracts: seq<CensusTract>, w: nat, contains: Contains, zip: string, k: nat)
    requires 1 <= k <= w
    requires Boundary(|tracts|, w, k - 1) <= |tracts|
    requires TotalFor(WorkerLists(zones, tracts, w, contains)[..k - 1], zip) ==
      Sum(ZipMatches(zones, tracts[..Boundary(|tracts|, w, k - 1)], contains, zip))
    ensures Boundary(|tracts|, w, k) <= |tracts|
    ensures TotalFor(WorkerLists(zones, tracts, w, contains)[..k], zip) ==
      Sum(ZipMatches(zones, tracts[..Boundary(|tracts|, w, k)], contains, zip))
  {
    var n := |tracts|;
    var lists := WorkerLists(zones, tracts, w, contains);
    var lo, hi := Boundary(n, w, k - 1), Boundary(n, w, k);
    assert lo <= hi <= n by {
      SliceBetweenBoundaries(tracts, w, k - 1);
    }
    var next := Sum(ZipMatches(zones, tracts[lo..hi], contains, zip));
    assert TotalFor(lists[..k], zip) == TotalFor(lists[..k - 1], zip) + next by {
      SliceBetweenBoundaries(tracts, w, k - 1);
      WorkerTotalStep(zones, tracts, w, contains, zip, k - 1);
    }
    PrefixSums(zones, tracts, lo, hi, contains, zip);
  }

  /** The matches of a prefix followed by the next segment are the matches of
      the longer prefix. */
  lemma PrefixSums(zones: seq<ZipcodeArea>, tracts: seq<CensusTract>, lo: nat, hi: nat, contains: Contains, zip: string)
    requires lo <= hi <= |tracts|
    ensures Sum(ZipMatches(zones, tracts[..lo], contains, zip)) + Sum(ZipMatches(zones, tracts[lo..hi], contains, zip)) ==
      Sum(ZipMatches(zones, tracts[..hi], contains, zip))
  {
    SumAppend(ZipMatches(zones, tracts[..lo], contains, zip), ZipMatches(zones, tracts[lo..hi], contains, zip));
    ZipMatchesAppend(zones, tracts[..lo], tracts[lo..hi], contains, zip);
    assert tracts[..lo] + tracts[lo..hi] == tracts[..hi];
  }

  /** From zones as loaded (every PopSum 0), every zone ends with the
      population of all tracts whose first containing zone has its ZIP; zones
      sharing a ZIP therefore both receive the combined total. */
  lemma ParallelBasicZipTotals(zones: seq<ZipcodeArea>, tracts: seq<CensusTract>, w: nat, contains: Contains, i: nat)
    requires w >= 1 && i < |zones|
    requires forall j :: 0 <= j < |zones| ==> zones[j].popSum == 0
    ensures Scattered(zones, Reduced(WorkerLists(zones, tracts, w, contains)))[i].popSum ==
      Sum(ZipMatches(zones, tracts, contains, zones[i].zip))
  {
    var lists := WorkerLists(zones, tracts, w, contains);
    var zip := zones[i].zip;
    TotalOverWorkers(zones, tracts, w, contains, zip, w);
    assert lists[..w] == lists;
    assert tracts[..|tracts|] == tracts;
    if !Appended(lists, zip) {
      TotalForNotAppended(lists, zip);
    }
  }

  predicate DistinctZips(zones: seq<ZipcodeArea>)
  {
    forall i, j :: 0 <= i < j < |zones| ==> zones[i].zip != zones[j].zip
  }

  /** With distinct ZIPs, the tracts matched to a zone's ZIP are exactly the
      tracts matched to that zone. */
  lemma {:induction false} ZipMatchesDistinct(zones: seq<ZipcodeArea>, tracts: seq<CensusTract>, contains: Contains, i: nat)
    requires DistinctZips(zones) && i < |zones|
    ensures Sum(ZipMatches(zones, tracts, contains, zones[i].zip)) == MatchedPopulation(zones, tracts, contains, i)
    decreases |tracts|
  {
    if tracts != [] {
      var prefix, last := tracts[..|tracts| - 1], tracts[|tracts| - 1];
      ZipMatchesDistinct(zones, prefix, contains, i);
      var extra := if MatchesZip(zones, last, contains, zones[i].zip) then [last.population] else [];
      SumAppend(ZipMatches(zones, prefix, contains, zones[i].zip), extra);
      assert MatchesZip(zones, last, contains, zones[i].zip) <==> FirstMatch(zones, last.centroid, contains) == Some(i);
    }
  }

  /** With pairwise-distinct ZIPs, any worker count of at least one and zones
      as loaded, the static-partition scheduler computes the same zones as
      the sequential loop. */
  lemma ParallelBasicMatchesSequential(zones: seq<ZipcodeArea>, tracts: seq<CensusTract>, w: nat, contains: Contains)
    requires w >= 1 && DistinctZips(zones)
    requires forall j :: 0 <= j < |zones| ==> zones[j].popSum == 0
    ensures Scattered(zones, Reduced(WorkerLists(zones, tracts, w, contains))) == Aggregated(zones, tracts, contains)
  {
    var par := Scattered(zones, Reduced(WorkerLists(zones, tracts, w, contains)));
    var sq := Aggregated(zones, tracts, contains);
    forall i | 0 <= i < |zones|
      ensures par[i] == sq[i]
    {
      ParallelBasicZipTotals(zones, tracts, w, contains, i);
      ZipMatchesDistinct(zones, tracts, contains, i);
      LoadedZonesPopSum(zones, tracts, contains, i);
    }
  }

  /** With no workers nothing is recorded and every zone keeps its sum. */
  lemma NoWorkersChangeNothing(zones: seq<ZipcodeArea>, tracts: seq<CensusTract>, contains: Contains)
    ensures Scattered(zones, Reduced(WorkerLists(zones, tracts, 0, contains))) == zones
  {
    var final := Reduced(WorkerLists(zones, tracts, 0, contains));
    assert forall zip :: zip !in final;
  }
}
