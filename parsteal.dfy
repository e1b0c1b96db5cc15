/** The work-stealing scheduler: one bounded deque per worker, a producer that
    deals tract i to deque i % w, and workers that pop their own deque and,
    when that yields nothing, steal the oldest item of the first other deque
    that has one. The run is modelled as one interleaving: the producer
    finishes first, then the workers run to completion one after another.
    Each worker pops with the rule it is given: the Pop as written, which is
    what the source runs, or the corrected one. */
module ParallelSteal {
  import opened Wrappers
  import opened Orb
  import opened IntArith
  import opened Sequential
  import opened WorkDeque
  import opened StealSchedule

  // ---------------------------------------------------------------------------
  // Several deques at once
  // ---------------------------------------------------------------------------

  function Buffers(ds: seq<Deque>): set<object>
  {
    set k | 0 <= k < |ds| :: ds[k].buffer
  }

  ghost predicate AllValid(ds: seq<Deque>)
    reads ds, Buffers(ds)
  {
    forall k :: 0 <= k < |ds| ==> ds[k].Valid()
  }

  /** No two deques are the same object or share a buffer. */
  ghost predicate Disjoint(ds: seq<Deque>)
  {
    forall i, j :: 0 <= i < j < |ds| ==> ds[i] != ds[j] && ds[i].buffer != ds[j].buffer
  }

  ghost function ContentsOf(ds: seq<Deque>): (cs: seq<seq<Work>>)
    reads ds, Buffers(ds)
    requires AllValid(ds)
    ensures |cs| == |ds|
    ensures forall k :: 0 <= k < |ds| ==> cs[k] == ds[k].Contents()
  {
    seq(|ds|, k requires 0 <= k < |ds| && AllValid(ds) reads ds, Buffers(ds) => ds[k].Contents())
  }

  /** Deque j's Pop (as written or corrected), seen from the list of all deques. */
  method PopAt(ds: seq<Deque>, j: nat, rule: PopRule) returns (work: Option<Work>)
    requires j < |ds| && Disjoint(ds) && AllValid(ds)
    modifies ds[j]
    ensures AllValid(ds)
    ensures work == PopResult(rule, old(ds[j].Contents()))
    ensures ContentsOf(ds) == old(ContentsOf(ds))[j := PopRest(rule, old(ds[j].Contents()))]
  {
    if rule == AsWritten {
      work := ds[j].Pop();
    } else {
      work := ds[j].PopCorrected();
    }
    forall k | 0 <= k < |ds| && k != j
      ensures ds[k].Valid() && ds[k].Contents() == old(ds[k].Contents())
    {
    }
  }

  /** Deque j's Steal, seen from the list of all deques. */
  method StealAt(ds: seq<Deque>, j: nat) returns (work: Option<Work>)
    requires j < |ds| && Disjoint(ds) && AllValid(ds)
    modifies ds[j]
    ensures AllValid(ds)
    ensures work == if old(ds[j].Contents()) == [] then None else Some(old(ds[j].Contents())[0])
    ensures ContentsOf(ds) == old(ContentsOf(ds))[j := if work.None? then old(ds[j].Contents()) else old(ds[j].Contents())[1..]]
  {
    work := ds[j].Steal();
    forall k | 0 <= k < |ds| && k != j
      ensures ds[k].Valid() && ds[k].Contents() == old(ds[k].Contents())
    {
    }
  }

  /** Deque j's Push, seen from the list of all deques. */
  method PushAt(ds: seq<Deque>, j: nat, work: Work) returns (r: Outcome<Panic>)
    requires j < |ds| && Disjoint(ds) && AllValid(ds)
    modifies ds[j], ds[j].buffer
    ensures AllValid(ds)
    ensures r.Pass? <==> |old(ds[j].Contents())| < DequeSize
    ensures r.Fail? ==> r.error == DequeOverflow
    ensures r.Pass? ==> ContentsOf(ds) == old(ContentsOf(ds))[j := old(ds[j].Contents()) + [work]]
  {
    r := ds[j].Push(work);
    forall k | 0 <= k < |ds| && k != j
      ensures ds[k].Valid() && ds[k].Contents() == old(ds[k].Contents())
    {
    }
  }

  // ---------------------------------------------------------------------------
  // The worker
  // ---------------------------------------------------------------------------

  class ThiefWorker {
    const id: nat
    const deque: Deque
    const others: seq<Deque>
    const zipcodeAreas: array<ZipcodeArea>
    const rule: PopRule

    /** The worker's deque is entry `id` of the list every worker shares. */
    ghost predicate Valid()
      reads others, Buffers(others)
    {
      id < |others| && others[id] == deque && Disjoint(others) && AllValid(others)
    }

    constructor (id: nat, deque: Deque, others: seq<Deque>, zipcodeAreas: array<ZipcodeArea>, rule: PopRule)
      ensures this.id == id && this.deque == deque && this.others == others
      ensures this.zipcodeAreas == zipcodeAreas && this.rule == rule
    {
      this.id := id;
      this.deque := deque;
      this.others := others;
      this.zipcodeAreas := zipcodeAreas;
      this.rule := rule;
    }

    /** process: the tract's population goes to the first zone containing its
        centroid (under the shared mutex in the original). */
    method Process(work: Work, contains: Contains)
      requires Valid()
      modifies zipcodeAreas
      ensures zipcodeAreas[..] == AddTract(old(zipcodeAreas[..]), work.tract, contains)
      ensures Valid() && ContentsOf(others) == old(ContentsOf(others))
    {
      var found := FindFirstMatch(zipcodeAreas[..], work.tract.centroid, contains);
      if found.Some? {
        var i := found.value;
        zipcodeAreas[i] := zipcodeAreas[i].(popSum := zipcodeAreas[i].popSum + work.tract.population);
      }
    }

    /** The inner loop of Start: try each other deque in order and keep the
        first item stolen. */
    method TrySteal() returns (work: Option<Work>)
      requires Valid()
      modifies others
      ensures Valid()
      ensures FirstVictim(old(ContentsOf(others)), id, 0).None? ==>
        work.None? && ContentsOf(others) == old(ContentsOf(others))
      ensures FirstVictim(old(ContentsOf(others)), id, 0).Some? ==>
        var cs, j := old(ContentsOf(others)), FirstVictim(old(ContentsOf(others)), id, 0).value;
        work == Some(cs[j][0]) && ContentsOf(others) == cs[j := cs[j][1..]]
    {
      ghost var cs := ContentsOf(others);
      work := None;
      var j := 0;
      while j < |others|
        invariant 0 <= j <= |others| && Valid() && work.None?
        invariant ContentsOf(others) == cs
        invariant FirstVictim(cs, id, j) == FirstVictim(cs, id, 0)
      {
        if others[j] == deque {
          j := j + 1;
          continue;
        }
        work := StealAt(others, j);
        if work.Some? {
          return;
        }
        j := j + 1;
      }
    }

    /** The first half of each round of Start: pop own work; on nil, try
        to steal. */
    method NextWork() returns (work: Option<Work>)
      requires Valid()
      modifies others
      ensures Valid()
      ensures work.None? ==> Run(old(ContentsOf(others)), id, rule) == []
      ensures work.None? ==> forall k :: 0 <= k < |others| ==> others[k].Contents() == []
      ensures work.Some? ==> Run(old(ContentsOf(others)), id, rule) == [work.value] + Run(ContentsOf(others), id, rule)
      ensures work.Some? ==> TotalSize(ContentsOf(others)) < old(TotalSize(ContentsOf(others)))
      ensures zipcodeAreas[..] == old(zipcodeAreas[..])
    {
      ghost var cs := ContentsOf(others);
      work := PopAt(others, id, rule);
      if work.None? {
        assert ContentsOf(others) == cs[id := []];
        work := TrySteal();
        if work.None? {
          RunStops(cs, id, rule);
          return;
        }
        var j := FirstVictim(cs[id := []], id, 0).value;
        assert ContentsOf(others) == cs[id := []][j := cs[j][1..]];
        StolenStep(cs, id, rule, j);
      } else {
        assert ContentsOf(others) == cs[id := PopRest(rule, cs[id])];
        PoppedStep(cs, id, rule);
      }
    }

    /** Start: take work until there is none left, processing each item. */
    method Start(contains: Contains)
      requires Valid()
      modifies others, zipcodeAreas
      ensures Valid()
      ensures forall k :: 0 <= k < |others| ==> others[k].Contents() == []
      ensures zipcodeAreas[..] == Aggregated(old(zipcodeAreas[..]), TractsOf(Run(old(ContentsOf(others)), id, rule)), contains)
    {
      ghost var initial := ContentsOf(others);
      ghost var done: seq<Work> := [];
      while true
        invariant Valid() && initial == old(ContentsOf(others))
        invariant done + Run(ContentsOf(others), id, rule) == Run(initial, id, rule)
        invariant zipcodeAreas[..] == Aggregated(old(zipcodeAreas[..]), TractsOf(done), contains)
        decreases TotalSize(ContentsOf(others))
      {
        ghost var before := ContentsOf(others);
        var work := NextWork();
        if work.None? {
          assert done + Run(before, id, rule) == done;
          return;
        }
        ghost var after := ContentsOf(others);
        Process(work.value, contains);
        AggregatedWorks(old(zipcodeAreas[..]), done, work.value, contains);
        ProgressStep(done, work.value, Run(before, id, rule), Run(after, id, rule), Run(initial, id, rule));
        done := done + [work.value];
      }
    }
  }

  /** A round in which Pop hands out an item. */
  lemma PoppedStep(cs: seq<seq<Work>>, id: nat, rule: PopRule)
    requires id < |cs| && PopResult(rule, cs[id]).Some?
    ensures Run(cs, id, rule) == [PopResult(rule, cs[id]).value] + Run(cs[id := PopRest(rule, cs[id])], id, rule)
    ensures TotalSize(cs[id := PopRest(rule, cs[id])]) < TotalSize(cs)
  {
    TotalSizeUpdate(cs, id, PopRest(rule, cs[id]));
    RunPops(cs, id, rule);
  }

  /** A round in which Pop finds nothing and deque j is robbed. */
  lemma StolenStep(cs: seq<seq<Work>>, id: nat, rule: PopRule, j: nat)
    requires id < |cs| && PopResult(rule, cs[id]).None?
    requires FirstVictim(cs[id := []], id, 0) == Some(j)
    ensures Run(cs, id, rule) == [cs[j][0]] + Run(cs[id := []][j := cs[j][1..]], id, rule)
    ensures TotalSize(cs[id := []][j := cs[j][1..]]) < TotalSize(cs)
  {
    var emptied := cs[id := []];
    TotalSizeUpdate(cs, id, []);
    TotalSizeUpdate(emptied, j, cs[j][1..]);
    RunSteals(cs, id, rule, j);
  }

  /** The invariant of Start's loop, over the runs as plain sequences: the
      solver need not unfold Run to move one item from the schedule to the
      processed prefix. */
  lemma ProgressStep(done: seq<Work>, x: Work, before: seq<Work>, after: seq<Work>, total: seq<Work>)
    requires done + before == total && before == [x] + after
    ensures (done + [x]) + after == total
  {
  }

  lemma AggregatedWorks(zones: seq<ZipcodeArea>, done: seq<Work>, x: Work, contains: Contains)
    ensures Aggregated(zones, TractsOf(done + [x]), contains) == AddTract(Aggregated(zones, TractsOf(done), contains), x.tract, contains)
  {
    assert TractsOf(done + [x])[..|done|] == TractsOf(done);
  }

  // ---------------------------------------------------------------------------
  // The producer
  // ---------------------------------------------------------------------------

  /** The producer loop: tract i goes onto deque i % w. With no deques the
      remainder is a division by zero; a push onto a full deque panics. */
  method Produce(deques: seq<Deque>, tracts: seq<CensusTract>) returns (r: Outcome<Panic>)
    requires Disjoint(deques) && AllValid(deques)
    requires forall k :: 0 <= k < |deques| ==> deques[k].Contents() == []
    modifies deques, Buffers(deques)
    ensures AllValid(deques)
    ensures |deques| == 0 ==> (r.Pass? <==> tracts == []) && (r.Fail? ==> r.error == IntegerDivideByZero)
    ensures |deques| > 0 ==> (r.Pass? <==> CeilDiv(|tracts|, |deques|) <= DequeSize)
    ensures |deques| > 0 && r.Fail? ==> r.error == DequeOverflow
    ensures r.Pass? && |deques| > 0 ==> ContentsOf(deques) == DealtAll(tracts, |deques|)
  {
    var w := |deques|;
    if w > 0 {
      assert ContentsOf(deques) == DealtAll(tracts[..0], w);
    }
    for i := 0 to |tracts|
      invariant AllValid(deques)
      invariant w == 0 ==> i == 0
      invariant w > 0 ==> ContentsOf(deques) == DealtAll(tracts[..i], w) && i <= DequeSize * w
    {
      if w == 0 {
        return Fail(IntegerDivideByZero);
      }
      var j := i % w;
      DealtLoad(tracts, i, w, DequeSize);
      r := PushAt(deques, j, Work(tracts[i]));
      if r.Fail? {
        CeilDivAtMost(|tracts|, w, DequeSize);
        return;
      }
      DealtPush(tracts, i, w);
    }
    r := Pass;
    if w > 0 {
      assert tracts[..|tracts|] == tracts;
      CeilDivAtMost(|tracts|, w, DequeSize);
    }
  }

  // ---------------------------------------------------------------------------
  // The whole run
  // ---------------------------------------------------------------------------

  /** The deques of RunParallelSteal, one per worker, each empty. */
  method NewDeques(w: nat) returns (deques: seq<Deque>)
    ensures |deques| == w && Disjoint(deques) && AllValid(deques)
    ensures forall k :: 0 <= k < w ==> fresh(deques[k]) && fresh(deques[k].buffer)
    ensures forall k :: 0 <= k < w ==> deques[k].Contents() == []
  {
    deques := [];
    for i := 0 to w
      invariant |deques| == i && Disjoint(deques) && AllValid(deques)
      invariant forall k :: 0 <= k < i ==> fresh(deques[k]) && fresh(deques[k].buffer)
      invariant forall k :: 0 <= k < i ==> deques[k].Contents() == []
    {
      var d := new Deque();
      deques := deques + [d];
    }
  }

  /** The workers of RunParallelSteal: worker i owns deque i and sees them all. */
  method NewWorkers(deques: seq<Deque>, zones: array<ZipcodeArea>, rule: PopRule) returns (workers: seq<ThiefWorker>)
    ensures |workers| == |deques|
    ensures forall k :: 0 <= k < |deques| ==> workers[k].id == k && workers[k].deque == deques[k]
    ensures forall k :: 0 <= k < |deques| ==> workers[k].others == deques && workers[k].zipcodeAreas == zones
    ensures forall k :: 0 <= k < |deques| ==> workers[k].rule == rule
  {
    workers := [];
    for i := 0 to |deques|
      invariant |workers| == i
      invariant forall k :: 0 <= k < i ==> workers[k].id == k && workers[k].deque == deques[k]
      invariant forall k :: 0 <= k < i ==> workers[k].others == deques && workers[k].zipcodeAreas == zones
      invariant forall k :: 0 <= k < i ==> workers[k].rule == rule
    {
      var worker := new ThiefWorker(i, deques[i], deques, zones, rule);
      workers := workers + [worker];
    }
  }

  /** Once the producer is done: run every worker to completion, in order.
      Worker 0 drains everything; the others find every deque empty. */
  method RunWorkers(workers: seq<ThiefWorker>, deques: seq<Deque>, tracts: seq<CensusTract>, zones: array<ZipcodeArea>,
                    rule: PopRule, contains: Contains)
    requires |workers| == |deques| > 0 && Disjoint(deques) && AllValid(deques)
    requires forall k :: 0 <= k < |deques| ==> workers[k].id == k && workers[k].deque == deques[k]
    requires forall k :: 0 <= k < |deques| ==> workers[k].others == deques && workers[k].zipcodeAreas == zones
    requires forall k :: 0 <= k < |deques| ==> workers[k].rule == rule
    requires ContentsOf(deques) == DealtAll(tracts, |deques|)
    modifies deques, zones
    ensures zones[..] == Aggregated(old(zones[..]), TractsOf(StealOrder(tracts, |deques|, rule)), contains)
  {
    var w := |deques|;
    for i := 0 to w
      invariant AllValid(deques)
      invariant i == 0 ==> zones[..] == old(zones[..]) && ContentsOf(deques) == DealtAll(tracts, w)
      invariant i > 0 ==> forall k :: 0 <= k < w ==> deques[k].Contents() == []
      invariant i > 0 ==> zones[..] == Aggregated(old(zones[..]), TractsOf(StealOrder(tracts, w, rule)), contains)
    {
      ghost var cs := ContentsOf(deques);
      workers[i].Start(contains);
      if i > 0 {
        RunAllEmpty(cs, i, rule);
        assert TractsOf([]) == [];
      }
    }
  }

  /** The body of RunParallelSteal with the workers' Pop rule as a parameter:
      make the deques and the workers, deal the tracts, then let the workers
      drain every deque. */
  method RunParallelStealWith(tracts: seq<CensusTract>, zones: array<ZipcodeArea>, threadCount: int, rule: PopRule, contains: Contains)
    returns (r: Outcome<Panic>)
    modifies zones
    ensures threadCount < 0 ==> r == Fail(MakeSliceLenOutOfRange) && zones[..] == old(zones[..])
    ensures threadCount == 0 ==> (r.Pass? <==> tracts == []) && (r.Fail? ==> r.error == IntegerDivideByZero)
    ensures threadCount > 0 ==> (r.Pass? <==> CeilDiv(|tracts|, threadCount) <= DequeSize)
    ensures threadCount > 0 && r.Fail? ==> r.error == DequeOverflow
    ensures r.Pass? ==>
      threadCount >= 0 &&
      zones[..] == Aggregated(old(zones[..]), TractsOf(StealOrder(tracts, threadCount, rule)), contains)
  {
    if threadCount < 0 {
      return Fail(MakeSliceLenOutOfRange);
    }
    var w := threadCount;
    var deques := NewDeques(w);
    var workers := NewWorkers(deques, zones, rule);
    r := Produce(deques, tracts);
    if r.Fail? {
      return;
    }
    if w > 0 {
      RunWorkers(workers, deques, tracts, zones, rule, contains);
    } else {
      assert TractsOf([]) == [];
    }
  }

  /** RunParallelSteal as written. Because of its Pop, the zones miss exactly
      one tract's population whenever there is a tract. */
  method RunParallelSteal(tracts: seq<CensusTract>, zones: array<ZipcodeArea>, threadCount: int, contains: Contains)
    returns (r: Outcome<Panic>)
    modifies zones
    ensures threadCount < 0 ==> r == Fail(MakeSliceLenOutOfRange) && zones[..] == old(zones[..])
    ensures threadCount == 0 ==> (r.Pass? <==> tracts == []) && (r.Fail? ==> r.error == IntegerDivideByZero)
    ensures threadCount > 0 ==> (r.Pass? <==> CeilDiv(|tracts|, threadCount) <= DequeSize)
    ensures threadCount > 0 && r.Fail? ==> r.error == DequeOverflow
    ensures r.Pass? && tracts == [] ==> zones[..] == old(zones[..])
    ensures r.Pass? && tracts != [] ==>
      threadCount > 0 &&
      zones[..] == Aggregated(old(zones[..]), WithoutLost(tracts, threadCount), contains) &&
      AddTract(zones[..], tracts[LostIndex(|tracts|, threadCount)], contains) == Aggregated(old(zones[..]), tracts, contains)
  {
    r := RunParallelStealWith(tracts, zones, threadCount, AsWritten, contains);
    if r.Pass? {
      if tracts == [] {
        if threadCount > 0 {
          RunAllEmpty(DealtAll(tracts, threadCount), 0, AsWritten);
        }
        assert TractsOf([]) == [];
      } else {
        ParallelStealAsWritten(old(zones[..]), tracts, threadCount, contains);
        LostTractCompletes(old(zones[..]), tracts, threadCount, contains);
      }
    }
  }

  /** RunParallelSteal with the corrected Pop: the zones are those of the
      sequential run. */
  method RunParallelStealCorrected(tracts: seq<CensusTract>, zones: array<ZipcodeArea>, threadCount: int, contains: Contains)
    returns (r: Outcome<Panic>)
    modifies zones
    ensures threadCount < 0 ==> r == Fail(MakeSliceLenOutOfRange) && zones[..] == old(zones[..])
    ensures threadCount == 0 ==> (r.Pass? <==> tracts == []) && (r.Fail? ==> r.error == IntegerDivideByZero)
    ensures threadCount > 0 ==> (r.Pass? <==> CeilDiv(|tracts|, threadCount) <= DequeSize)
    ensures threadCount > 0 && r.Fail? ==> r.error == DequeOverflow
    ensures r.Pass? ==> zones[..] == Aggregated(old(zones[..]), tracts, contains)
  {
    r := RunParallelStealWith(tracts, zones, threadCount, Corrected, contains);
    if r.Pass? && threadCount > 0 {
      ParallelStealCorrectedMatchesSequential(old(zones[..]), tracts, threadCount, contains);
    }
  }
}
