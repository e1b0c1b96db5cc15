/** The schedule of the work-stealing run, on values: what the producer
    deals to each deque and the order in which a worker running alone takes
    the items, under the Pop as written or the corrected one. */
module StealSchedule {
  import opened Wrappers
  import opened Orb
  import opened Sequences
  import opened IntArith
  import opened Sequential
  import opened WorkDeque

  function TractsOf(ws: seq<Work>): (ts: seq<CensusTract>)
    ensures |ts| == |ws|
    ensures forall i :: 0 <= i < |ws| ==> ts[i] == ws[i].tract
  {
    seq(|ws|, i requires 0 <= i < |ws| => ws[i].tract)
  }

  function WorksOf(tracts: seq<CensusTract>): (ws: seq<Work>)
    ensures |ws| == |tracts|
    ensures forall i :: 0 <= i < |tracts| ==> ws[i] == Work(tracts[i])
  {
    seq(|tracts|, i requires 0 <= i < |tracts| => Work(tracts[i]))
  }

  /** Each tract occurs in TractsOf(ws) as often as its work occurs in ws. */
  lemma {:induction false} TractsOfCount(ws: seq<Work>, t: CensusTract)
    ensures multiset(TractsOf(ws))[t] == multiset(ws)[Work(t)]
    decreases |ws|
  {
    if ws != [] {
      var prefix := ws[..|ws| - 1];
      TractsOfCount(prefix, t);
      assert ws == prefix + [ws[|ws| - 1]];
      assert TractsOf(ws) == TractsOf(prefix) + [ws[|ws| - 1].tract];
    }
  }

  lemma TractsOfPermutation(a: seq<Work>, b: seq<Work>)
    requires multiset(a) == multiset(b)
    ensures multiset(TractsOf(a)) == multiset(TractsOf(b))
  {
    forall t: CensusTract
      ensures multiset(TractsOf(a))[t] == multiset(TractsOf(b))[t]
    {
      TractsOfCount(a, t);
      TractsOfCount(b, t);
    }
  }

  /** The total number of items in all deques. */
  function TotalSize(cs: seq<seq<Work>>): nat
  {
    if cs == [] then 0 else TotalSize(DropLast(cs)) + |cs[|cs| - 1]|
  }

  lemma {:induction false} TotalSizeUpdate(cs: seq<seq<Work>>, j: nat, c: seq<Work>)
    requires j < |cs|
    ensures TotalSize(cs[j := c]) == TotalSize(cs) - |cs[j]| + |c|
    decreases |cs|
  {
    var n := |cs| - 1;
    if j == n {
      assert DropLast(cs[j := c]) == DropLast(cs);
    } else {
      assert DropLast(cs[j := c]) == DropLast(cs)[j := c];
      TotalSizeUpdate(DropLast(cs), j, c);
    }
  }

  /** The items of all deques, deque by deque, oldest first. */
  function Concat(cs: seq<seq<Work>>): seq<Work>
  {
    if cs == [] then [] else cs[0] + Concat(cs[1..])
  }

  lemma {:induction false} ConcatAllEmpty(cs: seq<seq<Work>>)
    requires forall k :: 0 <= k < |cs| ==> cs[k] == []
    ensures Concat(cs) == []
    decreases |cs|
  {
    if cs != [] {
      ConcatAllEmpty(cs[1..]);
    }
  }

  /** Replacing one deque's items replaces them in the whole multiset. */
  lemma {:induction false} ConcatUpdate(cs: seq<seq<Work>>, j: nat, c: seq<Work>)
    requires j < |cs|
    ensures multiset(Concat(cs[j := c])) + multiset(cs[j]) == multiset(Concat(cs)) + multiset(c)
    decreases j
  {
    if j == 0 {
      assert cs[j := c][1..] == cs[1..];
    } else {
      var rest := cs[1..];
      assert cs[j := c][1..] == rest[j - 1 := c];
      assert Concat(cs[j := c]) == cs[0] + Concat(rest[j - 1 := c]);
      ConcatUpdate(rest, j - 1, c);
      assert cs[j] == rest[j - 1];
      calc {
        multiset(Concat(cs[j := c])) + multiset(cs[j]);
        multiset(cs[0]) + multiset(Concat(rest[j - 1 := c])) + multiset(rest[j - 1]);
        multiset(cs[0]) + (multiset(Concat(rest[j - 1 := c])) + multiset(rest[j - 1]));
        multiset(cs[0]) + (multiset(Concat(rest)) + multiset(c));
        multiset(cs[0]) + multiset(Concat(rest)) + multiset(c);
        multiset(Concat(cs)) + multiset(c);
      }
    }
  }

  lemma MultisetCancel(a: multiset<Work>, b: multiset<Work>, c: multiset<Work>, d: multiset<Work>)
    requires a + c == b + (c + d)
    ensures a == b + d
  {
    forall o
      ensures a[o] == (b + d)[o]
    {
      assert (a + c)[o] == (b + (c + d))[o];
    }
  }

  /** When the deques before j are empty, the first item overall is the oldest
      item of deque j. */
  lemma {:induction false} ConcatFirst(cs: seq<seq<Work>>, j: nat)
    requires j < |cs| && cs[j] != []
    requires forall k :: 0 <= k < j ==> cs[k] == []
    ensures Concat(cs) == [cs[j][0]] + Concat(cs[j := cs[j][1..]])
    decreases j
  {
    if j == 0 {
      assert cs[j := cs[j][1..]][1..] == cs[1..];
    } else {
      assert cs[j := cs[j][1..]][1..] == cs[1..][j - 1 := cs[j][1..]];
      ConcatFirst(cs[1..], j - 1);
    }
  }

  // ---------------------------------------------------------------------------
  // What one worker does
  // ---------------------------------------------------------------------------

  /** Which Pop the owner uses: the one in the source, or the corrected one. */
  datatype PopRule = AsWritten | Corrected

  /** What the owner's Pop returns. */
  function PopResult(rule: PopRule, c: seq<Work>): Option<Work>
  {
    match rule
    case AsWritten => PopValue(c)
    case Corrected => if c == [] then None else Some(c[|c| - 1])
  }

  /** What the owner's Pop leaves in its deque. */
  function PopRest(rule: PopRule, c: seq<Work>): (r: seq<Work>)
    ensures |r| <= |c|
    ensures PopResult(rule, c).Some? ==> |r| == |c| - 1
    ensures PopResult(rule, c).None? ==> r == []
  {
    match rule
    case AsWritten => AfterPop(c)
    case Corrected => DropLast(c)
  }

  /** The items of its own deque the owner ever gets: all but the newest under
      the Pop as written, all of them under the corrected one. */
  function Kept(rule: PopRule, c: seq<Work>): seq<Work>
  {
    match rule
    case AsWritten => DropLast(c)
    case Corrected => c
  }

  /** The first deque at or after j, other than the worker's own, holding an item. */
  function FirstVictim(cs: seq<seq<Work>>, self: nat, j: nat): (r: Option<nat>)
    requires j <= |cs|
    ensures r.Some? ==> j <= r.value < |cs| && r.value != self && cs[r.value] != []
    ensures r.Some? ==> forall k :: j <= k < r.value && k != self ==> cs[k] == []
    ensures r.None? ==> forall k :: j <= k < |cs| && k != self ==> cs[k] == []
    decreases |cs| - j
  {
    if j == |cs| then None
    else if j != self && cs[j] != [] then Some(j)
    else FirstVictim(cs, self, j + 1)
  }

  /** The works a worker processes, in order, running alone from deque contents
      cs until it finds no work: Pop its own deque; on nil, steal the oldest
      item of the first other non-empty deque; stop when there is none. */
  function Run(cs: seq<seq<Work>>, self: nat, rule: PopRule): seq<Work>
    requires self < |cs|
    decreases TotalSize(cs)
  {
    var own := cs[self];
    var rest := cs[self := PopRest(rule, own)];
    TotalSizeUpdate(cs, self, PopRest(rule, own));
    match PopResult(rule, own)
    case Some(x) => [x] + Run(rest, self, rule)
    case None =>
      match FirstVictim(rest, self, 0)
      case None => []
      case Some(j) =>
        TotalSizeUpdate(rest, j, rest[j][1..]);
        [rest[j][0]] + Run(rest[j := rest[j][1..]], self, rule)
  }

  /** Emptying a deque after an update is emptying it outright; kept as a lemma
      so that RunOrderPops does not reason about sequence updates itself. */
  lemma UpdateTwice<T>(s: seq<T>, i: nat, a: T, b: T)
    requires i < |s|
    ensures s[i := a][i := b] == s[i := b]
  {
  }

  lemma RunPops(cs: seq<seq<Work>>, self: nat, rule: PopRule)
    requires self < |cs| && PopResult(rule, cs[self]).Some?
    ensures Run(cs, self, rule) ==
      [PopResult(rule, cs[self]).value] + Run(cs[self := PopRest(rule, cs[self])], self, rule)
  {
  }

  lemma RunSteals(cs: seq<seq<Work>>, self: nat, rule: PopRule, j: nat)
    requires self < |cs| && PopResult(rule, cs[self]).None?
    requires FirstVictim(cs[self := []], self, 0) == Some(j)
    ensures Run(cs, self, rule) == [cs[j][0]] + Run(cs[self := []][j := cs[j][1..]], self, rule)
  {
  }

  lemma RunStops(cs: seq<seq<Work>>, self: nat, rule: PopRule)
    requires self < |cs| && PopResult(rule, cs[self]).None?
    requires FirstVictim(cs[self := []], self, 0) == None
    ensures Run(cs, self, rule) == []
  {
  }

  /** Each successful Pop hands out the newest item the owner will ever get. */
  lemma KeptStep(rule: PopRule, c: seq<Work>)
    requires PopResult(rule, c).Some?
    ensures Reversed(Kept(rule, c)) == [PopResult(rule, c).value] + Reversed(Kept(rule, PopRest(rule, c)))
  {
    var n := |c|;
    match rule
    case AsWritten =>
      assert c[..n - 1] == c[..n - 2] + [c[n - 2]];
      assert c[..n - 1][..n - 2] == c[..n - 2];
      ReversedSnoc(c[..n - 2], c[n - 2]);
    case Corrected =>
      ReversedSnoc(DropLast(c), c[n - 1]);
  }

  lemma KeptNone(rule: PopRule, c: seq<Work>)
    requires PopResult(rule, c).None?
    ensures Kept(rule, c) == []
  {
  }

  lemma RunOrderPops(cs: seq<seq<Work>>, self: nat, rule: PopRule)
    requires self < |cs| && PopResult(rule, cs[self]).Some?
    requires Run(cs[self := PopRest(rule, cs[self])], self, rule) ==
      Reversed(Kept(rule, PopRest(rule, cs[self]))) + Concat(cs[self := PopRest(rule, cs[self])][self := []])
    ensures Run(cs, self, rule) == Reversed(Kept(rule, cs[self])) + Concat(cs[self := []])
  {
    var own := cs[self];
    var x := PopResult(rule, own).value;
    var rest := cs[self := PopRest(rule, own)];
    var later := Reversed(Kept(rule, PopRest(rule, own)));
    var others := Concat(cs[self := []]);
    assert Run(rest, self, rule) == later + others by {
      UpdateTwice(cs, self, PopRest(rule, own), []);
    }
    assert Run(cs, self, rule) == [x] + Run(rest, self, rule) by {
      RunPops(cs, self, rule);
    }
    assert Reversed(Kept(rule, own)) == [x] + later by {
      KeptStep(rule, own);
    }
    assert [x] + (later + others) == ([x] + later) + others;
  }

  lemma RunOrderSteals(cs: seq<seq<Work>>, self: nat, rule: PopRule, j: nat)
    requires self < |cs| && PopResult(rule, cs[self]).None?
    requires FirstVictim(cs[self := []], self, 0) == Some(j)
    requires Run(cs[self := []][j := cs[j][1..]], self, rule) ==
      Reversed(Kept(rule, cs[self := []][j := cs[j][1..]][self])) + Concat(cs[self := []][j := cs[j][1..]][self := []])
    ensures Run(cs, self, rule) == Reversed(Kept(rule, cs[self])) + Concat(cs[self := []])
  {
    var empty := cs[self := []];
    var rest := empty[j := cs[j][1..]];
    assert Run(rest, self, rule) == Concat(rest) by {
      assert rest[self] == [];
      assert rest[self := []] == rest;
      assert Kept(rule, rest[self]) == [];
    }
    assert Run(cs, self, rule) == [cs[j][0]] + Run(rest, self, rule) by {
      RunSteals(cs, self, rule, j);
    }
    assert Concat(empty) == [cs[j][0]] + Concat(rest) by {
      assert empty[j] == cs[j];
      ConcatFirst(empty, j);
    }
    KeptNone(rule, cs[self]);
    assert Reversed(Kept(rule, cs[self])) == [];
  }

  /** A worker takes the items it keeps of its own deque newest first, then
      every other deque's items oldest first, deque by deque. */
  lemma {:induction false} RunOrder(cs: seq<seq<Work>>, self: nat, rule: PopRule)
    requires self < |cs|
    ensures Run(cs, self, rule) == Reversed(Kept(rule, cs[self])) + Concat(cs[self := []])
    decreases TotalSize(cs)
  {
    var own := cs[self];
    if PopResult(rule, own).Some? {
      TotalSizeUpdate(cs, self, PopRest(rule, own));
      RunOrder(cs[self := PopRest(rule, own)], self, rule);
      RunOrderPops(cs, self, rule);
    } else {
      var empty := cs[self := []];
      assert empty == cs[self := PopRest(rule, own)];
      var victim := FirstVictim(empty, self, 0);
      if victim.None? {
        RunStops(cs, self, rule);
        KeptNone(rule, own);
        ConcatAllEmpty(empty);
      } else {
        var j := victim.value;
        TotalSizeUpdate(cs, self, []);
        TotalSizeUpdate(empty, j, empty[j][1..]);
        assert empty[j] == cs[j];
        RunOrder(empty[j := cs[j][1..]], self, rule);
        RunOrderSteals(cs, self, rule, j);
      }
    }
  }

  /** Every item of every deque is processed exactly once, except the items of
      its own deque the owner does not keep. */
  lemma RunCovers(cs: seq<seq<Work>>, self: nat, rule: PopRule)
    requires self < |cs|
    ensures multiset(Run(cs, self, rule)) == multiset(Concat(cs[self := Kept(rule, cs[self])]))
  {
    var kept := Kept(rule, cs[self]);
    var rest := Concat(cs[self := []]);
    RunItems(cs, self, rule);
    ConcatRefill(cs, self, kept);
    assert multiset(kept) + multiset(rest) == multiset(rest) + multiset(kept);
  }

  lemma RunItems(cs: seq<seq<Work>>, self: nat, rule: PopRule)
    requires self < |cs|
    ensures multiset(Run(cs, self, rule)) == multiset(Kept(rule, cs[self])) + multiset(Concat(cs[self := []]))
  {
    RunOrder(cs, self, rule);
    ReversedFacts(Kept(rule, cs[self]));
  }

  /** Putting items into an emptied deque adds exactly those items. */
  lemma ConcatRefill(cs: seq<seq<Work>>, j: nat, c: seq<Work>)
    requires j < |cs|
    ensures multiset(Concat(cs[j := c])) == multiset(Concat(cs[j := []])) + multiset(c)
  {
    var empty := cs[j := []];
    ConcatUpdate(empty, j, c);
    assert empty[j := c] == cs[j := c];
    assert multiset(empty[j]) == multiset{};
  }

  /** A worker that finds every deque empty processes nothing. */
  lemma RunAllEmpty(cs: seq<seq<Work>>, self: nat, rule: PopRule)
    requires self < |cs|
    requires forall k :: 0 <= k < |cs| ==> cs[k] == []
    ensures Run(cs, self, rule) == []
  {
    RunOrder(cs, self, rule);
    assert Kept(rule, []) == [];
    ConcatAllEmpty(cs[self := []]);
  }

  // ---------------------------------------------------------------------------
  // The producer
  // ---------------------------------------------------------------------------

  /** The works the producer pushes onto deque j of w: the tracts whose index
      leaves remainder j when divided by w, in input order. */
  function Dealt(tracts: seq<CensusTract>, w: nat, j: nat): seq<Work>
    requires w > 0
  {
    if tracts == [] then []
    else Dealt(DropLast(tracts), w, j) + (if (|tracts| - 1) % w == j then [Work(tracts[|tracts| - 1])] else [])
  }

  function DealtAll(tracts: seq<CensusTract>, w: nat): (cs: seq<seq<Work>>)
    requires w > 0
    ensures |cs| == w
    ensures forall j :: 0 <= j < w ==> cs[j] == Dealt(tracts, w, j)
  {
    seq(w, j requires 0 <= j < w => Dealt(tracts, w, j))
  }

  /** Deque j receives as many works as there are indices below |tracts| with
      remainder j, and its m-th work is tract j + m * w. */
  lemma {:induction false} DealtItems(tracts: seq<CensusTract>, w: nat, j: nat)
    requires j < w
    ensures |Dealt(tracts, w, j)| == CountBelow(|tracts|, w, j)
    ensures forall m :: 0 <= m < |Dealt(tracts, w, j)| ==>
      j + m * w < |tracts| && Dealt(tracts, w, j)[m] == Work(tracts[j + m * w])
    decreases |tracts|
  {
    if tracts == [] {
      CountBelowZero(w, j);
    } else {
      var n := |tracts| - 1;
      var prefix := DropLast(tracts);
      DealtItems(prefix, w, j);
      CountBelowStep(n, w, j);
    }
  }

  /** Pushing tract n onto deque n % w. */
  lemma DealtAllStep(tracts: seq<CensusTract>, w: nat)
    requires w > 0 && tracts != []
    ensures DealtAll(tracts, w) ==
      DealtAll(DropLast(tracts), w)[(|tracts| - 1) % w := Dealt(DropLast(tracts), w, (|tracts| - 1) % w) + [Work(tracts[|tracts| - 1])]]
  {
    var prefix, j := DropLast(tracts), (|tracts| - 1) % w;
    var a := DealtAll(tracts, w);
    var b := DealtAll(prefix, w)[j := Dealt(prefix, w, j) + [Work(tracts[|tracts| - 1])]];
    forall k | 0 <= k < w
      ensures a[k] == b[k]
    {
      assert a[k] == Dealt(prefix, w, k) + (if j == k then [Work(tracts[|tracts| - 1])] else []);
    }
  }

  /** When the producer reaches tract i, deque i % w holds i / w works, so the
      push fits in a deque of k slots exactly when i < k * w. */
  lemma DealtLoad(tracts: seq<CensusTract>, i: nat, w: nat, k: nat)
    requires w > 0 && i <= |tracts|
    ensures |Dealt(tracts[..i], w, i % w)| < k <==> i < k * w
  {
    var j := i % w;
    DealtItems(tracts[..i], w, j);
    CountBelowStep(i, w, j);
    DivUnique(i, w, CountBelow(i, w, j), j);
    QuotientBelow(i, w, k);
  }

  /** The producer's push of tract i extends the deal of the first i tracts to
      the deal of the first i + 1. */
  lemma DealtPush(tracts: seq<CensusTract>, i: nat, w: nat)
    requires w > 0 && i < |tracts|
    ensures DealtAll(tracts[..i], w)[i % w := Dealt(tracts[..i], w, i % w) + [Work(tracts[i])]] == DealtAll(tracts[..i + 1], w)
  {
    assert DropLast(tracts[..i + 1]) == tracts[..i];
    DealtAllStep(tracts[..i + 1], w);
  }

  /** Every tract is dealt to exactly one deque. */
  lemma {:induction false} DealtCovers(tracts: seq<CensusTract>, w: nat)
    requires w > 0
    ensures multiset(Concat(DealtAll(tracts, w))) == multiset(WorksOf(tracts))
    decreases |tracts|
  {
    if tracts == [] {
      ConcatAllEmpty(DealtAll(tracts, w));
    } else {
      var prefix, x := DropLast(tracts), Work(tracts[|tracts| - 1]);
      DealtCovers(prefix, w);
      DealtCoversStep(tracts, w);
      assert WorksOf(tracts) == WorksOf(prefix) + [x];
    }
  }

  /** Dealing one more tract adds exactly its work to the deques. */
  lemma DealtCoversStep(tracts: seq<CensusTract>, w: nat)
    requires w > 0 && tracts != []
    ensures multiset(Concat(DealtAll(tracts, w))) ==
      multiset(Concat(DealtAll(DropLast(tracts), w))) + multiset{Work(tracts[|tracts| - 1])}
  {
    var j := (|tracts| - 1) % w;
    DealtAllStep(tracts, w);
    ConcatAppendAt(DealtAll(DropLast(tracts), w), j, Work(tracts[|tracts| - 1]));
  }

  /** Appending one work to one deque adds exactly that work to the whole. */
  lemma ConcatAppendAt(cs: seq<seq<Work>>, j: nat, x: Work)
    requires j < |cs|
    ensures multiset(Concat(cs[j := cs[j] + [x]])) == multiset(Concat(cs)) + multiset{x}
  {
    var d := cs[j];
    assert multiset(Concat(cs[j := d + [x]])) + multiset(d) == multiset(Concat(cs)) + (multiset(d) + multiset{x}) by {
      ConcatUpdate(cs, j, d + [x]);
      assert multiset(d + [x]) == multiset(d) + multiset{x};
    }
    MultisetCancel(multiset(Concat(cs[j := d + [x]])), multiset(Concat(cs)), multiset(d), multiset{x});
  }

  // ---------------------------------------------------------------------------
  // The whole run
  // ---------------------------------------------------------------------------

  /** The order in which the tracts are processed: worker 0 does everything,
      since the producer has finished before it starts. */
  function StealOrder(tracts: seq<CensusTract>, w: nat, rule: PopRule): seq<Work>
  {
    if w == 0 then [] else Run(DealtAll(tracts, w), 0, rule)
  }

  /** Worker 0 takes what it keeps of its own deque newest first, then the
      other deques in turn. */
  lemma StealOrderDeques(tracts: seq<CensusTract>, w: nat, rule: PopRule)
    requires w > 0
    ensures StealOrder(tracts, w, rule) == Reversed(Kept(rule, Dealt(tracts, w, 0))) + Concat(DealtAll(tracts, w)[0 := []])
  {
    RunOrder(DealtAll(tracts, w), 0, rule);
  }

  /** With the corrected Pop every tract is processed exactly once. */
  lemma StealOrderCovers(tracts: seq<CensusTract>, w: nat)
    requires w > 0
    ensures multiset(TractsOf(StealOrder(tracts, w, Corrected))) == multiset(tracts)
  {
    var cs := DealtAll(tracts, w);
    RunCovers(cs, 0, Corrected);
    assert cs[0 := Kept(Corrected, cs[0])] == cs;
    DealtCovers(tracts, w);
    TractsOfPermutation(StealOrder(tracts, w, Corrected), WorksOf(tracts));
    assert TractsOf(WorksOf(tracts)) == tracts;
  }

  /** With the corrected Pop the work-stealing run gives the zones the
      sequential run gives. */
  lemma ParallelStealCorrectedMatchesSequential(zones: seq<ZipcodeArea>, tracts: seq<CensusTract>, w: nat, contains: Contains)
    requires w > 0
    ensures Aggregated(zones, TractsOf(StealOrder(tracts, w, Corrected)), contains) == Aggregated(zones, tracts, contains)
  {
    StealOrderCovers(tracts, w);
    OrderIndependent(zones, TractsOf(StealOrder(tracts, w, Corrected)), tracts, contains);
  }

  /** The index of the tract the run as written never processes: the last one
      dealt to deque 0, the highest multiple of w below n. */
  function LostIndex(n: nat, w: nat): (l: nat)
    requires w > 0 && n > 0
    ensures l < n <= l + w
    ensures l % w == 0
  {
    LastMultipleFacts(n, w);
    (CountBelow(n, w, 0) - 1) * w
  }

  lemma LastMultipleFacts(n: nat, w: nat)
    requires w > 0 && n > 0
    ensures 0 <= (CountBelow(n, w, 0) - 1) * w < n <= (CountBelow(n, w, 0) - 1) * w + w
    ensures ((CountBelow(n, w, 0) - 1) * w) % w == 0
  {
    var c := CountBelow(n, w, 0);
    assert n + w - 1 == c * w + (n + w - 1) % w;
    MulDivCancel(w, 1);
    DivMonotone(w, n + w - 1, w);
    assert c >= 1;
    CeilDivAtMost(n, w, c);
    assert (c - 1) * w == c * w - w;
    MulMonotone(0, c - 1, w);
    DivUnique((c - 1) * w, w, c - 1, 0);
  }

  lemma MultisetCancelRight(a: multiset<Work>, b: multiset<Work>, c: multiset<Work>)
    requires a + c == b + c
    ensures a == b
  {
    forall o
      ensures a[o] == b[o]
    {
      assert (a + c)[o] == (b + c)[o];
    }
  }

  /** WorksOf distributes over concatenation. */
  lemma WorksOfAppend(a: seq<CensusTract>, b: seq<CensusTract>)
    ensures WorksOf(a + b) == WorksOf(a) + WorksOf(b)
  {
  }

  /** Cutting the works at index l. */
  lemma WorksOfSplit(tracts: seq<CensusTract>, l: nat)
    requires l < |tracts|
    ensures WorksOf(tracts) == WorksOf(tracts[..l]) + [Work(tracts[l])] + WorksOf(tracts[l + 1..])
  {
    assert tracts == tracts[..l] + [tracts[l]] + tracts[l + 1..];
    WorksOfAppend(tracts[..l] + [tracts[l]], tracts[l + 1..]);
    WorksOfAppend(tracts[..l], [tracts[l]]);
  }

  /** The last work dealt to deque 0 is the lost tract's. */
  lemma LastDealtToZero(tracts: seq<CensusTract>, w: nat)
    requires w > 0 && |tracts| > 0
    ensures Dealt(tracts, w, 0) == DropLast(Dealt(tracts, w, 0)) + [Work(tracts[LostIndex(|tracts|, w)])]
  {
    var n, c := |tracts|, CountBelow(|tracts|, w, 0);
    var d0 := Dealt(tracts, w, 0);
    LastMultipleFacts(n, w);
    DealtItems(tracts, w, 0);
    assert |d0| == c;
    assert d0[c - 1] == Work(tracts[LostIndex(n, w)]);
  }

  /** The multiset bookkeeping of the loss: the items taken are everything
      dealt minus the one occurrence of x that Pop skips. */
  lemma LossArithmetic(a: multiset<Work>, all: multiset<Work>, d0: multiset<Work>, kept: multiset<Work>, x: Work, rest: multiset<Work>)
    requires d0 == kept + multiset{x}
    requires a + d0 == all + kept
    requires all == rest + multiset{x}
    ensures a == rest
  {
    calc {
      a + (kept + multiset{x});
      all + kept;
      rest + (kept + multiset{x});
    }
    MultisetCancelRight(a, rest, kept + multiset{x});
  }

  /** Dropping the last work of deque 0 leaves every dealt work but the lost
      tract's. */
  lemma DealtWithoutLost(tracts: seq<CensusTract>, w: nat)
    requires w > 0 && |tracts| > 0
    ensures multiset(Concat(DealtAll(tracts, w)[0 := DropLast(Dealt(tracts, w, 0))])) ==
      multiset(WorksOf(tracts[..LostIndex(|tracts|, w)] + tracts[LostIndex(|tracts|, w) + 1..]))
  {
    var l := LostIndex(|tracts|, w);
    LastDealtToZero(tracts, w);
    var x := Work(tracts[l]);
    var cs := DealtAll(tracts, w);
    var d0 := cs[0];
    var kept := DropLast(d0);
    assert multiset(d0) == multiset(kept) + multiset{x};
    ConcatUpdate(cs, 0, kept);
    DealtCovers(tracts, w);
    var rest := tracts[..l] + tracts[l + 1..];
    WorksOfSplit(tracts, l);
    WorksOfAppend(tracts[..l], tracts[l + 1..]);
    assert multiset(WorksOf(tracts)) == multiset(WorksOf(rest)) + multiset{x};
    LossArithmetic(multiset(Concat(cs[0 := kept])), multiset(WorksOf(tracts)), multiset(d0), multiset(kept), x, multiset(WorksOf(rest)));
  }

  /** The tracts other than the lost one, in their original order. */
  function WithoutLost(tracts: seq<CensusTract>, w: nat): (r: seq<CensusTract>)
    requires w > 0 && |tracts| > 0
    ensures |r| == |tracts| - 1
    ensures tracts == r[..LostIndex(|tracts|, w)] + [tracts[LostIndex(|tracts|, w)]] + r[LostIndex(|tracts|, w)..]
  {
    var l := LostIndex(|tracts|, w);
    SplitAt(tracts, l);
    var r := tracts[..l] + tracts[l + 1..];
    assert r[..l] == tracts[..l] && r[l..] == tracts[l + 1..];
    r
  }

  /** With the Pop as written, the run processes every tract once except the
      last one dealt to deque 0, which it never processes. */
  lemma StealOrderLosesOne(tracts: seq<CensusTract>, w: nat)
    requires w > 0 && |tracts| > 0
    ensures multiset(TractsOf(StealOrder(tracts, w, AsWritten))) == multiset(WithoutLost(tracts, w))
  {
    var l := LostIndex(|tracts|, w);
    var rest := tracts[..l] + tracts[l + 1..];
    var cs := DealtAll(tracts, w);
    var order := StealOrder(tracts, w, AsWritten);
    DealtWithoutLost(tracts, w);
    RunCovers(cs, 0, AsWritten);
    assert multiset(order) == multiset(WorksOf(rest));
    TractsOfPermutation(order, WorksOf(rest));
    assert TractsOf(WorksOf(rest)) == rest;
  }

  /** With the Pop as written the zones are those of the sequential join over
      every tract but the lost one. */
  lemma ParallelStealAsWritten(zones: seq<ZipcodeArea>, tracts: seq<CensusTract>, w: nat, contains: Contains)
    requires w > 0 && |tracts| > 0
    ensures Aggregated(zones, TractsOf(StealOrder(tracts, w, AsWritten)), contains) ==
      Aggregated(zones, WithoutLost(tracts, w), contains)
  {
    var order := TractsOf(StealOrder(tracts, w, AsWritten));
    StealOrderLosesOne(tracts, w);
    OrderIndependent(zones, order, WithoutLost(tracts, w), contains);
  }

  /** Joining the lost tract afterwards gives the sequential result. */
  lemma LostTractCompletes(zones: seq<ZipcodeArea>, tracts: seq<CensusTract>, w: nat, contains: Contains)
    requires w > 0 && |tracts| > 0
    ensures AddTract(Aggregated(zones, WithoutLost(tracts, w), contains), tracts[LostIndex(|tracts|, w)], contains) ==
      Aggregated(zones, tracts, contains)
  {
    var l := LostIndex(|tracts|, w);
    var r := WithoutLost(tracts, w);
    MoveToEnd(zones, r[..l], tracts[l], r[l..], contains);
    assert r == r[..l] + r[l..];
  }

  /** One worker, producer finished first: the sums are the sequential ones
      without the last tract's population. */
  lemma SingleWorkerLosesLastTract(zones: seq<ZipcodeArea>, tracts: seq<CensusTract>, contains: Contains)
    requires |tracts| > 0
    ensures Aggregated(zones, TractsOf(StealOrder(tracts, 1, AsWritten)), contains) ==
      Aggregated(zones, tracts[..|tracts| - 1], contains)
    ensures forall i :: 0 <= i < |zones| ==>
      Aggregated(zones, tracts, contains)[i].popSum ==
        Aggregated(zones, TractsOf(StealOrder(tracts, 1, AsWritten)), contains)[i].popSum +
        (if FirstMatch(Aggregated(zones, tracts[..|tracts| - 1], contains), tracts[|tracts| - 1].centroid, contains) == Some(i)
         then tracts[|tracts| - 1].population else 0)
  {
    var n := |tracts|;
    assert CountBelow(n, 1, 0) == n;
    assert LostIndex(n, 1) == n - 1;
    ParallelStealAsWritten(zones, tracts, 1, contains);
    assert WithoutLost(tracts, 1) == tracts[..n - 1];
  }

  /** Two tracts dealt to two deques: one each. */
  lemma DealtTwo(t0: CensusTract, t1: CensusTract, j: nat)
    requires j < 2
    ensures Dealt([t0, t1], 2, j) == if j == 0 then [Work(t0)] else [Work(t1)]
  {
    assert DropLast([t0, t1]) == [t0];
    assert DropLast([t0]) == [];
    assert Dealt([], 2, j) == [];
    assert Dealt([t0], 2, j) == Dealt([], 2, j) + (if 0 % 2 == j then [Work(t0)] else []);
    assert Dealt([t0, t1], 2, j) == Dealt([t0], 2, j) + (if 1 % 2 == j then [Work(t1)] else []);
  }

  /** The lost tract depends on the interleaving. With two tracts and two
      workers, LostIndex is tract 0, but if worker 1 runs first it pops nothing
      (its deque holds one item), steals tract 0 from deque 0, and leaves every
      deque empty for worker 0: tract 1 is the one never joined. */
  lemma LaterWorkerFirstLosesOtherTract(t0: CensusTract, t1: CensusTract)
    ensures LostIndex(2, 2) == 0
    ensures Run(DealtAll([t0, t1], 2), 1, AsWritten) == [Work(t0)]
  {
    var cs := DealtAll([t0, t1], 2);
    assert cs == [[Work(t0)], [Work(t1)]] by {
      DealtTwo(t0, t1, 0);
      DealtTwo(t0, t1, 1);
    }
    assert Run(cs, 1, AsWritten) == Reversed(Kept(AsWritten, cs[1])) + Concat(cs[1 := []]) by {
      RunOrder(cs, 1, AsWritten);
    }
    assert Kept(AsWritten, cs[1]) == [];
    assert Concat(cs[1 := []]) == [Work(t0)] by {
      assert cs[1 := []] == [[Work(t0)], []];
      assert Concat([[Work(t0)], []]) == [Work(t0)] + Concat([[]]);
    }
    assert CountBelow(2, 2, 0) == 1;
  }
}
