/** The bounded ring-buffer deque of the work-stealing scheduler: a fixed
    8192-slot buffer and the `head`/`tail` indices, updated in place by Push,
    Pop and Steal. Operations are called one at a time, so each atomic load,
    store, add and compare-and-swap acts on the current field values. */
module WorkDeque {
  import opened Wrappers
  import opened Sequences
  import opened Sequential

  /** dequeSize: the number of slots of every deque. */
  const DequeSize: nat := 8192

  /** A unit of work: one tract. */
  datatype Work = Work(tract: CensusTract)

  /** What Pop returns, as written: the item BELOW the newest one, or nil when
      the deque holds at most one item. */
  function PopValue(c: seq<Work>): Option<Work>
  {
    if |c| <= 1 then None else Some(c[|c| - 2])
  }

  /** What Pop leaves, as written: the newest item is removed, and a deque of at
      most one item is emptied. */
  function AfterPop(c: seq<Work>): seq<Work>
  {
    if |c| <= 1 then [] else c[..|c| - 1]
  }

  /** Distinct indices less than a full ring apart use distinct slots. */
  lemma SlotsDistinct(a: int, b: int)
    requires 0 <= a < b < a + DequeSize
    ensures a % DequeSize != b % DequeSize
  {
    var qa, qb := a / DequeSize, b / DequeSize;
    assert a == qa * DequeSize + a % DequeSize;
    assert b == qb * DequeSize + b % DequeSize;
  }

  class Deque {
    const buffer: array<Option<Work>>
    var head: int
    var tail: int

    /** The slots [head, tail) hold work, and at most a full ring of it. */
    ghost predicate Valid()
      reads this, buffer
    {
      buffer.Length == DequeSize &&
      0 <= head <= tail <= head + DequeSize &&
      forall k :: head <= k < tail ==> buffer[k % DequeSize].Some?
    }

    /** The items between head and tail, oldest first. */
    ghost function Contents(): (c: seq<Work>)
      reads this, buffer
      requires Valid()
      ensures |c| == tail - head
      ensures forall j :: 0 <= j < |c| ==> buffer[(head + j) % DequeSize] == Some(c[j])
    {
      seq(tail - head, j requires 0 <= j < tail - head && Valid() reads this, buffer =>
        buffer[(head + j) % DequeSize].value)
    }

    /** NewDeque: every slot nil, head = tail = 0. */
    constructor ()
      ensures Valid() && Contents() == [] && fresh(buffer)
    {
      buffer := new Option<Work>[DequeSize](_ => None);
      head, tail := 0, 0;
    }

    /** Push: a full deque panics with an overflow and stays as it was;
        otherwise the item goes into slot tail % dequeSize and tail advances. */
    method Push(work: Work) returns (r: Outcome<Panic>)
      requires Valid()
      modifies this, buffer
      ensures Valid()
      ensures r.Pass? <==> old(tail - head) < DequeSize
      ensures r.Fail? ==> r.error == DequeOverflow
      ensures head == old(head)
      ensures r.Pass? ==> tail == old(tail) + 1 && Contents() == old(Contents()) + [work]
      ensures r.Pass? ==> buffer[..] == old(buffer[..])[old(tail) % DequeSize := Some(work)]
      ensures r.Fail? ==> tail == old(tail) && buffer[..] == old(buffer[..])
    {
      var t := tail;
      var h := head;
      if t - h >= DequeSize {
        return Fail(DequeOverflow);
      }
      ghost var before := Contents();
      buffer[t % DequeSize] := Some(work);
      tail := t + 1;
      r := Pass;
      forall j | 0 <= j < |before|
        ensures Contents()[j] == before[j]
      {
        SlotsDistinct(h + j, t);
      }
    }

    /** Pop, as written: the atomic add already returns the decremented tail,
        and the code subtracts one more. It stores tail - 1 but reads slot
        tail - 2; a deque of at most one item is reset to empty and yields nil. */
    method Pop() returns (work: Option<Work>)
      requires Valid()
      modifies this
      ensures Valid() && head == old(head)
      ensures tail == if old(tail - head) <= 1 then head else old(tail) - 1
      ensures work == PopValue(old(Contents()))
      ensures Contents() == AfterPop(old(Contents()))
    {
      ghost var before := Contents();
      tail := tail - 1;
      var t := tail - 1;
      var h := head;
      if t < h {
        tail := h;
        return None;
      }
      work := buffer[t % DequeSize];
      assert forall j :: 0 <= j < tail - head ==> Contents()[j] == before[j];
    }

    /** Pop as evidently intended: read the slot of the decremented tail, so the
        newest item is returned and removed. */
    method PopCorrected() returns (work: Option<Work>)
      requires Valid()
      modifies this
      ensures Valid() && head == old(head)
      ensures work == if old(tail - head) == 0 then None else Some(old(Contents())[old(tail - head) - 1])
      ensures Contents() == DropLast(old(Contents()))
    {
      ghost var before := Contents();
      tail := tail - 1;
      var t := tail;
      var h := head;
      if t < h {
        tail := h;
        return None;
      }
      work := buffer[t % DequeSize];
      assert forall j :: 0 <= j < tail - head ==> Contents()[j] == before[j];
    }

    /** Steal: nil when empty; otherwise the oldest item, and head advances.
        Called one at a time, the compare-and-swap of head always succeeds. */
    method Steal() returns (work: Option<Work>)
      requires Valid()
      modifies this
      ensures Valid() && tail == old(tail)
      ensures old(head) >= old(tail) ==> work == None && head == old(head)
      ensures old(head) < old(tail) ==> work == Some(old(Contents())[0]) && head == old(head) + 1
      ensures Contents() == if old(head) < old(tail) then old(Contents())[1..] else old(Contents())
    {
      ghost var before := Contents();
      var h := head;
      var t := tail;
      if h >= t {
        return None;
      }
      work := buffer[h % DequeSize];
      head := h + 1;
      assert forall j :: 0 <= j < tail - head ==> Contents()[j] == before[1..][j];
    }
  }

  // ---------------------------------------------------------------------------
  // Call sequences on a fresh deque
  // ---------------------------------------------------------------------------

  /** Pushes `xs` onto a fresh deque. */
  method Filled(xs: seq<Work>) returns (d: Deque)
    requires |xs| <= DequeSize
    ensures fresh(d) && fresh(d.buffer) && d.Valid() && d.Contents() == xs
  {
    d := new Deque();
    for i := 0 to |xs|
      invariant d.Valid() && d.Contents() == xs[..i]
    {
      var r := d.Push(xs[i]);
      assert xs[..i + 1] == xs[..i] + [xs[i]];
    }
    assert xs[..|xs|] == xs;
  }

  /** The owner pops until nil after pushing x0 .. x(k-1): it gets x(k-2) down
      to x0, and the last item pushed is never returned. */
  method OwnerDrain(xs: seq<Work>) returns (popped: seq<Work>)
    requires |xs| <= DequeSize
    ensures popped == Reversed(DropLast(xs))
    ensures |xs| > 0 && xs[|xs| - 1] !in DropLast(xs) ==> xs[|xs| - 1] !in popped
  {
    var d := Filled(xs);
    var n := |xs|;
    ghost var m := n;
    popped := [];
    while true
      invariant d.Valid() && 0 <= m <= n && d.Contents() == xs[..m]
      invariant n > 0 ==> 1 <= m && popped == Reversed(xs[m - 1..n - 1])
      invariant n == 0 ==> popped == []
      decreases |d.Contents()|
    {
      var work := d.Pop();
      if work.None? {
        break;
      }
      assert xs[m - 2..n - 1][1..] == xs[m - 1..n - 1];
      popped := popped + [work.value];
      m := m - 1;
      assert xs[..m + 1][..m] == xs[..m];
    }
    if n > 0 {
      assert xs[0..n - 1] == DropLast(xs);
    }
    assert n > 0 && xs[n - 1] !in DropLast(xs) ==> xs[n - 1] !in popped by {
      if n > 0 {
        ReversedFacts(DropLast(xs));
        assert multiset(popped) == multiset(DropLast(xs));
      }
    }
  }

  /** With the corrected Pop the owner gets every item, newest first. */
  method OwnerDrainCorrected(xs: seq<Work>) returns (popped: seq<Work>)
    requires |xs| <= DequeSize
    ensures popped == Reversed(xs)
  {
    var d := Filled(xs);
    var n := |xs|;
    ghost var m := n;
    popped := [];
    while true
      invariant d.Valid() && 0 <= m <= n && d.Contents() == xs[..m]
      invariant popped == Reversed(xs[m..n])
      decreases |d.Contents()|
    {
      var work := d.PopCorrected();
      if work.None? {
        break;
      }
      assert xs[m - 1..n][1..] == xs[m..n];
      popped := popped + [work.value];
      m := m - 1;
      assert xs[..m + 1][..m] == xs[..m];
    }
    assert xs[0..n] == xs;
  }

  /** Thieves alone take the items in push order. */
  method ThiefDrain(xs: seq<Work>) returns (stolen: seq<Work>)
    requires |xs| <= DequeSize
    ensures stolen == xs
  {
    var d := Filled(xs);
    ghost var m := 0;
    stolen := [];
    while true
      invariant d.Valid() && m <= |xs| && d.Contents() == xs[m..]
      invariant stolen == xs[..m]
      decreases |d.Contents()|
    {
      var work := d.Steal();
      if work.None? {
        break;
      }
      stolen := stolen + [work.value];
      m := m + 1;
      assert xs[..m] == xs[..m - 1] + [xs[m - 1]];
    }
  }

  /** Push a, push b, Pop, Steal: the owner's Pop returns a, and the thief
      then steals the same a again, while b is never delivered. */
  method DuplicateDelivery(a: Work, b: Work) returns (popped: Option<Work>, stolen: Option<Work>, rest: Option<Work>)
    ensures popped == Some(a) && stolen == Some(a) && rest == None
  {
    var d := Filled([a, b]);
    popped := d.Pop();
    stolen := d.Steal();
    rest := d.Steal();
  }

  /** The same calls with the corrected Pop deliver b to the owner and a to
      the thief, each once. */
  method SingleDeliveryCorrected(a: Work, b: Work) returns (popped: Option<Work>, stolen: Option<Work>, rest: Option<Work>)
    ensures popped == Some(b) && stolen == Some(a) && rest == None
  {
    var d := Filled([a, b]);
    popped := d.PopCorrected();
    stolen := d.Steal();
    rest := d.Steal();
  }

  /** A deque holding one item is emptied by Pop with nothing returned. */
  method SingleItemLost(a: Work) returns (popped: Option<Work>, stolen: Option<Work>)
    ensures popped == None && stolen == None
  {
    var d := Filled([a]);
    popped := d.Pop();
    stolen := d.Steal();
  }
}
