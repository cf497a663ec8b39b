/**
 * The binary min-heap of src/priority_queue.c: entries (id, priority) in `data[1..size]`,
 * slot 0 unused, the parent of slot i being slot i / 2. Duplicate ids are allowed.
 */
module PriorityQueue {

  datatype HeapNode = HeapNode(id: int, p: real)

  /** Heap order on the 1-indexed prefix a[1..n]: no child has a smaller priority than its parent. */
  ghost predicate HeapOrdered(a: seq<HeapNode>, n: int)
    requires n < |a|
  {
    forall k, j :: 1 <= k && 2 <= j <= n && j / 2 == k ==> a[k].p <= a[j].p
  }

  /** The live entries a[1..n] of a heap array. */
  ghost function Live(a: seq<HeapNode>, n: int): multiset<HeapNode>
    requires 0 <= n < |a|
  {
    multiset(a[1..n + 1])
  }

  /** e is an entry of m whose priority no entry of m undercuts. */
  ghost predicate IsMinOf(e: HeapNode, m: multiset<HeapNode>)
  {
    e in m && forall x :: x in m ==> e.p <= x.p
  }

  /** In a heap-ordered prefix the root holds a least priority. */
  lemma {:induction false} RootIsMin(a: seq<HeapNode>, n: int, k: int)
    requires 1 <= k <= n < |a| && HeapOrdered(a, n)
    ensures a[1].p <= a[k].p
    decreases k
  {
    if k > 1 {
      RootIsMin(a, n, k / 2);
    }
  }

  lemma RootIsMinOfEntries(a: seq<HeapNode>, n: int)
    requires 1 <= n < |a| && HeapOrdered(a, n)
    ensures IsMinOf(a[1], Live(a, n))
  {
    forall x | x in Live(a, n)
      ensures a[1].p <= x.p
    {
      var k :| 1 <= k <= n && a[k] == x;
      RootIsMin(a, n, k);
    }
  }

  /** Overwriting slot i of the live prefix swaps one entry of its multiset for another. */
  lemma UpdateLive(a: seq<HeapNode>, i: int, v: HeapNode, n: int)
    requires 1 <= i <= n < |a|
    ensures Live(a[i := v], n) == Live(a, n) - multiset{a[i]} + multiset{v}
  {
    assert a[i := v][1..n + 1] == a[1..n + 1][i - 1 := v];
  }

  /** Extending the live prefix by one slot adds that slot's entry. */
  lemma LiveGrow(a: seq<HeapNode>, n: int)
    requires 0 <= n && n + 1 < |a|
    ensures Live(a, n + 1) == Live(a, n) + multiset{a[n + 1]}
  {
    assert a[1..n + 2] == a[1..n + 1] + [a[n + 1]];
  }

  /**
   * Accounting for pq_extract_min on a heap of n + 1 entries: removing the root and
   * re-placing the last entry leaves the old entries minus the root.
   */
  lemma ExtractAccount(a: seq<HeapNode>, n: int)
    requires 1 <= n && n + 1 < |a|
    ensures Live(a, n) == (Live(a, n) - multiset{a[1]}) + multiset{a[1]}
    ensures (Live(a, n) - multiset{a[1]}) + multiset{a[n + 1]} == Live(a, n + 1) - multiset{a[1]}
  {
    assert a[1] in Live(a, n) by { assert a[1..n + 1][0] == a[1]; }
    LiveGrow(a, n);
  }

  /** Order facts while the hole at slot i climbs towards the root in insertion. */
  ghost predicate UpInv(a: seq<HeapNode>, n: int, i: int, prio: real)
    requires 1 <= i <= n < |a|
  {
    (forall k, j :: 1 <= k && 2 <= j <= n && j / 2 == k && j != i ==> a[k].p <= a[j].p) &&
    (forall c :: 2 <= c <= n && c / 2 == i ==> prio <= a[c].p) &&
    (i > 1 ==> forall c :: 2 <= c <= n && c / 2 == i ==> a[i / 2].p <= a[c].p)
  }

  lemma UpStart(a: seq<HeapNode>, n: int, prio: real)
    requires 1 <= n < |a| && HeapOrdered(a, n - 1)
    ensures UpInv(a, n, n, prio)
  {
  }

  lemma UpStep(a: seq<HeapNode>, n: int, i: int, prio: real)
    requires 1 < i <= n < |a| && UpInv(a, n, i, prio) && a[i / 2].p > prio
    ensures UpInv(a[i := a[i / 2]], n, i / 2, prio)
  {
  }

  lemma UpDone(a: seq<HeapNode>, n: int, i: int, x: HeapNode)
    requires 1 <= i <= n < |a| && UpInv(a, n, i, x.p) && (i == 1 || a[i / 2].p <= x.p)
    ensures HeapOrdered(a[i := x], n)
  {
  }

  /** Order facts while the hole at slot i sinks from the root in extraction; `last` waits to be placed. */
  ghost predicate DownInv(a: seq<HeapNode>, n: int, i: int, last: HeapNode)
    requires 1 <= i <= n < |a|
  {
    (forall k, j :: 1 <= k && 2 <= j <= n && j / 2 == k && k != i ==> a[k].p <= a[j].p) &&
    (i > 1 ==> a[i / 2].p <= last.p) &&
    (i > 1 ==> forall c :: 2 <= c <= n && c / 2 == i ==> a[i / 2].p <= a[c].p)
  }

  lemma DownStart(a: seq<HeapNode>, n: int, last: HeapNode)
    requires 1 <= n < |a| && HeapOrdered(a, n)
    ensures DownInv(a, n, 1, last)
  {
  }

  lemma DownStep(a: seq<HeapNode>, n: int, i: int, child: int, last: HeapNode)
    requires 1 <= i && 2 * i <= n < |a| && DownInv(a, n, i, last)
    requires child == 2 * i || child == 2 * i + 1 <= n
    requires forall c :: 2 <= c <= n && c / 2 == i ==> a[child].p <= a[c].p
    requires last.p > a[child].p
    ensures DownInv(a[i := a[child]], n, child, last)
  {
  }

  lemma DownDone(a: seq<HeapNode>, n: int, i: int, last: HeapNode)
    requires 1 <= i <= n < |a| && DownInv(a, n, i, last)
    requires forall c :: 2 <= c <= n && c / 2 == i ==> last.p <= a[c].p
    ensures HeapOrdered(a[i := last], n)
  {
  }

  /**
   * The sift-up loop of pq_insert as a function: the hole at slot i climbs while its
   * parent's priority exceeds x's, then x fills it.
   */
  function SiftUp(a: seq<HeapNode>, i: int, x: HeapNode): (r: seq<HeapNode>)
    requires 1 <= i < |a|
    ensures |r| == |a|
    decreases i
  {
    if i > 1 && a[i / 2].p > x.p then SiftUp(a[i := a[i / 2]], i / 2, x) else a[i := x]
  }

  /**
   * The sift-down loop of pq_extract_min as a function: the hole at slot i sinks to the
   * smaller child (the right one only when strictly smaller) while that child's priority
   * is strictly below last's, then last fills it.
   */
  function SiftDown(a: seq<HeapNode>, n: int, i: int, last: HeapNode): (r: seq<HeapNode>)
    requires 1 <= i <= n < |a|
    ensures |r| == |a|
    decreases n - i
  {
    if 2 * i <= n then
      var child := if 2 * i != n && a[2 * i + 1].p < a[2 * i].p then 2 * i + 1 else 2 * i;
      if last.p > a[child].p then SiftDown(a[i := a[child]], n, child, last) else a[i := last]
    else
      a[i := last]
  }

  lemma {:induction false} SiftUpOrders(a: seq<HeapNode>, n: int, i: int, x: HeapNode)
    requires 1 <= i <= n < |a| && UpInv(a, n, i, x.p)
    ensures HeapOrdered(SiftUp(a, i, x), n)
    decreases i
  {
    if i > 1 && a[i / 2].p > x.p {
      UpStep(a, n, i, x.p);
      SiftUpOrders(a[i := a[i / 2]], n, i / 2, x);
    } else {
      UpDone(a, n, i, x);
    }
  }

  lemma {:induction false} SiftUpKeeps(a: seq<HeapNode>, n: int, i: int, x: HeapNode, m: multiset<HeapNode>)
    requires 1 <= i <= n < |a| && Live(a, n) == m + multiset{a[i]}
    ensures Live(SiftUp(a, i, x), n) == m + multiset{x}
    decreases i
  {
    UpdateLive(a, i, if i > 1 && a[i / 2].p > x.p then a[i / 2] else x, n);
    if i > 1 && a[i / 2].p > x.p {
      SiftUpKeeps(a[i := a[i / 2]], n, i / 2, x, m);
    }
  }

  lemma {:induction false} SiftDownOrders(a: seq<HeapNode>, n: int, i: int, last: HeapNode)
    requires 1 <= i <= n < |a| && DownInv(a, n, i, last)
    ensures HeapOrdered(SiftDown(a, n, i, last), n)
    decreases n - i
  {
    if 2 * i <= n {
      var child := if 2 * i != n && a[2 * i + 1].p < a[2 * i].p then 2 * i + 1 else 2 * i;
      if last.p > a[child].p {
        DownStep(a, n, i, child, last);
        SiftDownOrders(a[i := a[child]], n, child, last);
      } else {
        DownDone(a, n, i, last);
      }
    } else {
      DownDone(a, n, i, last);
    }
  }

  lemma {:induction false} SiftDownKeeps(a: seq<HeapNode>, n: int, i: int, last: HeapNode, m: multiset<HeapNode>)
    requires 1 <= i <= n < |a| && Live(a, n) == m + multiset{a[i]}
    ensures Live(SiftDown(a, n, i, last), n) == m + multiset{last}
    decreases n - i
  {
    if 2 * i <= n {
      var child := if 2 * i != n && a[2 * i + 1].p < a[2 * i].p then 2 * i + 1 else 2 * i;
      if last.p > a[child].p {
        UpdateLive(a, i, a[child], n);
        SiftDownKeeps(a[i := a[child]], n, child, last, m);
      } else {
        UpdateLive(a, i, last, n);
      }
    } else {
      UpdateLive(a, i, last, n);
    }
  }

  /**
   * es is a run of extractions from m with no insertion in between: each element is a
   * minimum of what the earlier ones left.
   */
  ghost predicate ExtractionRun(m: multiset<HeapNode>, es: seq<HeapNode>)
    decreases |es|
  {
    es == [] || (IsMinOf(es[0], m) && ExtractionRun(m - multiset{es[0]}, es[1..]))
  }

  /** Successive extractions come out in non-decreasing priority. */
  lemma {:induction false} ExtractionRunIsSorted(m: multiset<HeapNode>, es: seq<HeapNode>)
    requires ExtractionRun(m, es)
    ensures forall i, j :: 0 <= i < j < |es| ==> es[i].p <= es[j].p
    decreases |es|
  {
    if es != [] {
      var rest := m - multiset{es[0]};
      ExtractionRunIsSorted(rest, es[1..]);
      forall j | 1 <= j < |es|
        ensures es[0].p <= es[j].p
      {
        ExtractedFromRest(rest, es[1..], j - 1);
      }
    }
  }

  /** Every element of a run is drawn from the multiset it started with. */
  lemma {:induction false} ExtractedFromRest(m: multiset<HeapNode>, es: seq<HeapNode>, k: int)
    requires ExtractionRun(m, es) && 0 <= k < |es|
    ensures es[k] in m
    decreases k
  {
    if k > 0 {
      ExtractedFromRest(m - multiset{es[0]}, es[1..], k - 1);
    }
  }

  /** A run grows by one more extraction: a minimum of what the run has left. */
  lemma {:induction false} RunExtend(m: multiset<HeapNode>, es: seq<HeapNode>, e: HeapNode)
    requires ExtractionRun(m, es) && multiset(es) <= m && IsMinOf(e, m - multiset(es))
    ensures ExtractionRun(m, es + [e])
    decreases |es|
  {
    if es != [] {
      var rest := m - multiset{es[0]};
      assert (es + [e])[1..] == es[1..] + [e];
      assert es == [es[0]] + es[1..];
      assert rest - multiset(es[1..]) == m - multiset(es);
      RunExtend(rest, es[1..], e);
    }
  }

  /** One more extraction from what a run has left keeps the run's bookkeeping. */
  lemma RunStep(m: multiset<HeapNode>, es: seq<HeapNode>, e: HeapNode)
    requires ExtractionRun(m, es) && multiset(es) <= m && IsMinOf(e, m - multiset(es))
    ensures ExtractionRun(m, es + [e]) && multiset(es + [e]) <= m
    ensures m - multiset(es + [e]) == (m - multiset(es)) - multiset{e}
    ensures |m - multiset(es + [e])| < |m - multiset(es)|
  {
    RunExtend(m, es, e);
  }

  /** Appending an extracted entry and its id keeps ids matched to their entries. */
  lemma IdsStep(ids: seq<int>, es: seq<HeapNode>, e: HeapNode)
    requires |ids| == |es| && forall k :: 0 <= k < |es| ==> ids[k] == es[k].id
    ensures |ids + [e.id]| == |es + [e]|
    ensures forall k :: 0 <= k < |es + [e]| ==> (ids + [e.id])[k] == (es + [e])[k].id
  {
  }

  /**
   * Heap order stated slot by slot, from the last slot down: the form the queue's
   * invariant uses. OrderedIff ties it to HeapOrdered.
   */
  ghost predicate Ordered(a: seq<HeapNode>, n: int)
    requires n < |a|
    decreases n
  {
    n <= 1 || (a[n / 2].p <= a[n].p && Ordered(a, n - 1))
  }

  lemma {:induction false} OrderedIff(a: seq<HeapNode>, n: int)
    requires 0 <= n < |a|
    ensures Ordered(a, n) <==> HeapOrdered(a, n)
    decreases n
  {
    if n > 1 {
      OrderedIff(a, n - 1);
    }
  }

  /** The live entries collected slot by slot: the form the queue's Entries uses. */
  ghost function Bag(a: seq<HeapNode>, n: int): multiset<HeapNode>
    requires 0 <= n < |a|
    decreases n
  {
    if n == 0 then multiset{} else Bag(a, n - 1) + multiset{a[n]}
  }

  lemma {:induction false} BagIsLive(a: seq<HeapNode>, n: int)
    requires 0 <= n < |a|
    ensures Bag(a, n) == Live(a, n)
    decreases n
  {
    if n > 0 {
      BagIsLive(a, n - 1);
      LiveGrow(a, n - 1);
    }
  }

  class PQImpl {
    const data: array<HeapNode>
    var size: int
    const cap: int

    ghost predicate Valid()
      reads this, data
    {
      data.Length == cap + 1 && 0 <= size <= cap && Ordered(data[..], size)
    }

    /** The entries held, as a multiset: order within the array is not observable. */
    ghost function Entries(): multiset<HeapNode>
      requires Valid()
      reads this, data
    {
      Bag(data[..], size)
    }

    /** createPriorityQueue: room for `cap` entries in slots 1..cap. */
    constructor (cap: nat)
      ensures Valid() && fresh(data) && this.cap == cap
      ensures size == 0 && Entries() == multiset{}
    {
      this.cap := cap;
      data := new HeapNode[cap + 1];
      size := 0;
    }

    /** pq_empty */
    function Empty(): (b: bool)
      requires Valid()
      reads this, data
      ensures b <==> Entries() == multiset{}
    {
      size == 0
    }

    /**
     * pq_insert: the C code writes slot size + 1 without looking at the capacity, so the
     * model asks the caller for room.
     */
    method Insert(item: int, prio: real)
      requires Valid() && size < cap
      modifies this, data
      ensures Valid()
      ensures size == old(size) + 1
      ensures Entries() == old(Entries()) + multiset{HeapNode(item, prio)}
    {
      var x := HeapNode(item, prio);
      ghost var a0 := data[..];
      ghost var n := size + 1;
      OrderedIff(a0, size);
      BagIsLive(a0, size);
      UpStart(a0, n, prio);
      assert UpInv(a0, n, n, x.p);
      LiveGrow(a0, size);
      size := size + 1;
      var i := size;
      ghost var target := SiftUp(a0, size, x);
      while i > 1 && data[i / 2].p > prio
        invariant size == n && 1 <= i <= size
        invariant SiftUp(data[..], i, x) == target
      {
        data[i] := data[i / 2];
        i := i / 2;
      }
      data[i] := x;
      SiftUpOrders(a0, n, n, x);
      SiftUpKeeps(a0, n, n, x, Live(a0, n - 1));
      OrderedIff(data[..], size);
      BagIsLive(data[..], size);
    }

    /**
     * pq_extract_min: -1 on an empty queue; otherwise the id of the root, whose entry
     * `e` is a minimum and is the one entry removed.
     */
    method ExtractMin() returns (r: int, ghost e: HeapNode)
      requires Valid()
      modifies this, data
      ensures Valid()
      ensures old(size) == 0 ==> r == -1 && size == 0 && Entries() == old(Entries())
      ensures old(size) > 0 ==>
        IsMinOf(e, old(Entries())) && r == e.id &&
        size == old(size) - 1 && Entries() == old(Entries()) - multiset{e}
    {
      if size == 0 {
        return -1, HeapNode(-1, 0.0);
      }
      OrderedIff(data[..], size);
      BagIsLive(data[..], size);
      RootIsMinOfEntries(data[..], size);
      e := data[1];
      r := data[1].id;
      var last := data[size];
      ghost var a0 := data[..];
      size := size - 1;
      if size == 0 {
        data[1] := last;
        assert Live(a0, 1) == multiset{e} by { assert a0[1..2] == [e]; }
        return;
      }
      SinkRoot(last);
      DownStart(a0, size, last);
      SiftDownOrders(a0, size, 1, last);
      ExtractAccount(a0, size);
      SiftDownKeeps(a0, size, 1, last, Live(a0, size) - multiset{e});
      OrderedIff(data[..], size);
      BagIsLive(data[..], size);
    }

    /** The sift-down loop of pq_extract_min, with the hole starting at the root. */
    method SinkRoot(last: HeapNode)
      requires 1 <= size < data.Length
      modifies data
      ensures data[..] == SiftDown(old(data[..]), size, 1, last)
    {
      var i := 1;
      while 2 * i <= size
        invariant 1 <= i <= size
        invariant SiftDown(data[..], size, i, last) == SiftDown(old(data[..]), size, 1, last)
      {
        var child := 2 * i;
        if child != size && data[child + 1].p < data[child].p {
          child := child + 1;
        }
        if last.p > data[child].p {
          data[i] := data[child];
        } else {
          break;
        }
        i := child;
      }
      data[i] := last;
    }
  }

  /** pq_insert of every entry of xs, in order, into a fresh queue with room for them all. */
  method Fill(xs: seq<HeapNode>) returns (pq: PQImpl)
    ensures fresh(pq) && fresh(pq.data) && pq.Valid() && pq.Entries() == multiset(xs)
  {
    pq := new PQImpl(|xs|);
    var i := 0;
    while i < |xs|
      invariant 0 <= i <= |xs|
      invariant fresh(pq) && fresh(pq.data) && pq.Valid() && pq.cap == |xs| && pq.size == i
      invariant pq.Entries() == multiset(xs[..i])
    {
      pq.Insert(xs[i].id, xs[i].p);
      assert xs[..i + 1] == xs[..i] + [xs[i]];
      i := i + 1;
    }
    assert xs[..i] == xs;
  }

  /** pq_extract_min until pq_empty: the entries removed form a run of extractions. */
  method Drain(pq: PQImpl) returns (ids: seq<int>, ghost es: seq<HeapNode>)
    requires pq.Valid()
    modifies pq, pq.data
    ensures pq.Valid() && pq.Entries() == multiset{}
    ensures |ids| == |es| && forall k :: 0 <= k < |es| ==> ids[k] == es[k].id
    ensures ExtractionRun(old(pq.Entries()), es) && multiset(es) == old(pq.Entries())
  {
    ghost var m := pq.Entries();
    ghost var left := m;
    ids, es := [], [];
    while !pq.Empty()
      invariant pq.Valid() && pq.Entries() == left
      invariant |ids| == |es| && forall k :: 0 <= k < |es| ==> ids[k] == es[k].id
      invariant multiset(es) <= m && left == m - multiset(es) && ExtractionRun(m, es)
      decreases |left|
    {
      var r, e := pq.ExtractMin();
      RunStep(m, es, e);
      IdsStep(ids, es, e);
      ids, es, left := ids + [r], es + [e], left - multiset{e};
    }
  }

  /**
   * Fills a queue from xs and drains it: the ids come out as the entries es, which are
   * xs rearranged in non-decreasing priority.
   */
  method InsertThenDrain(xs: seq<HeapNode>) returns (ids: seq<int>, ghost es: seq<HeapNode>)
    ensures |ids| == |es| && forall k :: 0 <= k < |es| ==> ids[k] == es[k].id
    ensures ExtractionRun(multiset(xs), es) && multiset(es) == multiset(xs)
    ensures forall i, j :: 0 <= i < j < |es| ==> es[i].p <= es[j].p
  {
    var pq := Fill(xs);
    ids, es := Drain(pq);
    ExtractionRunIsSorted(multiset(xs), es);
  }
}
