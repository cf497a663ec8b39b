/**
 * The state of findPath in src/graph.c as values, with the invariants its main loop keeps
 * and the facts they yield. The search is the lazy form of Dijkstra's algorithm the C code
 * runs: an improved distance is pushed again instead of decreasing a key, a stale entry is
 * popped and re-relaxed, and only a strict improvement changes `dist` and `pai`.
 */
module Dijkstra {
  import opened Walks
  import opened PriorityQueue

  /** A tentative distance; `Inf` plays the part of DBL_MAX. */
  datatype Dist = Fin(r: real) | Inf

  /**
   * The arrays of the search: `dist` and `pai` as in the C code, and three ghost
   * companions: `via`, the edge of pai[x]'s list that set dist[x]; `stamp`, the time of
   * that update; `clock`, the next time.
   */
  datatype Search = Search(dist: seq<Dist>, pai: seq<int>, via: seq<int>, stamp: seq<int>, clock: int)

  ghost predicate Sized<E>(adj: Adj<E>, s: Search)
  {
    |s.dist| == |adj| && |s.pai| == |adj| && |s.via| == |adj| && |s.stamp| == |adj|
  }

  /** Edge k of x is relaxed: its far end is no farther than through x. */
  ghost predicate EdgeOk<E>(adj: Adj<E>, f: (E, int) -> NonNeg, crit: int, dist: seq<Dist>, x: int, k: int)
    requires WellFormed(adj) && |dist| == |adj| && 0 <= x < |adj| && 0 <= k < |adj[x]|
  {
    var y := adj[x][k].dest;
    dist[x].Fin? && dist[y].Fin? && dist[y].r <= dist[x].r + StepCost(f, crit, adj[x][k])
  }

  /** The first j edges of x are relaxed. */
  ghost predicate SettledUpTo<E>(adj: Adj<E>, f: (E, int) -> NonNeg, crit: int, dist: seq<Dist>, x: int, j: int)
    requires WellFormed(adj) && |dist| == |adj| && 0 <= x < |adj| && j <= |adj[x]|
  {
    forall k :: 0 <= k < j ==> EdgeOk(adj, f, crit, dist, x, k)
  }

  ghost predicate Settled<E>(adj: Adj<E>, f: (E, int) -> NonNeg, crit: int, dist: seq<Dist>, x: int)
    requires WellFormed(adj) && |dist| == |adj| && 0 <= x < |adj|
  {
    SettledUpTo(adj, f, crit, dist, x, |adj[x]|)
  }

  /** a was updated before b in the order (distance, time of update). */
  ghost predicate Before<E>(adj: Adj<E>, s: Search, a: int, b: int)
    requires Sized(adj, s) && 0 <= a < |adj| && 0 <= b < |adj| && s.dist[a].Fin? && s.dist[b].Fin?
  {
    s.dist[a].r < s.dist[b].r || (s.dist[a].r == s.dist[b].r && s.stamp[a] < s.stamp[b])
  }

  /** pai[x] is joined to x by edge via[x], which accounts for dist[x], and came first. */
  ghost predicate ParentOk<E>(adj: Adj<E>, f: (E, int) -> NonNeg, crit: int, s: Search, x: int)
    requires WellFormed(adj) && Sized(adj, s) && 0 <= x < |adj|
  {
    var u, k := s.pai[x], s.via[x];
    0 <= u < |adj| && 0 <= k < |adj[u]| && adj[u][k].dest == x &&
    s.dist[u].Fin? && s.dist[x].Fin? &&
    s.dist[u].r + StepCost(f, crit, adj[u][k]) <= s.dist[x].r &&
    Before(adj, s, u, x)
  }

  /** The facts about one node x: a finite distance is not negative, and x has a parent exactly when it is finite. */
  ghost predicate NodeOk<E>(adj: Adj<E>, f: (E, int) -> NonNeg, crit: int, src: int, s: Search, x: int)
    requires WellFormed(adj) && Sized(adj, s) && 0 <= x < |adj|
  {
    (s.dist[x].Fin? ==> s.dist[x].r >= 0.0) &&
    (x != src ==> (s.pai[x] == -1 <==> s.dist[x].Inf?)) &&
    (s.pai[x] != -1 ==> ParentOk(adj, f, crit, s, x)) &&
    s.stamp[x] < s.clock
  }

  /** The predecessor structure: src at distance 0 without parent, every other finite node with one. */
  ghost predicate TreeOk<E>(adj: Adj<E>, f: (E, int) -> NonNeg, crit: int, src: int, s: Search)
  {
    WellFormed(adj) && Sized(adj, s) && 0 <= src < |adj| &&
    s.dist[src] == Fin(0.0) && s.pai[src] == -1 &&
    forall x :: 0 <= x < |adj| ==> NodeOk(adj, f, crit, src, s, x)
  }

  /** A queue entry names a finite node, is no better than its distance, and is not below L. */
  ghost predicate EntryOk<E>(adj: Adj<E>, s: Search, L: real, e: HeapNode)
    requires Sized(adj, s)
  {
    0 <= e.id < |adj| && s.dist[e.id].Fin? && s.dist[e.id].r <= e.p && L <= e.p
  }

  ghost predicate EntriesOk<E>(adj: Adj<E>, s: Search, m: multiset<HeapNode>, L: real)
    requires Sized(adj, s)
  {
    forall e {:trigger EntryOk(adj, s, L, e)} :: e in m ==> EntryOk(adj, s, L, e)
  }

  /** Node x is queued with its current distance. */
  ghost predicate InQueue(s: Search, m: multiset<HeapNode>, x: int)
    requires 0 <= x < |s.dist| && s.dist[x].Fin?
  {
    HeapNode(x, s.dist[x].r) in m
  }

  /** Every finite node not yet popped, other than u, is queued with its current distance. */
  ghost predicate QueuedOk<E>(adj: Adj<E>, s: Search, m: multiset<HeapNode>, popped: set<int>, u: int)
    requires Sized(adj, s)
  {
    forall x {:trigger InQueue(s, m, x)} ::
      0 <= x < |adj| && x != u && s.dist[x].Fin? && x !in popped ==> InQueue(s, m, x)
  }

  /** A popped node is settled at a distance no larger than the last priority popped. */
  ghost predicate DoneOk<E>(adj: Adj<E>, f: (E, int) -> NonNeg, crit: int, s: Search, L: real, x: int)
    requires WellFormed(adj) && Sized(adj, s)
  {
    0 <= x < |adj| && s.dist[x].Fin? && s.dist[x].r <= L && Settled(adj, f, crit, s.dist, x)
  }

  ghost predicate PoppedOk<E>(adj: Adj<E>, f: (E, int) -> NonNeg, crit: int, s: Search, popped: set<int>, L: real)
    requires WellFormed(adj) && Sized(adj, s)
  {
    forall x {:trigger DoneOk(adj, f, crit, s, L, x)} :: x in popped ==> DoneOk(adj, f, crit, s, L, x)
  }

  /** The invariant of findPath's main loop, at its head. */
  ghost predicate Outer<E>(adj: Adj<E>, f: (E, int) -> NonNeg, crit: int, src: int, s: Search,
                           m: multiset<HeapNode>, popped: set<int>, L: real)
  {
    TreeOk(adj, f, crit, src, s) && EntriesOk(adj, s, m, L) &&
    QueuedOk(adj, s, m, popped, -1) && PoppedOk(adj, f, crit, s, popped, L)
  }

  /** The invariant while the edges of u, just popped with priority L, are relaxed; j are done. */
  ghost predicate Mid<E>(adj: Adj<E>, f: (E, int) -> NonNeg, crit: int, src: int, s: Search,
                         m: multiset<HeapNode>, popped: set<int>, L: real, u: int, j: int)
  {
    TreeOk(adj, f, crit, src, s) && EntriesOk(adj, s, m, L) &&
    QueuedOk(adj, s, m, popped, u) && PoppedOk(adj, f, crit, s, popped, L) &&
    0 <= u < |adj| && 0 <= j <= |adj[u]| &&
    s.dist[u].Fin? && s.dist[u].r <= L && (u in popped || s.dist[u].r == L) &&
    SettledUpTo(adj, f, crit, s.dist, u, j)
  }

  /** The test of findPath's relaxation: the edge k of u strictly improves its far end. */
  ghost predicate Improves<E>(adj: Adj<E>, f: (E, int) -> NonNeg, crit: int, dist: seq<Dist>, u: int, k: int)
    requires WellFormed(adj) && |dist| == |adj| && 0 <= u < |adj| && 0 <= k < |adj[u]| && dist[u].Fin?
  {
    var v := adj[u][k].dest;
    dist[v].Inf? || dist[u].r + StepCost(f, crit, adj[u][k]) < dist[v].r
  }

  /** The state after the relaxation of edge k of u succeeds. */
  ghost function Relaxed<E>(adj: Adj<E>, f: (E, int) -> NonNeg, crit: int, s: Search, u: int, k: int): Search
    requires WellFormed(adj) && Sized(adj, s) && 0 <= u < |adj| && 0 <= k < |adj[u]| && s.dist[u].Fin?
  {
    var v := adj[u][k].dest;
    Search(s.dist[v := Fin(s.dist[u].r + StepCost(f, crit, adj[u][k]))], s.pai[v := u], s.via[v := k],
           s.stamp[v := s.clock], s.clock + 1)
  }

  /** The state findPath starts its loop in: only src is finite, at 0, and queued. */
  lemma InitOk<E>(adj: Adj<E>, f: (E, int) -> NonNeg, crit: int, src: int, s: Search)
    requires WellFormed(adj) && Sized(adj, s) && 0 <= src < |adj| && s.clock == 1
    requires forall x :: 0 <= x < |adj| ==>
      s.dist[x] == (if x == src then Fin(0.0) else Inf) && s.pai[x] == -1 && s.stamp[x] == 0
    ensures Outer(adj, f, crit, src, s, multiset{HeapNode(src, 0.0)}, {}, 0.0)
  {
  }

  /** Popping a least entry e leaves the relaxation invariant for e.id with nothing relaxed yet. */
  lemma PopOk<E>(adj: Adj<E>, f: (E, int) -> NonNeg, crit: int, src: int, s: Search,
                 m: multiset<HeapNode>, popped: set<int>, L: real, e: HeapNode)
    requires Outer(adj, f, crit, src, s, m, popped, L) && IsMinOf(e, m)
    ensures Mid(adj, f, crit, src, s, m - multiset{e}, popped, e.p, e.id, 0)
  {
    var u := e.id;
    assert EntryOk(adj, s, L, e);
    forall x | x in m - multiset{e}
      ensures EntryOk(adj, s, e.p, x)
    {
      assert EntryOk(adj, s, L, x);
    }
    forall x | 0 <= x < |adj| && x != u && s.dist[x].Fin? && x !in popped
      ensures InQueue(s, m - multiset{e}, x)
    {
      assert InQueue(s, m, x);
    }
    forall x | x in popped
      ensures DoneOk(adj, f, crit, s, e.p, x)
    {
      assert DoneOk(adj, f, crit, s, L, x);
    }
    if u !in popped {
      assert InQueue(s, m, u);
    } else {
      assert DoneOk(adj, f, crit, s, L, u);
    }
  }

  /** Once all edges of u are relaxed, u joins the popped nodes and the loop invariant is back. */
  lemma FinishOk<E>(adj: Adj<E>, f: (E, int) -> NonNeg, crit: int, src: int, s: Search,
                    m: multiset<HeapNode>, popped: set<int>, L: real, u: int)
    requires Mid(adj, f, crit, src, s, m, popped, L, u, if 0 <= u < |adj| then |adj[u]| else 0)
    ensures Outer(adj, f, crit, src, s, m, popped + {u}, L)
  {
  }

  /** A failed relaxation test means the edge is already relaxed. */
  lemma SkipOk<E>(adj: Adj<E>, f: (E, int) -> NonNeg, crit: int, src: int, s: Search,
                  m: multiset<HeapNode>, popped: set<int>, L: real, u: int, j: int)
    requires Mid(adj, f, crit, src, s, m, popped, L, u, j) && j < |adj[u]|
    requires !Improves(adj, f, crit, s.dist, u, j)
    ensures Mid(adj, f, crit, src, s, m, popped, L, u, j + 1)
  {
    assert EdgeOk(adj, f, crit, s.dist, u, j);
  }

  /**
   * A successful relaxation keeps the predecessor structure: the improved node is neither
   * src nor u, and nodes whose parent it is now come strictly after it.
   */
  lemma RelaxTreeOk<E>(adj: Adj<E>, f: (E, int) -> NonNeg, crit: int, src: int, s: Search,
                       m: multiset<HeapNode>, popped: set<int>, L: real, u: int, j: int)
    requires Mid(adj, f, crit, src, s, m, popped, L, u, j) && j < |adj[u]|
    requires Improves(adj, f, crit, s.dist, u, j)
    ensures adj[u][j].dest != src && adj[u][j].dest != u
    ensures TreeOk(adj, f, crit, src, Relaxed(adj, f, crit, s, u, j))
  {
    var v := adj[u][j].dest;
    var s' := Relaxed(adj, f, crit, s, u, j);
    assert NodeOk(adj, f, crit, src, s, u);
    assert v != u;
    assert v != src;
    forall x | 0 <= x < |adj|
      ensures NodeOk(adj, f, crit, src, s', x)
    {
      assert NodeOk(adj, f, crit, src, s, x);
      if x != v && s'.pai[x] != -1 {
        assert ParentOk(adj, f, crit, s, x);
      }
    }
  }

  /** The improved node is not a popped one, and u is being popped for the first time. */
  lemma RelaxFresh<E>(adj: Adj<E>, f: (E, int) -> NonNeg, crit: int, src: int, s: Search,
                      m: multiset<HeapNode>, popped: set<int>, L: real, u: int, j: int)
    requires Mid(adj, f, crit, src, s, m, popped, L, u, j) && j < |adj[u]|
    requires Improves(adj, f, crit, s.dist, u, j)
    ensures u !in popped && s.dist[u].r == L && adj[u][j].dest !in popped
  {
    assert !EdgeOk(adj, f, crit, s.dist, u, j);
    assert u in popped ==> DoneOk(adj, f, crit, s, L, u);
    assert adj[u][j].dest in popped ==> DoneOk(adj, f, crit, s, L, adj[u][j].dest);
  }

  /** Lowering one distance keeps every popped node settled. */
  lemma RelaxPoppedOk<E>(adj: Adj<E>, f: (E, int) -> NonNeg, crit: int, src: int, s: Search,
                         m: multiset<HeapNode>, popped: set<int>, L: real, u: int, j: int)
    requires Mid(adj, f, crit, src, s, m, popped, L, u, j) && j < |adj[u]|
    requires Improves(adj, f, crit, s.dist, u, j) && adj[u][j].dest !in popped
    ensures PoppedOk(adj, f, crit, Relaxed(adj, f, crit, s, u, j), popped, L)
  {
    var s' := Relaxed(adj, f, crit, s, u, j);
    forall x | x in popped
      ensures DoneOk(adj, f, crit, s', L, x)
    {
      assert DoneOk(adj, f, crit, s, L, x);
      forall k | 0 <= k < |adj[x]|
        ensures EdgeOk(adj, f, crit, s'.dist, x, k)
      {
        assert EdgeOk(adj, f, crit, s.dist, x, k);
      }
    }
  }

  /** After the relaxation the first j + 1 edges of u are relaxed. */
  lemma RelaxSettledOk<E>(adj: Adj<E>, f: (E, int) -> NonNeg, crit: int, src: int, s: Search,
                          m: multiset<HeapNode>, popped: set<int>, L: real, u: int, j: int)
    requires Mid(adj, f, crit, src, s, m, popped, L, u, j) && j < |adj[u]|
    requires Improves(adj, f, crit, s.dist, u, j) && adj[u][j].dest != u
    ensures SettledUpTo(adj, f, crit, Relaxed(adj, f, crit, s, u, j).dist, u, j + 1)
  {
    var s' := Relaxed(adj, f, crit, s, u, j);
    forall k | 0 <= k < j + 1
      ensures EdgeOk(adj, f, crit, s'.dist, u, k)
    {
      if k < j {
        assert EdgeOk(adj, f, crit, s.dist, u, k);
      }
    }
  }

  /** The pushed entry and the old ones satisfy the queue invariants in the relaxed state. */
  lemma RelaxEntriesOk<E>(adj: Adj<E>, f: (E, int) -> NonNeg, crit: int, src: int, s: Search,
                          m: multiset<HeapNode>, popped: set<int>, L: real, u: int, j: int)
    requires Mid(adj, f, crit, src, s, m, popped, L, u, j) && j < |adj[u]|
    requires Improves(adj, f, crit, s.dist, u, j) && adj[u][j].dest != u && s.dist[u].r == L
    ensures EntriesOk(adj, Relaxed(adj, f, crit, s, u, j),
                      m + multiset{HeapNode(adj[u][j].dest, s.dist[u].r + StepCost(f, crit, adj[u][j]))}, L)
    ensures QueuedOk(adj, Relaxed(adj, f, crit, s, u, j),
                     m + multiset{HeapNode(adj[u][j].dest, s.dist[u].r + StepCost(f, crit, adj[u][j]))}, popped, u)
  {
    var v := adj[u][j].dest;
    var s' := Relaxed(adj, f, crit, s, u, j);
    var m' := m + multiset{HeapNode(v, s.dist[u].r + StepCost(f, crit, adj[u][j]))};
    forall x | x in m'
      ensures EntryOk(adj, s', L, x)
    {
      if x in m {
        assert EntryOk(adj, s, L, x);
      }
    }
    forall x | 0 <= x < |adj| && x != u && s'.dist[x].Fin? && x !in popped
      ensures InQueue(s', m', x)
    {
      if x != v {
        assert InQueue(s, m, x);
      }
    }
  }

  /**
   * A successful relaxation, followed by the push of the improved entry, keeps the
   * relaxation invariant with one more edge done; it can only happen while u is popped
   * for the first time.
   */
  lemma RelaxQueueOk<E>(adj: Adj<E>, f: (E, int) -> NonNeg, crit: int, src: int, s: Search,
                        m: multiset<HeapNode>, popped: set<int>, L: real, u: int, j: int)
    requires Mid(adj, f, crit, src, s, m, popped, L, u, j) && j < |adj[u]|
    requires Improves(adj, f, crit, s.dist, u, j)
    ensures u !in popped
    ensures Mid(adj, f, crit, src, Relaxed(adj, f, crit, s, u, j),
                m + multiset{HeapNode(adj[u][j].dest, s.dist[u].r + StepCost(f, crit, adj[u][j]))},
                popped, L, u, j + 1)
  {
    RelaxTreeOk(adj, f, crit, src, s, m, popped, L, u, j);
    RelaxFresh(adj, f, crit, src, s, m, popped, L, u, j);
    RelaxPoppedOk(adj, f, crit, src, s, m, popped, L, u, j);
    RelaxSettledOk(adj, f, crit, src, s, m, popped, L, u, j);
    RelaxEntriesOk(adj, f, crit, src, s, m, popped, L, u, j);
  }

  /** The search state after findPath's test of edge k of u: relaxed when it improves. */
  ghost function Step<E>(adj: Adj<E>, f: (E, int) -> NonNeg, crit: int, s: Search, u: int, k: int): Search
    requires WellFormed(adj) && Sized(adj, s) && 0 <= u < |adj| && 0 <= k < |adj[u]| && s.dist[u].Fin?
  {
    if Improves(adj, f, crit, s.dist, u, k) then Relaxed(adj, f, crit, s, u, k) else s
  }

  /** The queue entries after the same test: the improved far end is pushed with its new distance. */
  ghost function StepQ<E>(adj: Adj<E>, f: (E, int) -> NonNeg, crit: int, s: Search, m: multiset<HeapNode>,
                          u: int, k: int): multiset<HeapNode>
    requires WellFormed(adj) && Sized(adj, s) && 0 <= u < |adj| && 0 <= k < |adj[u]| && s.dist[u].Fin?
  {
    if Improves(adj, f, crit, s.dist, u, k)
    then m + multiset{HeapNode(adj[u][k].dest, s.dist[u].r + StepCost(f, crit, adj[u][k]))}
    else m
  }

  /** The two outcomes of the test of edge k of u, spelled out on the values Step and StepQ take. */
  lemma StepCases<E>(adj: Adj<E>, f: (E, int) -> NonNeg, crit: int, s: Search, m: multiset<HeapNode>, u: int, k: int)
    requires WellFormed(adj) && Sized(adj, s) && 0 <= u < |adj| && 0 <= k < |adj[u]| && s.dist[u].Fin?
    ensures var v, d := adj[u][k].dest, s.dist[u].r + StepCost(f, crit, adj[u][k]);
      if s.dist[v].Inf? || d < s.dist[v].r then
        Step(adj, f, crit, s, u, k) == Relaxed(adj, f, crit, s, u, k) &&
        Relaxed(adj, f, crit, s, u, k).dist == s.dist[v := Fin(d)] &&
        Relaxed(adj, f, crit, s, u, k).pai == s.pai[v := u] &&
        StepQ(adj, f, crit, s, m, u, k) == m + multiset{HeapNode(v, d)}
      else
        Step(adj, f, crit, s, u, k) == s && StepQ(adj, f, crit, s, m, u, k) == m
  {
  }

  /**
   * One edge of the relaxation loop keeps its invariant with one more edge done, and a
   * node popped before improves nothing, since its edges were all relaxed then.
   */
  lemma StepOk<E>(adj: Adj<E>, f: (E, int) -> NonNeg, crit: int, src: int, s: Search,
                  m: multiset<HeapNode>, popped: set<int>, L: real, u: int, j: int)
    requires Mid(adj, f, crit, src, s, m, popped, L, u, j) && j < |adj[u]|
    ensures Improves(adj, f, crit, s.dist, u, j) ==> u !in popped
    ensures Mid(adj, f, crit, src, Step(adj, f, crit, s, u, j), StepQ(adj, f, crit, s, m, u, j),
                popped, L, u, j + 1)
  {
    if Improves(adj, f, crit, s.dist, u, j) {
      RelaxQueueOk(adj, f, crit, src, s, m, popped, L, u, j);
    } else {
      SkipOk(adj, f, crit, src, s, m, popped, L, u, j);
    }
  }

  /**
   * Along any walk from a node within reach c0, either some node stays within reach of its
   * prefix cost, or some queued entry is within that cost.
   */
  lemma {:induction false} WalkBound<E>(adj: Adj<E>, f: (E, int) -> NonNeg, crit: int, src: int, s: Search,
                                        m: multiset<HeapNode>, popped: set<int>, L: real,
                                        p: seq<int>, ks: seq<int>, c0: real)
    requires TreeOk(adj, f, crit, src, s) && QueuedOk(adj, s, m, popped, -1) && PoppedOk(adj, f, crit, s, popped, L)
    requires IsWalk(adj, p, ks)
    requires (s.dist[p[0]].Fin? && s.dist[p[0]].r <= c0) || (exists e :: e in m && e.p <= c0)
    ensures (s.dist[p[|p| - 1]].Fin? && s.dist[p[|p| - 1]].r <= c0 + WalkCost(adj, f, crit, p, ks)) ||
            (exists e :: e in m && e.p <= c0 + WalkCost(adj, f, crit, p, ks))
    decreases |ks|
  {
    if |ks| > 0 {
      var x := p[0];
      var w := StepCost(f, crit, adj[x][ks[0]]);
      if s.dist[x].Fin? && s.dist[x].r <= c0 {
        if x in popped {
          assert DoneOk(adj, f, crit, s, L, x);
          assert EdgeOk(adj, f, crit, s.dist, x, ks[0]);
        } else {
          assert InQueue(s, m, x);
        }
      }
      TailIsWalk(adj, p, ks);
      WalkBound(adj, f, crit, src, s, m, popped, L, p[1..], ks[1..], c0 + w);
    }
  }

  /** The answer findPath relies on for t: unreachable when infinite, optimal when finite. */
  ghost predicate Answer<E>(adj: Adj<E>, f: (E, int) -> NonNeg, crit: int, src: int, t: int, dist: seq<Dist>)
    requires 0 <= t < |dist|
  {
    (dist[t].Inf? ==> !Reachable(adj, src, t)) &&
    (dist[t].Fin? ==> Shortest(adj, f, crit, src, t, dist[t].r))
  }

  /** When a least entry for t is popped, dist[t] is finite and no walk from src to t is cheaper. */
  lemma AnswerAtPop<E>(adj: Adj<E>, f: (E, int) -> NonNeg, crit: int, src: int, s: Search,
                       m: multiset<HeapNode>, popped: set<int>, L: real, e: HeapNode)
    requires Outer(adj, f, crit, src, s, m, popped, L) && IsMinOf(e, m)
    ensures 0 <= e.id < |adj| && s.dist[e.id].Fin?
    ensures Answer(adj, f, crit, src, e.id, s.dist)
  {
    var t := e.id;
    assert EntryOk(adj, s, L, e);
    forall p, ks | IsWalk(adj, p, ks) && p[0] == src && p[|p| - 1] == t
      ensures s.dist[t].r <= WalkCost(adj, f, crit, p, ks)
    {
      WalkBound(adj, f, crit, src, s, m, popped, L, p, ks, 0.0);
    }
  }

  /** When the queue runs dry, every node is answered: reachable nodes are finite and optimal. */
  lemma AnswerAtEmpty<E>(adj: Adj<E>, f: (E, int) -> NonNeg, crit: int, src: int, s: Search,
                         popped: set<int>, L: real, t: int)
    requires Outer(adj, f, crit, src, s, multiset{}, popped, L) && 0 <= t < |adj|
    ensures Reachable(adj, src, t) ==> s.dist[t].Fin?
    ensures Answer(adj, f, crit, src, t, s.dist)
  {
    forall p, ks | IsWalk(adj, p, ks) && p[0] == src && p[|p| - 1] == t
      ensures s.dist[t].Fin? && s.dist[t].r <= WalkCost(adj, f, crit, p, ks)
    {
      WalkBound(adj, f, crit, src, s, multiset{}, popped, L, p, ks, 0.0);
    }
  }

  /**
   * A route rebuilt from an answered distance: empty exactly when t is unreachable, and
   * otherwise of least cost, since it costs no more than dist[t].
   */
  lemma RouteOk<E>(adj: Adj<E>, f: (E, int) -> NonNeg, crit: int, src: int, t: int, dist: seq<Dist>,
                   p: seq<int>, ks: seq<int>)
    requires 0 <= t < |dist| && Answer(adj, f, crit, src, t, dist)
    requires dist[t].Inf? ==> p == []
    requires dist[t].Fin? ==>
      IsWalk(adj, p, ks) && p[0] == src && p[|p| - 1] == t && WalkCost(adj, f, crit, p, ks) <= dist[t].r
    ensures p == [] <==> !Reachable(adj, src, t)
    ensures p != [] ==> IsWalk(adj, p, ks) && Shortest(adj, f, crit, src, t, WalkCost(adj, f, crit, p, ks))
  {
    if dist[t].Fin? {
      assert IsWalk(adj, p, ks);
      ShortestBelow(adj, f, crit, src, t, dist[t].r, WalkCost(adj, f, crit, p, ks));
    }
  }

  /** The total length of the edge lists of the nodes from i on that are not yet popped. */
  ghost function Unspent<E>(adj: Adj<E>, popped: set<int>, i: nat): nat
    decreases |adj| - i
  {
    if i >= |adj| then 0 else (if i in popped then 0 else |adj[i]|) + Unspent(adj, popped, i + 1)
  }

  lemma {:induction false} UnspentAbove<E>(adj: Adj<E>, popped: set<int>, u: int, i: nat)
    requires u < i
    ensures Unspent(adj, popped + {u}, i) == Unspent(adj, popped, i)
    decreases |adj| - i
  {
    if i < |adj| {
      UnspentAbove(adj, popped, u, i + 1);
    }
  }

  /** Popping u for the first time spends its edge list. */
  lemma {:induction false} UnspentDrop<E>(adj: Adj<E>, popped: set<int>, u: int, i: nat)
    requires u !in popped && i <= u < |adj|
    ensures Unspent(adj, popped + {u}, i) + |adj[u]| == Unspent(adj, popped, i)
    decreases |adj| - i
  {
    if i < u {
      UnspentDrop(adj, popped, u, i + 1);
    } else {
      UnspentAbove(adj, popped, u, i + 1);
    }
  }

  /** The predecessor order is transitive. */
  lemma BeforeTrans<E>(adj: Adj<E>, s: Search, a: int, b: int, c: int)
    requires Sized(adj, s) && 0 <= a < |adj| && 0 <= b < |adj| && 0 <= c < |adj|
    requires s.dist[a].Fin? && s.dist[b].Fin? && s.dist[c].Fin?
    requires Before(adj, s, a, b) && Before(adj, s, b, c)
    ensures Before(adj, s, a, c)
  {
  }

  /**
   * The state of the predecessor walk-back from t: q holds the nodes gathered so far, in
   * path order, with edges ks between them, and curr is the next node to gather (-1 when
   * none is left). Every gathered node came after curr, so no node is gathered twice.
   */
  ghost predicate BackInv<E>(adj: Adj<E>, f: (E, int) -> NonNeg, crit: int, src: int, s: Search,
                             t: int, q: seq<int>, ks: seq<int>, curr: int)
    requires TreeOk(adj, f, crit, src, s)
  {
    0 <= t < |adj| && s.dist[t].Fin? &&
    (|q| == 0 <==> curr == t) &&
    (curr != -1 ==> 0 <= curr < |adj| && s.dist[curr].Fin?) &&
    (forall j :: 0 <= j < |q| ==> 0 <= q[j] < |adj| && s.dist[q[j]].Fin?) &&
    (|q| > 0 ==>
      IsWalk(adj, q, ks) && q[|q| - 1] == t && curr == s.pai[q[0]] &&
      s.dist[q[0]].r + WalkCost(adj, f, crit, q, ks) <= s.dist[t].r) &&
    (|q| > 0 && curr != -1 ==> forall j :: 0 <= j < |q| ==> Before(adj, s, curr, q[j])) &&
    (|q| > 0 && curr == -1 ==> q[0] == src) &&
    (t == src && |q| > 0 ==> q == [src] && curr == -1) &&
    Distinct(q)
  }

  /** The edges of the walk once curr is put in front of q. */
  ghost function BackEdges(s: Search, q: seq<int>, ks: seq<int>): seq<int>
    requires |q| > 0 ==> 0 <= q[0] < |s.via|
  {
    if |q| == 0 then [] else [s.via[q[0]]] + ks
  }

  /** Gathering curr keeps the walk-back state, and there was room for it. */
  lemma BackStep<E>(adj: Adj<E>, f: (E, int) -> NonNeg, crit: int, src: int, s: Search,
                    t: int, q: seq<int>, ks: seq<int>, curr: int)
    requires TreeOk(adj, f, crit, src, s) && BackInv(adj, f, crit, src, s, t, q, ks, curr) && curr != -1
    ensures |q| < |adj|
    ensures BackInv(adj, f, crit, src, s, t, [curr] + q, BackEdges(s, q, ks), s.pai[curr])
  {
    BackRoom(adj, f, crit, src, s, t, q, ks, curr);
    BackWalk(adj, f, crit, src, s, t, q, ks, curr);
    BackOrder(adj, f, crit, src, s, t, q, ks, curr);
    assert NodeOk(adj, f, crit, src, s, curr);
  }

  /** The gathered nodes stay distinct with curr in front, so they still fit in n slots. */
  lemma BackRoom<E>(adj: Adj<E>, f: (E, int) -> NonNeg, crit: int, src: int, s: Search,
                    t: int, q: seq<int>, ks: seq<int>, curr: int)
    requires TreeOk(adj, f, crit, src, s) && BackInv(adj, f, crit, src, s, t, q, ks, curr) && curr != -1
    ensures Distinct([curr] + q) && |q| < |adj|
  {
    var q' := [curr] + q;
    assert forall j :: 0 <= j < |q'| ==> 0 <= q'[j] < |adj|;
    DistinctBounded(q', |adj|);
  }

  /** Putting curr in front of q extends the walk to t by the edge via[q[0]], within dist[t]. */
  lemma BackWalk<E>(adj: Adj<E>, f: (E, int) -> NonNeg, crit: int, src: int, s: Search,
                    t: int, q: seq<int>, ks: seq<int>, curr: int)
    requires TreeOk(adj, f, crit, src, s) && BackInv(adj, f, crit, src, s, t, q, ks, curr) && curr != -1
    ensures IsWalk(adj, [curr] + q, BackEdges(s, q, ks)) && ([curr] + q)[|q|] == t
    ensures s.dist[curr].r + WalkCost(adj, f, crit, [curr] + q, BackEdges(s, q, ks)) <= s.dist[t].r
  {
    assert NodeOk(adj, f, crit, src, s, curr);
    if |q| > 0 {
      assert NodeOk(adj, f, crit, src, s, q[0]);
      assert ParentOk(adj, f, crit, s, q[0]);
      Prepend(adj, f, crit, curr, s.via[q[0]], q, ks);
    } else {
      assert IsWalk(adj, [curr], []);
    }
  }

  /** The parent of curr came before curr, hence before every gathered node. */
  lemma BackOrder<E>(adj: Adj<E>, f: (E, int) -> NonNeg, crit: int, src: int, s: Search,
                     t: int, q: seq<int>, ks: seq<int>, curr: int)
    requires TreeOk(adj, f, crit, src, s) && BackInv(adj, f, crit, src, s, t, q, ks, curr) && curr != -1
    ensures s.pai[curr] != -1 ==>
      0 <= s.pai[curr] < |adj| && s.dist[s.pai[curr]].Fin? &&
      forall j :: 0 <= j < |q| + 1 ==> Before(adj, s, s.pai[curr], ([curr] + q)[j])
  {
    var q' := [curr] + q;
    var next := s.pai[curr];
    assert NodeOk(adj, f, crit, src, s, curr);
    if next != -1 {
      assert ParentOk(adj, f, crit, s, curr);
      forall j | 0 <= j < |q'|
        ensures Before(adj, s, next, q'[j])
      {
        if j > 0 {
          BeforeTrans(adj, s, next, curr, q'[j]);
        }
      }
    }
  }

  /**
   * findPath creates its queue with room for one entry per node, but it pushes a node
   * again at every improvement. Three parallel edges 0 -> 1 of falling cost, relaxed right
   * after the start is popped, make three pushes into a queue of capacity two.
   */
  lemma QueueOutgrowsNodes()
    ensures var adj: Adj<NonNeg> := [[Edge(1, 3.0), Edge(1, 2.0), Edge(1, 1.0)], []];
      var f := (w: NonNeg, c: int) => w;
      var s0 := Search([Fin(0.0), Inf], [-1, -1], [0, 0], [0, 0], 1);
      var s1 := Step(adj, f, 0, s0, 0, 0);
      var s2 := Step(adj, f, 0, s1, 0, 1);
      var m := StepQ(adj, f, 0, s2, StepQ(adj, f, 0, s1, StepQ(adj, f, 0, s0, multiset{}, 0, 0), 0, 1), 0, 2);
      |m| == 3 && |m| > |adj|
  {
  }
}
