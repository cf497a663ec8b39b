/**
 * Walks in the node-indexed directed graph of src/graph.c, described on values: the
 * adjacency is a sequence holding, for every node, its outgoing edges in list order, and
 * an edge cost is supplied by a criterion-indexed cost function, as findPath's
 * CalculaCustoAresta argument is.
 */
module Walks {

  /** An outgoing edge: its destination node and its payload. */
  datatype Edge<E> = Edge(dest: int, info: E)

  /** Edge costs are never negative. */
  type NonNeg = r: real | r >= 0.0

  type Adj<E> = seq<seq<Edge<E>>>

  /** Every edge leads to a node of the graph. */
  ghost predicate WellFormed<E>(adj: Adj<E>)
  {
    forall u, k :: 0 <= u < |adj| && 0 <= k < |adj[u]| ==> 0 <= adj[u][k].dest < |adj|
  }

  /** The cost of one edge under criterion crit. */
  function StepCost<E>(f: (E, int) -> NonNeg, crit: int, e: Edge<E>): NonNeg
  {
    f(e.info, crit)
  }

  /**
   * p is a walk whose i-th step leaves p[i] by edge number ks[i] of its list and arrives
   * at p[i + 1]. Parallel edges make the edge choice part of the walk.
   */
  ghost predicate IsWalk<E>(adj: Adj<E>, p: seq<int>, ks: seq<int>)
  {
    |p| == |ks| + 1 &&
    (forall i :: 0 <= i < |p| ==> 0 <= p[i] < |adj|) &&
    (forall i :: 0 <= i < |ks| ==> 0 <= ks[i] < |adj[p[i]]| && adj[p[i]][ks[i]].dest == p[i + 1])
  }

  /** The total cost of a walk: the sum of its edges' costs. */
  ghost function WalkCost<E>(adj: Adj<E>, f: (E, int) -> NonNeg, crit: int, p: seq<int>, ks: seq<int>): real
    requires IsWalk(adj, p, ks)
    ensures WalkCost(adj, f, crit, p, ks) >= 0.0
    decreases |ks|
  {
    if |ks| == 0 then 0.0
    else
      TailIsWalk(adj, p, ks);
      StepCost(f, crit, adj[p[0]][ks[0]]) + WalkCost(adj, f, crit, p[1..], ks[1..])
  }

  /** Dropping the first step of a walk leaves a walk. */
  lemma TailIsWalk<E>(adj: Adj<E>, p: seq<int>, ks: seq<int>)
    requires IsWalk(adj, p, ks) && |ks| > 0
    ensures IsWalk(adj, p[1..], ks[1..])
  {
    forall i | 0 <= i < |ks| - 1
      ensures 0 <= ks[1..][i] < |adj[p[1..][i]]| && adj[p[1..][i]][ks[1..][i]].dest == p[1..][i + 1]
    {
      assert ks[1..][i] == ks[i + 1] && p[1..][i] == p[i + 1] && p[1..][i + 1] == p[i + 2];
    }
  }

  /** Some walk leads from s to t. */
  ghost predicate Reachable<E>(adj: Adj<E>, s: int, t: int)
  {
    exists p, ks :: IsWalk(adj, p, ks) && p[0] == s && p[|p| - 1] == t
  }

  /** No walk from s to t costs less than c. */
  ghost predicate Shortest<E>(adj: Adj<E>, f: (E, int) -> NonNeg, crit: int, s: int, t: int, c: real)
  {
    forall p, ks :: IsWalk(adj, p, ks) && p[0] == s && p[|p| - 1] == t ==> c <= WalkCost(adj, f, crit, p, ks)
  }

  /** A bound below a shortest cost is itself a shortest-cost bound. */
  lemma ShortestBelow<E>(adj: Adj<E>, f: (E, int) -> NonNeg, crit: int, s: int, t: int, c: real, c': real)
    requires Shortest(adj, f, crit, s, t, c) && c' <= c
    ensures Shortest(adj, f, crit, s, t, c')
  {
  }

  /** Putting one edge u -> p[0] in front of a walk leaves a walk that costs that edge more. */
  lemma Prepend<E>(adj: Adj<E>, f: (E, int) -> NonNeg, crit: int, u: int, k: int, p: seq<int>, ks: seq<int>)
    requires IsWalk(adj, p, ks) && 0 <= u < |adj| && 0 <= k < |adj[u]| && adj[u][k].dest == p[0]
    ensures IsWalk(adj, [u] + p, [k] + ks)
    ensures WalkCost(adj, f, crit, [u] + p, [k] + ks) == StepCost(f, crit, adj[u][k]) + WalkCost(adj, f, crit, p, ks)
  {
    var p', ks' := [u] + p, [k] + ks;
    assert p'[1..] == p && ks'[1..] == ks;
    forall i | 0 <= i < |ks'|
      ensures 0 <= ks'[i] < |adj[p'[i]]| && adj[p'[i]][ks'[i]].dest == p'[i + 1]
    {
      if i > 0 {
        assert ks'[i] == ks[i - 1] && p'[i] == p[i - 1] && p'[i + 1] == p[i];
      }
    }
  }

  /** A one-node walk: every node reaches itself at no cost. */
  lemma Stay<E>(adj: Adj<E>, f: (E, int) -> NonNeg, crit: int, s: int)
    requires 0 <= s < |adj|
    ensures IsWalk(adj, [s], []) && WalkCost(adj, f, crit, [s], []) == 0.0
    ensures Reachable(adj, s, s)
  {
    assert IsWalk(adj, [s], []);
  }

  /** No two positions of q hold the same value. */
  ghost predicate Distinct(q: seq<int>)
  {
    forall i, j :: 0 <= i < j < |q| ==> q[i] != q[j]
  }

  /** A set of node indices below n holds at most n of them. */
  lemma {:induction false} BoundedSetSize(xs: set<int>, n: nat)
    requires forall x :: x in xs ==> 0 <= x < n
    ensures |xs| <= n
    decreases n
  {
    if n > 0 {
      BoundedSetSize(xs - {n - 1}, n - 1);
    } else {
      assert forall x :: x in xs ==> false;
      assert xs == {};
    }
  }

  /** A sequence without repetitions has as many distinct values as positions. */
  lemma {:induction false} DistinctSetSize(q: seq<int>)
    requires Distinct(q)
    ensures |set i | 0 <= i < |q| :: q[i]| == |q|
    decreases |q|
  {
    if |q| > 0 {
      var q' := q[..|q| - 1];
      DistinctSetSize(q');
      var s' := set i | 0 <= i < |q'| :: q'[i];
      var s := set i | 0 <= i < |q| :: q[i];
      assert s == s' + {q[|q| - 1]} by {
        forall x | x in s ensures x in s' + {q[|q| - 1]} {
          var i :| 0 <= i < |q| && q[i] == x;
          if i < |q| - 1 {
            assert q'[i] == x;
          }
        }
      }
      assert q[|q| - 1] !in s' by {
        forall i | 0 <= i < |q'|
          ensures q'[i] != q[|q| - 1]
        {
          assert q'[i] == q[i];
        }
      }
    }
  }

  /** Pigeonhole: a repetition-free sequence of nodes below n has length at most n. */
  lemma DistinctBounded(q: seq<int>, n: nat)
    requires Distinct(q) && forall i :: 0 <= i < |q| ==> 0 <= q[i] < n
    ensures |q| <= n
  {
    DistinctSetSize(q);
    BoundedSetSize(set i | 0 <= i < |q| :: q[i], n);
  }
}
