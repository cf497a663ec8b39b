/**
 * The graph of src/graph.c: a fixed-capacity array of nodes, filled from index 0 up, each
 * node holding its name, its payload and a list of its outgoing edges. The payloads, void*
 * in the C code, are the type parameters N (nodes) and E (edges).
 */
module Graph {
  import opened Wrappers
  import opened Lista
  import opened Walks
  import opened Dijkstra
  import opened PriorityQueue

  datatype NodeRec<N, E> = NodeRec(nome: string, info: N, edges: ListaImpl?<Edge<E>>)

  /** The position findNearestNode reads out of a node's payload. */
  datatype Coord = Coord(x: real, y: real)

  /** Squared Euclidean distance from c to (x, y), the quantity findNearestNode compares. */
  function SqDist(c: Coord, x: real, y: real): real
  {
    (c.x - x) * (c.x - x) + (c.y - y) * (c.y - y)
  }

  /** getToNode: the destination of an edge. */
  function GetToNode<E>(e: Edge<E>): int
  {
    e.dest
  }

  /** getEdgeInfo: the payload of an edge. */
  function GetEdgeInfo<E>(e: Edge<E>): E
  {
    e.info
  }

  /**
   * p is the predecessor chain of findPath read from its root: it ends at `end`, its first
   * node has no predecessor, and every other node's predecessor is the node before it.
   */
  ghost predicate PaiChain(pai: seq<int>, p: seq<int>, end: int)
  {
    |p| > 0 && p[|p| - 1] == end &&
    (forall k :: 0 <= k < |p| ==> 0 <= p[k] < |pai|) &&
    pai[p[0]] == -1 &&
    forall k :: 0 <= k < |p| - 1 ==> pai[p[k + 1]] == p[k]
  }

  class GraphImpl<N(0), E> {
    const max: int
    const nodes: array<NodeRec<N, E>>
    var count: int

    /** The edge lists of nodes 0..count-1, in list order. */
    ghost var adj: Adj<E>
    ghost var Repr: set<object>

    ghost predicate Valid()
      reads this, Repr
    {
      this in Repr && nodes in Repr &&
      nodes.Length == max && 0 <= count <= max && |adj| == count && WellFormed(adj) &&
      (forall i :: 0 <= i < count ==>
        nodes[i].edges != null && nodes[i].edges in Repr && nodes[i].edges.Repr <= Repr &&
        this !in nodes[i].edges.Repr && nodes !in nodes[i].edges.Repr &&
        nodes[i].edges.Valid() && nodes[i].edges.Contents == adj[i]) &&
      (forall i, j :: 0 <= i < j < count ==> nodes[i].edges.Repr !! nodes[j].edges.Repr)
    }

    /** createGraph: room for n nodes, none present. The C code ignores `dir` and `nome`. */
    constructor (n: nat)
      ensures Valid() && fresh(Repr)
      ensures max == n && count == 0 && adj == []
    {
      max := n;
      nodes := new NodeRec<N, E>[n];
      count := 0;
      adj := [];
      Repr := {this, nodes};
    }

    /** getTotalNodes */
    function GetTotalNodes(): (n: int)
      requires Valid()
      reads this, Repr
      ensures n == |adj|
    {
      count
    }

    /** getNodeInfo: the payload node n was added with (see AddNode). */
    function GetNodeInfo(n: int): (r: N)
      requires Valid() && 0 <= n < count
      reads this, Repr
      ensures r == nodes[n].info
    {
      nodes[n].info
    }

    /**
     * addNode: -1 and no change when the graph is full; otherwise the next index, holding
     * the name, the payload and an empty edge list.
     */
    method AddNode(nome: string, info: N) returns (id: int)
      requires Valid()
      modifies this, nodes
      ensures Valid() && fresh(Repr - old(Repr))
      ensures old(count) >= max ==> id == -1 && count == old(count) && adj == old(adj)
      ensures old(count) < max ==>
        id == old(count) && count == old(count) + 1 && adj == old(adj) + [[]] &&
        nodes[id].nome == nome && nodes[id].info == info && GetNodeInfo(id) == info
      ensures forall i :: 0 <= i < old(count) ==> nodes[i] == old(nodes[i])
    {
      if count >= max {
        return -1;
      }
      id := count;
      count := count + 1;
      var l := new ListaImpl<Edge<E>>();
      nodes[id] := NodeRec(nome, info, l);
      adj := adj + [[]];
      Repr := Repr + l.Repr;
    }

    /**
     * addEdge: appends one edge to the end of u's list and leaves every other list alone.
     * The C code checks neither index, so both must name present nodes.
     */
    method AddEdge(u: int, v: int, info: E) returns (e: Edge<E>)
      requires Valid() && 0 <= u < count && 0 <= v < count
      modifies Repr
      ensures Valid() && fresh(Repr - old(Repr))
      ensures e == Edge(v, info)
      ensures count == old(count) && adj == old(adj)[u := old(adj)[u] + [e]]
      ensures forall i :: 0 <= i < count ==> nodes[i] == old(nodes[i])
    {
      e := Edge(v, info);
      var l := nodes[u].edges;
      l.Insere(e);
      adj := adj[u := adj[u] + [e]];
      Repr := Repr + l.Repr;
      assert forall i :: 0 <= i < count && i != u ==> nodes[i].edges.Repr !! l.Repr;
    }

    /** getNode: the lowest index holding the name, or -1 when no node has it. */
    method GetNode(nome: string) returns (r: int)
      requires Valid()
      ensures -1 <= r < count
      ensures r >= 0 ==> nodes[r].nome == nome && forall i :: 0 <= i < r ==> nodes[i].nome != nome
      ensures r == -1 ==> forall i :: 0 <= i < count ==> nodes[i].nome != nome
    {
      var i := 0;
      while i < count
        invariant 0 <= i <= count
        invariant forall k :: 0 <= k < i ==> nodes[k].nome != nome
      {
        if nodes[i].nome == nome {
          return i;
        }
        i := i + 1;
      }
      return -1;
    }

    /** adjacentEdges: appends n's edges, in list order, after what l already holds. */
    method AdjacentEdges(n: int, l: ListaImpl<Edge<E>>)
      requires Valid() && 0 <= n < count && l.Valid() && l.Repr !! Repr
      modifies l.Repr
      ensures l.Valid() && fresh(l.Repr - old(l.Repr)) && l.Repr !! Repr
      ensures l.Contents == old(l.Contents) + adj[n]
    {
      var it := new IteradorImpl(nodes[n].edges);
      while it.TemProximo()
        invariant it.Valid() && fresh(it) && it.lista == nodes[n].edges && it !in l.Repr
        invariant l.Valid() && fresh(l.Repr - old(l.Repr)) && l.Repr !! Repr
        invariant it.pos <= |adj[n]| && l.Contents == old(l.Contents) + adj[n][..it.pos]
        decreases |adj[n]| - it.pos
      {
        var x := it.Proximo();
        l.Insere(x.value);
        assert adj[n][..it.pos] == adj[n][..it.pos - 1] + [x.value];
      }
      assert adj[n][..it.pos] == adj[n];
    }

    /** adjacentNodes: appends getToNode of each of n's edges, in list order, after l's elements. */
    method AdjacentNodes(n: int, l: ListaImpl<int>)
      requires Valid() && 0 <= n < count && l.Valid() && l.Repr !! Repr
      modifies l.Repr
      ensures l.Valid() && fresh(l.Repr - old(l.Repr)) && l.Repr !! Repr
      ensures |l.Contents| == |old(l.Contents)| + |adj[n]| && l.Contents[..|old(l.Contents)|] == old(l.Contents)
      ensures forall i :: 0 <= i < |adj[n]| ==> l.Contents[|old(l.Contents)| + i] == GetToNode(adj[n][i])
    {
      var it := new IteradorImpl(nodes[n].edges);
      while it.TemProximo()
        invariant it.Valid() && fresh(it) && it.lista == nodes[n].edges && it !in l.Repr
        invariant l.Valid() && fresh(l.Repr - old(l.Repr)) && l.Repr !! Repr
        invariant it.pos <= |adj[n]| && |l.Contents| == |old(l.Contents)| + it.pos
        invariant l.Contents[..|old(l.Contents)|] == old(l.Contents)
        invariant forall i :: 0 <= i < it.pos ==> l.Contents[|old(l.Contents)| + i] == GetToNode(adj[n][i])
        decreases |adj[n]| - it.pos
      {
        var x := it.Proximo();
        var e := x.value;
        l.Insere(e.dest);
      }
    }

    /**
     * findNearestNode: -1 exactly when the graph has no node; otherwise a node of least
     * squared distance to (x, y), the lowest such index since only a strictly smaller
     * distance replaces the best one. `coord` reads the position out of a payload.
     */
    method FindNearestNode(x: real, y: real, coord: N -> Coord) returns (best: int)
      requires Valid()
      ensures best == -1 <==> count == 0
      ensures best != -1 ==> 0 <= best < count
      ensures best != -1 ==>
        forall i :: 0 <= i < count ==> SqDist(coord(nodes[best].info), x, y) <= SqDist(coord(nodes[i].info), x, y)
      ensures best != -1 ==>
        forall i :: 0 <= i < best ==> SqDist(coord(nodes[best].info), x, y) < SqDist(coord(nodes[i].info), x, y)
    {
      best := -1;
      var minD: Dist := Inf;
      var i := 0;
      while i < count
        invariant 0 <= i <= count
        invariant best == -1 <==> i == 0
        invariant best == -1 <==> minD.Inf?
        invariant best != -1 ==> 0 <= best < i && minD == Fin(SqDist(coord(nodes[best].info), x, y))
        invariant best != -1 ==> forall k :: 0 <= k < i ==> minD.r <= SqDist(coord(nodes[k].info), x, y)
        invariant best != -1 ==> forall k :: 0 <= k < best ==> minD.r < SqDist(coord(nodes[k].info), x, y)
      {
        var d := SqDist(coord(nodes[i].info), x, y);
        if minD.Inf? || d < minD.r {
          minD := Fin(d);
          best := i;
        }
        i := i + 1;
      }
    }

    /**
     * findPath, with the queue sized for every push it can receive (see README, Findings):
     * the path from start to end of least total cost under f(., crit), as a list of node
     * indices, or the empty list when no walk leads from start to end. ks names the edge
     * taken at each step, since parallel edges may differ in cost.
     */
    method FindPath(start: int, end: int, crit: int, f: (E, int) -> NonNeg)
      returns (path: ListaImpl<int>, ghost ks: seq<int>)
      requires Valid() && 0 <= start < count && 0 <= end < count
      ensures path.Valid() && fresh(path.Repr)
      ensures path.Contents == [] <==> !Reachable(adj, start, end)
      ensures path.Contents != [] ==>
        IsWalk(adj, path.Contents, ks) && path.Contents[0] == start &&
        path.Contents[|path.Contents| - 1] == end &&
        Shortest(adj, f, crit, start, end, WalkCost(adj, f, crit, path.Contents, ks))
      ensures |path.Contents| <= count && Distinct(path.Contents)
      ensures start == end ==> path.Contents == [start]
    {
      var dist, pai, pq;
      ghost var s0;
      dist, pai, pq, s0 := Start(start, crit, f);
      ghost var s := Explore(start, end, crit, f, dist, pai, pq, s0);
      path, ks := Reconstruct(f, crit, start, dist, pai, end, s);
      RouteOk(adj, f, crit, start, end, s.dist, path.Contents, ks);
    }

    /**
     * The set-up of findPath: the distance and predecessor arrays, and the queue holding
     * start at priority 0. The queue has room for one entry per edge beyond start's.
     */
    method Start(start: int, ghost crit: int, ghost f: (E, int) -> NonNeg)
      returns (dist: array<Dist>, pai: array<int>, pq: PQImpl, ghost s: Search)
      requires Valid() && 0 <= start < count
      ensures fresh(dist) && fresh(pai) && fresh(pq) && fresh(pq.data)
      ensures dist.Length == count && pai.Length == count
      ensures pq.Valid() && pq.size + Unspent(adj, {}, 0) <= pq.cap
      ensures forall x :: 0 <= x < count ==> dist[x] == (if x == start then Fin(0.0) else Inf) && pai[x] == -1
      ensures pq.cap == Unspent(adj, {}, 0) + 1 && pq.Entries() == multiset{HeapNode(start, 0.0)}
      ensures s.dist == dist[..] && s.pai == pai[..]
      ensures Outer(adj, f, crit, start, s, pq.Entries(), {}, 0.0)
    {
      dist, pai := InitArrays(count, start);
      var total := TotalEdges();
      pq := new PQImpl(total + 1);
      pq.Insert(start, 0.0);
      s := Search(dist[..], pai[..], seq(count, _ => 0), seq(count, _ => 0), 1);
      InitOk(adj, f, crit, start, s);
    }

    /**
     * The main loop of findPath: pop a least entry; stop at `end`; otherwise relax the
     * popped node's edges. On exit dist[end] is the answer: finite and optimal when `end` is
     * reachable, infinite when it is not.
     */
    method Explore(start: int, end: int, crit: int, f: (E, int) -> NonNeg,
                   dist: array<Dist>, pai: array<int>, pq: PQImpl, ghost s0: Search)
      returns (ghost s: Search)
      requires Valid() && 0 <= start < count && 0 <= end < count
      requires {dist, pai, pq, pq.data} !! Repr
      requires pq.Valid() && pq.size + Unspent(adj, {}, 0) <= pq.cap
      requires s0.dist == dist[..] && s0.pai == pai[..]
      requires Outer(adj, f, crit, start, s0, pq.Entries(), {}, 0.0)
      modifies dist, pai, pq, pq.data
      ensures s.dist == dist[..] && s.pai == pai[..]
      ensures TreeOk(adj, f, crit, start, s) && Answer(adj, f, crit, start, end, s.dist)
    {
      ghost var popped: set<int> := {};
      ghost var L := 0.0;
      var found := false;
      s := s0;
      while !pq.Empty()
        invariant pq.Valid() && pq.size + Unspent(adj, popped, 0) <= pq.cap
        invariant s.dist == dist[..] && s.pai == pai[..]
        invariant Outer(adj, f, crit, start, s, pq.Entries(), popped, L)
        invariant !found
        decreases Unspent(adj, popped, 0) + pq.size
      {
        found, s, popped, L := Turn(end, crit, f, start, dist, pai, pq, s, popped, L);
        if found {
          break;
        }
      }
      if !found {
        AnswerAtEmpty(adj, f, crit, start, s, popped, L, end);
      }
    }

    /**
     * One turn of findPath's main loop: pop a least entry for u; at `end`, stop with the
     * answer; otherwise relax u's edges. The branch on an infinite dist[u] cannot be taken,
     * since only finite nodes are ever pushed.
     */
    method Turn(end: int, crit: int, f: (E, int) -> NonNeg, ghost start: int,
                dist: array<Dist>, pai: array<int>, pq: PQImpl, ghost s: Search,
                ghost popped: set<int>, ghost L: real)
      returns (stop: bool, ghost s': Search, ghost popped': set<int>, ghost L': real)
      requires Valid() && {dist, pai, pq, pq.data} !! Repr && 0 <= end < |adj|
      requires pq.Valid() && pq.size > 0 && pq.size + Unspent(adj, popped, 0) <= pq.cap
      requires s.dist == dist[..] && s.pai == pai[..]
      requires Outer(adj, f, crit, start, s, pq.Entries(), popped, L)
      modifies dist, pai, pq, pq.data
      ensures pq.Valid() && s'.dist == dist[..] && s'.pai == pai[..]
      ensures stop ==> TreeOk(adj, f, crit, start, s') && Answer(adj, f, crit, start, end, s'.dist)
      ensures !stop ==> Outer(adj, f, crit, start, s', pq.Entries(), popped', L')
      ensures !stop ==> pq.size + Unspent(adj, popped', 0) < old(pq.size) + Unspent(adj, popped, 0)
    {
      ghost var m := pq.Entries();
      s', popped', L' := s, popped, L;
      var u;
      ghost var e;
      u, e := pq.ExtractMin();
      assert EntryOk(adj, s, L, e);
      if u == end {
        AnswerAtPop(adj, f, crit, start, s, m, popped, L, e);
        return true, s', popped', L';
      }
      if dist[u].Inf? {
        assert false;
        return true, s', popped', L';
      }
      s' := Visit(u, e, crit, f, start, dist, pai, pq, s, m, popped, L);
      popped', L' := popped + {u}, e.p;
      stop := false;
    }

    /**
     * One turn of findPath's main loop after the pop of a least entry e for u: u's edges are
     * relaxed, u counts as popped, and the pushes stay within the edges u had to spend.
     */
    method Visit(u: int, ghost e: HeapNode, crit: int, f: (E, int) -> NonNeg, ghost start: int,
                 dist: array<Dist>, pai: array<int>, pq: PQImpl, ghost s: Search,
                 ghost m: multiset<HeapNode>, ghost popped: set<int>, ghost L: real)
      returns (ghost s': Search)
      requires Valid() && {dist, pai, pq, pq.data} !! Repr
      requires Outer(adj, f, crit, start, s, m, popped, L) && IsMinOf(e, m) && u == e.id
      requires pq.Valid() && pq.Entries() == m - multiset{e} && s.dist == dist[..] && s.pai == pai[..]
      requires pq.size + 1 + Unspent(adj, popped, 0) <= pq.cap
      modifies dist, pai, pq, pq.data
      ensures pq.Valid() && s'.dist == dist[..] && s'.pai == pai[..]
      ensures Outer(adj, f, crit, start, s', pq.Entries(), popped + {u}, e.p)
      ensures pq.size + Unspent(adj, popped + {u}, 0) <= old(pq.size) + Unspent(adj, popped, 0)
    {
      PopOk(adj, f, crit, start, s, m, popped, L, e);
      if u !in popped {
        UnspentDrop(adj, popped, u, 0);
      } else {
        assert popped + {u} == popped;
      }
      ghost var via', stamp', clock';
      via', stamp', clock' := RelaxEdges(u, crit, f, start, dist, pai, pq, s.via, s.stamp, s.clock, popped, e.p);
      s' := Search(dist[..], pai[..], via', stamp', clock');
      FinishOk(adj, f, crit, start, s', pq.Entries(), popped, e.p, u);
    }

    /** The first loop of findPath: every distance infinite and every predecessor -1, then dist[start] = 0. */
    static method InitArrays(n: int, start: int) returns (dist: array<Dist>, pai: array<int>)
      requires 0 <= start < n
      ensures fresh(dist) && fresh(pai) && dist.Length == n && pai.Length == n
      ensures forall x :: 0 <= x < n ==> dist[x] == (if x == start then Fin(0.0) else Inf) && pai[x] == -1
    {
      dist := new Dist[n];
      pai := new int[n];
      var i := 0;
      while i < n
        invariant 0 <= i <= n
        invariant forall x :: 0 <= x < i ==> dist[x] == Inf && pai[x] == -1
      {
        dist[i] := Inf;
        pai[i] := -1;
        i := i + 1;
      }
      dist[start] := Fin(0.0);
    }

    /** The number of edges of the graph, summed over the nodes' lists with lista_tamanho. */
    method TotalEdges() returns (total: int)
      requires Valid()
      ensures total == Unspent(adj, {}, 0)
    {
      total := 0;
      var i := count;
      while i > 0
        invariant 0 <= i <= count
        invariant total == Unspent(adj, {}, i)
      {
        i := i - 1;
        total := total + nodes[i].edges.Tamanho();
      }
    }

    /**
     * The relaxation loop of findPath for the popped node u: each edge of u's list, in list
     * order, goes through RelaxEdge. A node popped before pushes nothing; a node popped for
     * the first time pushes at most one entry per edge, which the caller leaves room for.
     */
    method RelaxEdges(u: int, crit: int, f: (E, int) -> NonNeg, ghost src: int,
                      dist: array<Dist>, pai: array<int>, pq: PQImpl,
                      ghost via: seq<int>, ghost stamp: seq<int>, ghost clock: int,
                      ghost popped: set<int>, ghost L: real)
      returns (ghost via': seq<int>, ghost stamp': seq<int>, ghost clock': int)
      requires pq.Valid() && 0 <= u < |adj| && u < nodes.Length && nodes[u].edges != null
      requires nodes[u].edges.Valid() && nodes[u].edges.Contents == adj[u]
      requires {dist, pai, pq, pq.data} !! nodes[u].edges.Repr
      requires u in popped || pq.size + |adj[u]| <= pq.cap
      requires Mid(adj, f, crit, src, Search(dist[..], pai[..], via, stamp, clock), pq.Entries(), popped, L, u, 0)
      modifies dist, pai, pq, pq.data
      ensures pq.Valid()
      ensures Mid(adj, f, crit, src, Search(dist[..], pai[..], via', stamp', clock'), pq.Entries(), popped, L, u, |adj[u]|)
      ensures pq.size <= old(pq.size) + |adj[u]| && (u in popped ==> pq.size == old(pq.size))
    {
      ghost var S := Search(dist[..], pai[..], via, stamp, clock);
      ghost var sz0 := pq.size;
      var l := nodes[u].edges;
      var it := new IteradorImpl(l);
      while it.TemProximo()
        invariant it.Valid() && fresh(it) && it.lista == l && l.Contents == adj[u]
        invariant {dist, pai, pq, pq.data} !! l.Repr
        invariant pq.Valid() && it.pos <= |adj[u]|
        invariant S.dist == dist[..] && S.pai == pai[..]
        invariant Mid(adj, f, crit, src, S, pq.Entries(), popped, L, u, it.pos)
        invariant pq.size <= sz0 + it.pos && (u in popped || sz0 + |adj[u]| <= pq.cap)
        invariant u in popped ==> pq.size == sz0
        decreases |adj[u]| - it.pos
      {
        S := RelaxNext(it, u, crit, f, src, dist, pai, pq, S, popped, L, sz0);
      }
      via', stamp', clock' := S.via, S.stamp, S.clock;
    }

    /** One turn of the relaxation loop: the iterator yields edge number it.pos of u's list. */
    method RelaxNext(it: IteradorImpl<Edge<E>>, u: int, crit: int, f: (E, int) -> NonNeg, ghost src: int,
                     dist: array<Dist>, pai: array<int>, pq: PQImpl, ghost s: Search,
                     ghost popped: set<int>, ghost L: real, ghost sz0: int)
      returns (ghost s': Search)
      requires it.Valid() && 0 <= u < |adj| && it.lista.Contents == adj[u] && it.pos < |adj[u]|
      requires {dist, pai, pq, pq.data} !! it.lista.Repr
      requires pq.Valid() && pq.size <= sz0 + it.pos && (u in popped || sz0 + |adj[u]| <= pq.cap)
      requires u in popped ==> pq.size == sz0
      requires s.dist == dist[..] && s.pai == pai[..]
      requires Mid(adj, f, crit, src, s, pq.Entries(), popped, L, u, it.pos)
      modifies it, dist, pai, pq, pq.data
      ensures it.Valid() && it.pos == old(it.pos) + 1
      ensures pq.Valid() && s'.dist == dist[..] && s'.pai == pai[..]
      ensures Mid(adj, f, crit, src, s', pq.Entries(), popped, L, u, it.pos)
      ensures pq.size <= sz0 + it.pos && (u in popped ==> pq.size == sz0)
    {
      ghost var j := it.pos;
      var x := it.Proximo();
      StepOk(adj, f, crit, src, s, pq.Entries(), popped, L, u, j);
      s' := RelaxEdge(u, j, x.value, crit, f, dist, pai, pq, s);
    }

    /**
     * The test and update of findPath for edge e, number j of u's list: when it strictly
     * improves the distance of its far end v (an infinite distance always is), v gets the
     * distance through u, u becomes its predecessor and v is pushed; otherwise nothing changes.
     */
    method RelaxEdge(u: int, ghost j: int, e: Edge<E>, crit: int, f: (E, int) -> NonNeg,
                     dist: array<Dist>, pai: array<int>, pq: PQImpl, ghost s: Search)
      returns (ghost s': Search)
      requires pq.Valid() && WellFormed(adj) && Sized(adj, s)
      requires 0 <= u < |adj| && 0 <= j < |adj[u]| && e == adj[u][j] && s.dist[u].Fin?
      requires s.dist == dist[..] && s.pai == pai[..]
      requires Improves(adj, f, crit, s.dist, u, j) ==> pq.size < pq.cap
      modifies dist, pai, pq, pq.data
      ensures s' == Step(adj, f, crit, s, u, j) && s'.dist == dist[..] && s'.pai == pai[..]
      ensures pq.Valid() && pq.Entries() == StepQ(adj, f, crit, s, old(pq.Entries()), u, j)
      ensures pq.size == old(pq.size) + if Improves(adj, f, crit, s.dist, u, j) then 1 else 0
    {
      s' := s;
      var b := Test(u, j, e, crit, f, dist, s);
      StepCases(adj, f, crit, s, pq.Entries(), u, j);
      if b {
        s' := Improve(u, j, e, crit, f, dist, pai, pq, s);
      }
    }

    /** The relaxation test of findPath, dist[u] + peso < dist[v], with DBL_MAX as infinity. */
    method Test(u: int, ghost j: int, e: Edge<E>, crit: int, f: (E, int) -> NonNeg,
                dist: array<Dist>, ghost s: Search) returns (b: bool)
      requires WellFormed(adj) && Sized(adj, s) && s.dist == dist[..]
      requires 0 <= u < |adj| && 0 <= j < |adj[u]| && e == adj[u][j] && s.dist[u].Fin?
      ensures b == Improves(adj, f, crit, s.dist, u, j)
    {
      var v := e.dest;
      var peso := f(e.info, crit);
      b := dist[v].Inf? || dist[u].r + peso < dist[v].r;
    }

    /** A successful relaxation of edge j of u, in the terms of the search state: Relaxed, and the push. */
    method Improve(u: int, ghost j: int, e: Edge<E>, crit: int, f: (E, int) -> NonNeg,
                   dist: array<Dist>, pai: array<int>, pq: PQImpl, ghost s: Search)
      returns (ghost s': Search)
      requires pq.Valid() && pq.size < pq.cap && WellFormed(adj) && Sized(adj, s)
      requires 0 <= u < |adj| && 0 <= j < |adj[u]| && e == adj[u][j] && s.dist[u].Fin?
      requires s.dist == dist[..] && s.pai == pai[..]
      modifies dist, pai, pq, pq.data
      ensures s' == Relaxed(adj, f, crit, s, u, j) && s'.dist == dist[..] && s'.pai == pai[..]
      ensures pq.Valid() && pq.size == old(pq.size) + 1
      ensures pq.Entries() == old(pq.Entries()) + multiset{HeapNode(adj[u][j].dest, s.dist[u].r + StepCost(f, crit, adj[u][j]))}
    {
      var d := dist[u].r + f(e.info, crit);
      assert d == s.dist[u].r + StepCost(f, crit, adj[u][j]);
      s' := Relaxed(adj, f, crit, s, u, j);
      Lower(dist, pai, pq, e.dest, u, d);
    }

    /** The update of a successful relaxation: v gets distance d and predecessor u, and is pushed. */
    static method Lower(dist: array<Dist>, pai: array<int>, pq: PQImpl, v: int, u: int, d: real)
      requires pq.Valid() && pq.size < pq.cap && 0 <= v < dist.Length && v < pai.Length
      modifies dist, pai, pq, pq.data
      ensures dist[..] == old(dist[..])[v := Fin(d)] && pai[..] == old(pai[..])[v := u]
      ensures pq.Valid() && pq.size == old(pq.size) + 1
      ensures pq.Entries() == old(pq.Entries()) + multiset{HeapNode(v, d)}
    {
      dist[v] := Fin(d);
      pai[v] := u;
      pq.Insert(v, d);
    }

    /**
     * The path rebuilding of findPath: the predecessors from `end` back to the node without
     * one are gathered by Backtrack, then put in the list in reverse, so the list runs from
     * src to `end`. It is empty when dist[end] is infinite.
     */
    method Reconstruct(ghost f: (E, int) -> NonNeg, ghost crit: int, ghost src: int,
                       dist: array<Dist>, pai: array<int>, end: int, ghost s: Search)
      returns (path: ListaImpl<int>, ghost ks: seq<int>)
      requires TreeOk(adj, f, crit, src, s) && s.dist == dist[..] && s.pai == pai[..]
      requires 0 <= end < |adj|
      ensures path.Valid() && fresh(path.Repr)
      ensures s.dist[end].Inf? ==> path.Contents == []
      ensures s.dist[end].Fin? ==>
        IsWalk(adj, path.Contents, ks) && path.Contents[0] == src && path.Contents[|path.Contents| - 1] == end &&
        WalkCost(adj, f, crit, path.Contents, ks) <= s.dist[end].r
      ensures |path.Contents| <= |adj|
      ensures end == src ==> path.Contents == [src]
      ensures Distinct(path.Contents)
      ensures path.Contents != [] ==> PaiChain(s.pai, path.Contents, end)
    {
      path := new ListaImpl<int>();
      ks := [];
      if dist[end].Fin? {
        var temp, cnt;
        ghost var q;
        temp, cnt, q, ks := Backtrack(f, crit, src, pai, end, s);
        var i := cnt - 1;
        while i >= 0
          invariant -1 <= i < cnt
          invariant path.Valid() && fresh(path.Repr) && temp !in path.Repr
          invariant forall j :: 0 <= j < cnt ==> q[j] == temp[cnt - 1 - j]
          invariant path.Contents == q[..cnt - 1 - i]
        {
          assert temp[i] == q[cnt - 1 - i];
          path.Insere(temp[i]);
          assert q[..cnt - 1 - (i - 1)] == q[..cnt - 1 - i] + [temp[i]];
          i := i - 1;
        }
        assert q[..cnt] == q;
      }
    }

    /**
     * The first loop of findPath's path rebuilding: temp[0..cnt) holds end, pai[end],
     * pai[pai[end]], ... down to the node whose predecessor is -1. Read backwards it is a
     * walk q from src to end costing at most dist[end]; it never repeats a node, so it fits
     * in n slots.
     */
    method Backtrack(ghost f: (E, int) -> NonNeg, ghost crit: int, ghost src: int,
                     pai: array<int>, end: int, ghost s: Search)
      returns (temp: array<int>, cnt: int, ghost q: seq<int>, ghost ks: seq<int>)
      requires TreeOk(adj, f, crit, src, s) && s.pai == pai[..]
      requires 0 <= end < |adj| && s.dist[end].Fin?
      ensures fresh(temp) && temp.Length == |adj| && 0 < cnt <= |adj| && |q| == cnt
      ensures forall j :: 0 <= j < cnt ==> q[j] == temp[cnt - 1 - j]
      ensures IsWalk(adj, q, ks) && q[0] == src && q[cnt - 1] == end
      ensures WalkCost(adj, f, crit, q, ks) <= s.dist[end].r
      ensures end == src ==> q == [src]
      ensures Distinct(q) && PaiChain(s.pai, q, end)
    {
      var n := pai.Length;
      var curr := end;
      temp := new int[n];
      cnt := 0;
      q, ks := [], [];
      while curr != -1
        invariant 0 <= cnt <= n && |q| == cnt
        invariant forall j :: 0 <= j < cnt ==> q[j] == temp[cnt - 1 - j]
        invariant BackInv(adj, f, crit, src, s, end, q, ks, curr)
        invariant forall k :: 0 <= k < cnt - 1 ==> s.pai[q[k + 1]] == q[k]
        decreases n - cnt
      {
        BackStep(adj, f, crit, src, s, end, q, ks, curr);
        temp[cnt] := curr;
        ks := BackEdges(s, q, ks);
        q := [curr] + q;
        cnt := cnt + 1;
        curr := pai[curr];
      }
    }
  }
}
