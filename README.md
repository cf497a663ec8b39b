# Dijkstra route finder — a verified Dafny model

This project models the routing core of a small C city-navigation program. The city is a
directed graph. Each node carries a name and a payload. Each node keeps its outgoing edges
in a singly linked list. `findPath` runs Dijkstra's algorithm over a binary-heap priority
queue and rebuilds the route from the predecessor array. The model also covers:

- the linked list (`Lista.c`) with its iterator;
- the FIFO queue (`fila.c`);
- the DJB2-hashed chained hash table (`hash.c`);
- the road-event table of `main.c`, which records an event on a street in both directions
  and cuts the street's speed when the event blocks it.

Every C module becomes a Dafny module, and every C object that is updated in place becomes
a `class`:

- the list and the queue keep a ghost `Contents` sequence over real linked nodes;
- the heap is an `array`;
- the graph keeps its array of node records and one real edge list per node.

Each method is proved against a specification function of the old and new state. The proved
properties include:

- `findPath` returns an empty list exactly when `end` cannot be reached from `start`;
  otherwise it returns a walk from `start` to `end` that no other walk undercuts. Edge costs
  come from the caller's cost function, under the chosen criterion.
- The heap keeps its order and its multiset of entries; `pq_extract_min` returns a least
  entry; a run of extractions comes out sorted.
- The hash table behaves as a finite map: a put changes the answer for its own key only,
  and a get answers exactly what was put.
- The event table reports for `(u, v)` the earliest event registered on that street, and it
  answers the same for `(v, u)`.

Modules: `Wrappers` (Option), `Walks` (walks, walk costs, reachability, shortest cost),
`Lista`, `Fila`, `PriorityQueue`, `Dijkstra` (the invariants of findPath's loops and their
lemmas), `Graph`, `Hash`, `Eventos`.

## Model

| member | source | states |
|---|---|---|
| Lista.ListaImpl.constructor | src/Lista.c:22-30 | a fresh valid list holding nothing, with null head and tail and size 0 |
| Lista.ListaImpl.Insere | src/Lista.c:32-43 | the element is appended at the tail and the size grows by one: Contents becomes old Contents + [e] |
| Lista.ListaImpl.RemovePrimeiro | src/Lista.c:45-57 | empty list: None, nothing changes; otherwise the head element is returned and Contents loses its first element; the tail is null once the list is empty |
| Lista.ListaImpl.GetPorIndice | src/Lista.c:59-66 | an index in range gives that element; an index past the end gives None; a negative index stops the walk at once and gives the head (None on an empty list) |
| Lista.ListaImpl.Tamanho | src/Lista.c:68 | the size field equals the number of elements |
| Lista.ListaImpl.Vazia | src/Lista.c:69 | true exactly when the list holds nothing |
| Lista.ListaImpl.Libera | src/Lista.c:71-75 | every node is released; the list is left valid and empty |
| Lista.IteradorImpl.constructor | src/Lista.c:77-84 | an iterator over the given list, positioned at its head |
| Lista.IteradorImpl.TemProximo | src/Lista.c:85 | true exactly when elements remain after the current position |
| Lista.IteradorImpl.Proximo | src/Lista.c:86-92 | yields the element at the current position and advances by one; at the end it yields None and stays put |
| Fila.FilaImpl.constructor | src/fila.c:14-17 | a fresh valid queue holding nothing |
| Fila.FilaImpl.Insere | src/fila.c:19-28 | the element joins at the back: Contents becomes old Contents + [e] |
| Fila.FilaImpl.Remove | src/fila.c:30-41 | empty queue: None, nothing changes; otherwise returns the front element and removes it |
| Fila.FilaImpl.Vazia | src/fila.c:43-45 | true exactly when the queue holds nothing |
| Fila.FilaImpl.Libera | src/fila.c:47-51 | every node is released; the queue is left valid and empty |
| Fila.EnqueueThenDrain | src/fila.c:19-41 | FIFO order: inserting xs and then removing until empty yields exactly xs |
| PriorityQueue.PQImpl.constructor | src/priority_queue.c:9-15 | a valid, empty heap with room for cap entries |
| PriorityQueue.PQImpl.Empty | src/priority_queue.c:47 | true exactly when the heap holds no entry |
| PriorityQueue.PQImpl.Insert | src/priority_queue.c:18-27 | with room left, the entry is added to the multiset of entries and heap order is kept |
| PriorityQueue.PQImpl.ExtractMin | src/priority_queue.c:30-45 | empty heap: -1, nothing changes; otherwise returns the id of an entry of least priority, removes exactly that entry and keeps heap order |
| PriorityQueue.PQImpl.SinkRoot | src/priority_queue.c:36-43 | the array after the sift-down loop is the sift-down of the old array, with the last entry moved to the root |
| PriorityQueue.RootIsMinOfEntries | src/priority_queue.c:30-35 | in a heap-ordered array the root has least priority among all live entries |
| PriorityQueue.SiftUpOrders | src/priority_queue.c:21-26 | the sift-up loop restores heap order |
| PriorityQueue.SiftUpKeeps | src/priority_queue.c:21-26 | the sift-up loop only moves entries: the live multiset gains exactly the new entry |
| PriorityQueue.SiftDownOrders | src/priority_queue.c:36-43 | the sift-down loop restores heap order |
| PriorityQueue.SiftDownKeeps | src/priority_queue.c:36-43 | the sift-down loop only moves entries: the live multiset holds the moved last entry in place of the root |
| PriorityQueue.ExtractionRunIsSorted | src/priority_queue.c:30-45 | successive extract-min results come out in non-decreasing priority |
| PriorityQueue.RunExtend | src/priority_queue.c:30-45 | a run of extractions grows by a minimum of what it has left |
| PriorityQueue.Fill | src/priority_queue.c:18-27 | inserting every entry of xs into a fresh queue with room for them leaves exactly multiset(xs) queued |
| PriorityQueue.Drain | src/priority_queue.c:30-47 | calling extract-min until the queue is empty removes a run of extractions: each entry a minimum of what is left, all of them together the old entries, and each id the id of its entry |
| PriorityQueue.InsertThenDrain | src/priority_queue.c:18-47 | filling a queue from xs and draining it yields the entries of xs in non-decreasing priority, with the ids in that order |
| PriorityQueue.ExtractedFromRest | src/priority_queue.c:30-45 | each extracted entry was in the heap |
| PriorityQueue.OrderedIff | src/priority_queue.c:18-45 | the pairwise parent-child order is equivalent to the order of every node against its subtree |
| PriorityQueue.BagIsLive | src/priority_queue.c:18-45 | the multiset built slot by slot equals the live entries 1..size |
| Walks.TailIsWalk | src/graph.c:155-171 | dropping the first step of a walk leaves a walk |
| Walks.ShortestBelow | src/graph.c:144-148 | proof helper about walks: lowering a lower bound on the cost of every walk from s to t keeps it a lower bound |
| Walks.Prepend | src/graph.c:144-148 | an edge followed by a walk is a walk, and its cost is the edge cost plus the walk cost |
| Walks.Stay | src/graph.c:116 | the one-node walk costs zero, so start reaches itself |
| Walks.DistinctBounded | src/graph.c:160-167 | a sequence of distinct node indices below n has length at most n |
| Dijkstra.InitOk | src/graph.c:108-117 | the first state of the main loop satisfies its invariant |
| Dijkstra.PopOk | src/graph.c:124-133 | popping a least entry sets up the edge-relaxation invariant |
| Dijkstra.SkipOk | src/graph.c:144 | a failed relaxation test means the edge is already relaxed |
| Dijkstra.RelaxTreeOk | src/graph.c:144-148 | a successful relaxation keeps the predecessor array acyclic, and each node's parent edge accounts for its distance: dist[pai[x]] + cost <= dist[x] |
| Dijkstra.RelaxFresh | src/graph.c:144-148 | only a first-time popped node improves anything, and never a popped node |
| Dijkstra.RelaxPoppedOk | src/graph.c:144-148 | lowering a distance keeps every popped node settled |
| Dijkstra.RelaxSettledOk | src/graph.c:144-148 | after the test of edge j, edges 0..j of u are relaxed |
| Dijkstra.RelaxEntriesOk | src/graph.c:147 | every queued entry still covers its node: the pushed one and the old ones |
| Dijkstra.RelaxQueueOk | src/graph.c:144-148 | a successful relaxation and its push keep the relaxation invariant |
| Dijkstra.StepOk | src/graph.c:135-149 | one turn of the relaxation loop keeps its invariant; a node popped again improves nothing |
| Dijkstra.FinishOk | src/graph.c:122-151 | once all of u's edges are relaxed, the main-loop invariant holds again with u popped |
| Dijkstra.WalkBound | src/graph.c:122-151 | along any walk, either the end is within cost or some queued entry is below it; this is the key step of the optimality argument |
| Dijkstra.AnswerAtPop | src/graph.c:127 | when a least entry for t is popped, dist[t] is finite and no walk from start to t is cheaper |
| Dijkstra.AnswerAtEmpty | src/graph.c:122 | when the queue runs dry, reachable nodes have finite, optimal distances and the others infinite |
| Dijkstra.RouteOk | src/graph.c:155-174 | the rebuilt route is empty exactly when t is unreachable, and otherwise is a walk of least cost |
| Dijkstra.UnspentDrop | src/graph.c:135-149 | the first pop of u spends its edge list from the remaining push budget |
| Dijkstra.UnspentAbove | src/graph.c:135-149 | popping u does not change the budget counted from any index above u |
| Dijkstra.BeforeTrans | src/graph.c:164-167 | proof helper: the predecessor order is transitive |
| Dijkstra.BackStep | src/graph.c:164-167 | gathering the next predecessor keeps the walk-back invariant, and temp has room for it |
| Dijkstra.BackRoom | src/graph.c:160-165 | the gathered nodes stay distinct, so they fit in the n slots of temp |
| Dijkstra.BackWalk | src/graph.c:164-167 | putting the predecessor in front extends the walk to end by its parent edge, within dist[end] |
| Dijkstra.BackOrder | src/graph.c:164-167 | the next predecessor came before every gathered node, so the loop never revisits one |
| Dijkstra.StepCases | src/graph.c:144-148 | proof helper: the two outcomes of the relaxation test: the relaxed state and one push, or no change |
| Dijkstra.QueueOutgrowsNodes | src/graph.c:115-147 | a reachable state where findPath's queue has held more entries than the graph has nodes |
| Graph.GetToNode | src/graph.c:76 | the edge's destination node |
| Graph.GetEdgeInfo | src/graph.c:77 | the edge's payload |
| Graph.GraphImpl.constructor | src/graph.c:16-21 | a valid graph with room for n nodes and none present |
| Graph.GraphImpl.GetNodeInfo | src/graph.c:43 | the payload stored for node n; AddNode ensures it is the payload the node was added with |
| Graph.GraphImpl.GetTotalNodes | src/graph.c:42 | the number of nodes present |
| Graph.GraphImpl.AddNode | src/graph.c:23-31 | -1 and no change when full; otherwise the next index, holding the name, the payload (GetNodeInfo answers it) and an empty edge list, with no other node changed |
| Graph.GraphImpl.AddEdge | src/graph.c:33-40 | the edge (v, info) is appended at the end of u's list, and no other list changes |
| Graph.GraphImpl.GetNode | src/graph.c:45-50 | the lowest index carrying the name, or -1 exactly when no node has it |
| Graph.GraphImpl.AdjacentEdges | src/graph.c:52-59 | l gains n's edges, in list order, after what it held |
| Graph.GraphImpl.AdjacentNodes | src/graph.c:62-73 | l gains the destinations of n's edges, in list order, after what it held |
| Graph.GraphImpl.FindNearestNode | src/graph.c:79-90 | -1 exactly when the graph is empty; otherwise a node of least squared distance to (x, y), and the lowest such index |
| Graph.GraphImpl.FindPath | src/graph.c:101-182 | an empty list exactly when end is unreachable; otherwise a walk from start to end of least total cost whose nodes are pairwise distinct; [start] when start == end |
| Graph.GraphImpl.Start | src/graph.c:106-117 | every distance infinite except dist[start] = 0, every predecessor -1, the queue holding exactly (start, 0), with room for one entry per edge plus one (the corrected capacity of graph.c:115) |
| Graph.GraphImpl.InitArrays | src/graph.c:106-111 | every distance infinite and every predecessor -1, then dist[start] 0 |
| Graph.GraphImpl.TotalEdges | src/graph.c:115 | part of the corrected queue sizing (see Findings): the total number of edges, summed over the node lists with lista_tamanho |
| Graph.GraphImpl.Explore | src/graph.c:122-151 | on exit the predecessor tree is well formed and dist[end] is the answer: infinite when unreachable, optimal otherwise |
| Graph.GraphImpl.Turn | src/graph.c:124-150 | one turn of the main loop: stop with the answer at end, otherwise keep the invariant and spend budget |
| Graph.GraphImpl.Visit | src/graph.c:131-150 | relaxing a popped node's edges keeps the invariant with the node marked popped |
| Graph.GraphImpl.RelaxEdges | src/graph.c:131-149 | the relaxation loop over u's list relaxes every edge and pushes at most once per edge |
| Graph.GraphImpl.RelaxNext | src/graph.c:135-148 | the iterator yields the next edge of u and it is relaxed |
| Graph.GraphImpl.RelaxEdge | src/graph.c:136-148 | the state after the strict-improvement test: relaxed and pushed when it improves, unchanged otherwise |
| Graph.GraphImpl.Test | src/graph.c:140-144 | the test dist[u] + peso < dist[v], true for an infinite dist[v], is exactly Improves |
| Graph.GraphImpl.Improve | src/graph.c:145-147 | a successful relaxation: the search state becomes Relaxed and v is pushed at its new distance |
| Graph.GraphImpl.Lower | src/graph.c:145-147 | dist[v] and pai[v] are updated and exactly HeapNode(v, d) is pushed |
| Graph.GraphImpl.Reconstruct | src/graph.c:155-174 | an empty list when dist[end] is infinite; otherwise the predecessor chain read from its root: it ends at end, its first node has pai -1, each other node's pai is the node before it; no node repeats, and it is a walk from start costing at most dist[end] |
| Graph.GraphImpl.Backtrack | src/graph.c:160-167 | temp[0..cnt) holds end, pai[end], pai[pai[end]], ... up to the node whose pai is -1 (temp reversed is q, and q is that chain); the nodes are distinct, so cnt <= n, and q is a walk from start within dist[end] |
| Hash.Signed | src/hash.c:21 | the value of a byte read through a signed char |
| Hash.Djb2 | src/hash.c:19-24 | the hash is below 2^64 |
| Hash.HashFunction | src/hash.c:19-24 | the loop computes DJB2 (5381, then h*33 + c per byte, modulo 2^64) over the key's bytes |
| Hash.Find | src/hash.c:54-67 | some value is found exactly when some entry of the chain carries the key |
| Hash.FindAt | src/hash.c:57-63 | a scan that meets the key first at position i answers that entry's value |
| Hash.FindUpdate | src/hash.c:38-43 | overwriting the single entry of k answers v for k and leaves other keys' answers |
| Hash.StoreOk | src/hash.c:33-52 | both ways of storing keep the bucket well formed; k answers v and no other key changes |
| Hash.Scan | src/hash.c:37-45 | the position of the first entry for k, or -1 exactly when the chain has none |
| Hash.HashImpl.Index | src/hash.c:36 | the bucket index is in 0..size-1 |
| Hash.HashImpl.constructor | src/hash.c:26-31 | size empty buckets: every key is absent |
| Hash.HashImpl.Put | src/hash.c:33-52 | key now maps to value, every other key keeps its answer, only key's bucket changes; an existing key keeps the bucket's keys, a new key goes at its head |
| Hash.HashImpl.Get | src/hash.c:54-67 | finds exactly when the key is present, with its value; without a hit, the caller's value is left as it was |
| Eventos.Evento | src/main.c:134-139 | Nenhum when no event matches (u, v); otherwise the type of the earliest matching event |
| Eventos.EventoAppend | src/main.c:134-139 | appending events never changes an answer the earlier events already give |
| Eventos.EventoSym | src/main.c:117-119 | a table filled in mirrored pairs answers alike for (u, v) and (v, u) |
| Eventos.EventoFound | src/main.c:135-137 | the first matching index decides the answer |
| Eventos.Registered | src/main.c:115-120 | after a new pair is registered on a street with no earlier event, both directions report its type |
| Eventos.LastTo | src/main.c:102-112 | None exactly when no edge leads to v; otherwise the payload of the last edge to v |
| Eventos.GetInfoAresta | src/main.c:102-112 | the payload of the last edge from u to v in u's list, or None when there is none |
| Eventos.Drain | src/main.c:106-111 | emptying the copied list with remove-first keeps the last payload for v, and leaves the list empty |
| Eventos.Registro.constructor | src/main.c:63-65 | an empty event table of 300 slots |
| Eventos.Registro.CountEven | src/main.c:115-119 | the event count stays even, so the bound of 298 guards both writes |
| Eventos.Registro.GetEvento | src/main.c:134-139 | the scan answers Evento of the recorded events |
| Eventos.Registro.AdicionarEvento | src/main.c:115-131 | with room, both directions are appended; when both payloads exist and the event blocks, both speeds become 0.1; otherwise no speed changes; a full table is left unchanged |
| Eventos.Registro.Atualizar | src/main.c:122-129 | looks up both payloads, then applies the speed cut, without touching the event table |
| Eventos.Registro.Registrar | src/main.c:117-118 | the two mirrored records are appended and nothing else changes |
| Eventos.Cortar | src/main.c:125-129 | the blocking event types cut both payloads' speed to 0.1; other types leave them alone |

## Left out

- Drawing, the raylib window, textures, the camera, file loading and parsing (`via.c`, `geo.c`, `utils.c`, the rest of `main.c`) are not part of this model.
- Costs are Dafny reals, not IEEE doubles. `DBL_MAX` is modelled as a separate infinite distance, so rounding and overflow of `dist[u] + peso` are not modelled.
- Graph.GraphImpl.FindNearestNode: squared distances are exact reals. The C loop starts from `minD = DBL_MAX` and replaces it only on a strictly smaller value, so it returns -1 on a non-empty graph when every squared distance overflows to infinity or equals `DBL_MAX`; the model, with no overflow, always returns a node of a non-empty graph.
- The edge cost function is a parameter `f(info, crit)` that maps into non-negative reals and reads no heap. So `CustoInteligente` and its reading of `vel` are not modelled. The speed cut of `AdicionarEvento` is modelled as a heap update only.
- Graph.GraphImpl.FindPath: Dijkstra's optimality needs non-negative edge costs, which the C code assumes without checking. The model requires them through the type of `f`.
- Graph.GraphImpl.FindPath: the queue is created with room for one entry per edge plus one, not for `n` entries as in the C code; see Findings. With capacity `n` the C code writes past the heap's array. Graph.GraphImpl.TotalEdges counts the edges for this corrected size.
- Graph.GraphImpl.FindPath: the contract admits any distinct least-cost walk, so it does not state that two calls with the same graph and arguments return the same path. The body is deterministic, since every step of it depends only on the graph, the arguments and `f`, but no ghost function of those inputs pins the result.
- Graph.GraphImpl.FindPath: the branch that breaks on an infinite `dist[u]` is kept, but it is proved unreachable.
- Graph.GraphImpl.AddEdge: requires both endpoints to be present nodes. The C code does not check them and would index out of bounds.
- PriorityQueue.PQImpl.Insert: requires room in the heap. The C code has no capacity check.
- `createGraph`'s `dir` and `nome` arguments are ignored by the C code and are not modelled.
- `getNodeInfo` does not check its index; GraphImpl.GetNodeInfo requires a present node.
- `free` of nodes, `pq_destroy`, `hashTableDestroy`, `iterador_destroi` and the remaining destroy functions only release memory. Memory release is not modelled. `Libera` keeps the object valid and empty.
- Hash buckets are sequences of `(key, value)` entries in chain order, without node identity. `strdup` of keys is not modelled.
- Hash.HashImpl.Get: a NULL `value` pointer is not modelled. The caller's variable is an input `cur` that is returned unchanged on a miss.
- Hash.HashImpl.constructor: requires a positive size. `createHashTable(0)` succeeds in the C code, but every later `%` by the size is then undefined, so a zero-size table cannot serve a put or a get.
- Hash.HashFunction: `char` is taken as signed and `unsigned long` as 64 bits wide, as on x86-64 Linux.
- Lista list elements are values of a type parameter, where the C list holds `void*`. Aliasing through stored pointers is not modelled, except for the `InfoV` payloads of the event code, which are objects.
- Eventos.Registro.AdicionarEvento: requires the event table and the edge payloads to lie outside the graph's own objects. In the program they are separate allocations.
- `MAX_EVENTOS` is 300. The table's slots beyond `numEventos` are not read by the model.

## Findings

| source | as written | input that shows it | evidently intended | confidence | as-written member | corrected member |
|---|---|---|---|---|---|---|
| src/graph.c:115 with src/priority_queue.c:18-27 | findPath creates the heap with room for n entries, and pq_insert never checks capacity, yet a node is pushed again at every improvement of its distance | two nodes, three parallel edges 0 -> 1 of costs 3, 2 and 1: after start is popped, node 1 is pushed three times into a heap of capacity 2 and the array is overrun | room for one entry per edge plus the start's, which bounds the pushes | not executed | Dijkstra.QueueOutgrowsNodes | Graph.GraphImpl.Start |
