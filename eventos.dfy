/**
 * The street-event bookkeeping of src/main.c: the global table `eventos` of at most
 * MAX_EVENTOS entries filled up to `numEventos`, the lookup of an edge's payload between two
 * nodes, and the registration of an event, which also cuts the speed of both directions of
 * a blocked street.
 */
module Eventos {
  import opened Wrappers
  import opened Lista
  import opened Walks
  import opened Graph

  /** TipoEvento: EV_NENHUM is 0, the others follow in declaration order. */
  datatype TipoEvento = Nenhum | Acidente | Obra | Interditado | Trafego | Radar | NoRadar

  /** The events that block the street for the route planner. */
  predicate Bloqueia(t: TipoEvento)
  {
    t == Acidente || t == Obra || t == Interditado || t == Trafego
  }

  /** EventoVia: an event on the street from node u to node v. */
  datatype EventoVia = EventoVia(u: int, v: int, tipo: TipoEvento)

  const MAX_EVENTOS: int := 300

  /** The payload of a street edge (InfoV); the route cost reads `len` and `vel`. */
  class InfoV {
    const nome: string
    const cepDireito: string
    const cepEsquerdo: string
    const len: real
    var vel: real
  }

  /** The same event seen from the other end of the street. */
  function Mirror(e: EventoVia): EventoVia
  {
    EventoVia(e.v, e.u, e.tipo)
  }

  /** The table is a run of pairs, each an event followed by its mirror, as AdicionarEvento writes them. */
  ghost predicate Paired(s: seq<EventoVia>)
    decreases |s|
  {
    if |s| == 0 then true else |s| >= 2 && s[1] == Mirror(s[0]) && Paired(s[2..])
  }

  lemma {:induction false} PairedAppend(s: seq<EventoVia>, e: EventoVia)
    requires Paired(s)
    ensures Paired(s + [e, Mirror(e)])
    decreases |s|
  {
    if |s| > 0 {
      assert (s + [e, Mirror(e)])[2..] == s[2..] + [e, Mirror(e)];
      PairedAppend(s[2..], e);
    }
  }

  /** A run of pairs has even length. */
  lemma {:induction false} PairedEven(s: seq<EventoVia>)
    requires Paired(s)
    ensures |s| % 2 == 0
    decreases |s|
  {
    if |s| > 0 {
      PairedEven(s[2..]);
    }
  }

  /** Entry e is an event on the street from u to v. */
  predicate Hits(e: EventoVia, u: int, v: int)
  {
    e.u == u && e.v == v
  }

  predicate HasEvento(s: seq<EventoVia>, u: int, v: int)
  {
    exists i :: 0 <= i < |s| && Hits(s[i], u, v)
  }

  /** What a scan of the table from its start reports for the street u -> v: its first event's type. */
  function Evento(s: seq<EventoVia>, u: int, v: int): (r: TipoEvento)
    ensures !HasEvento(s, u, v) ==> r == Nenhum
    ensures HasEvento(s, u, v) ==>
      exists i :: 0 <= i < |s| && Hits(s[i], u, v) && s[i].tipo == r &&
        forall j :: 0 <= j < i ==> !Hits(s[j], u, v)
    decreases |s|
  {
    if |s| == 0 then Nenhum
    else if Hits(s[0], u, v) then s[0].tipo
    else
      var r := Evento(s[1..], u, v);
      assert forall j :: 1 <= j < |s| ==> s[j] == s[1..][j - 1];
      assert HasEvento(s, u, v) ==> HasEvento(s[1..], u, v);
      assert HasEvento(s[1..], u, v) ==> exists i :: (1 <= i < |s| && Hits(s[i], u, v) && s[i].tipo == r &&
        forall j :: 0 <= j < i ==> !Hits(s[j], u, v));
      r
  }

  /** Appending entries leaves the answer for a street already in the table alone. */
  lemma {:induction false} EventoAppend(s: seq<EventoVia>, x: seq<EventoVia>, u: int, v: int)
    ensures Evento(s + x, u, v) == if HasEvento(s, u, v) then Evento(s, u, v) else Evento(x, u, v)
    decreases |s|
  {
    if |s| > 0 {
      assert (s + x)[1..] == s[1..] + x;
      EventoAppend(s[1..], x, u, v);
      if !Hits(s[0], u, v) {
        assert HasEvento(s, u, v) <==> HasEvento(s[1..], u, v) by {
          if HasEvento(s, u, v) {
            var i :| 0 <= i < |s| && Hits(s[i], u, v);
            assert s[1..][i - 1] == s[i];
          }
          if HasEvento(s[1..], u, v) {
            var i :| 0 <= i < |s| - 1 && Hits(s[1..][i], u, v);
            assert s[i + 1] == s[1..][i];
          }
        }
      } else {
        assert HasEvento(s, u, v) by { assert Hits(s[0], u, v); }
      }
    } else {
      assert s + x == x;
    }
  }

  /** Events are registered in both directions, so both ends of a street report the same event. */
  lemma {:induction false} EventoSym(s: seq<EventoVia>, u: int, v: int)
    requires Paired(s)
    ensures Evento(s, u, v) == Evento(s, v, u)
    decreases |s|
  {
    if |s| > 0 {
      EventoSym(s[2..], u, v);
      assert s[1..][1..] == s[2..];
    }
  }

  /** The payloads of a list of edges. */
  ghost function Payloads(es: seq<Edge<InfoV>>): set<InfoV>
  {
    set k | 0 <= k < |es| :: es[k].info
  }

  /** The payload object an Option holds, as a set: what writing through that pointer can change. */
  function Picked(r: Option<InfoV>): set<InfoV>
  {
    if r.Some? then {r.value} else {}
  }

  /** Both directions of the street have an edge. */
  predicate Ambas(ida: Option<InfoV>, volta: Option<InfoV>)
  {
    ida.Some? && volta.Some?
  }

  /** When both directions have an edge, both payloads have the blocked-street speed 0.1. */
  predicate Cortadas(ida: Option<InfoV>, volta: Option<InfoV>)
    reads Picked(ida), Picked(volta)
  {
    Ambas(ida, volta) ==> ida.value.vel == 0.1 && volta.value.vel == 0.1
  }

  /** The payload of the last edge of es that leads to v, if any. */
  function LastTo<E>(es: seq<Edge<E>>, v: int): (r: Option<E>)
    ensures r.None? <==> forall k :: 0 <= k < |es| ==> es[k].dest != v
    ensures r.Some? ==>
      exists k :: 0 <= k < |es| && es[k] == Edge(v, r.value) && forall k' :: k < k' < |es| ==> es[k'].dest != v
    decreases |es|
  {
    if |es| == 0 then None
    else if es[|es| - 1].dest == v then Some(es[|es| - 1].info)
    else
      var r := LastTo(es[..|es| - 1], v);
      assert forall k :: 0 <= k < |es| - 1 ==> es[k] == es[..|es| - 1][k];
      r
  }

  /**
   * GetInfoAresta: copies u's edge list and drains the copy, keeping the payload of the
   * last edge that leads to v, so with parallel edges the last one wins.
   */
  method GetInfoAresta<N(0), E>(g: GraphImpl<N, E>, u: int, v: int) returns (r: Option<E>)
    requires g.Valid() && 0 <= u < g.count
    ensures r == LastTo(g.adj[u], v)
  {
    ghost var es := g.adj[u];
    var viz := new ListaImpl<Edge<E>>();
    g.AdjacentEdges(u, viz);
    assert viz.Contents == es;
    r := Drain(viz, v);
  }

  /** The loop of GetInfoAresta: empties the list from its head, then frees it. */
  method Drain<E>(viz: ListaImpl<Edge<E>>, v: int) returns (r: Option<E>)
    requires viz.Valid()
    modifies viz
    ensures viz.Valid() && viz.Contents == []
    ensures r == LastTo(old(viz.Contents), v)
  {
    ghost var es := viz.Contents;
    r := None;
    ghost var k := 0;
    while !viz.Vazia()
      invariant viz.Valid() && viz.Repr <= old(viz.Repr)
      invariant 0 <= k <= |es| && viz.Contents == es[k..]
      invariant r == LastTo(es[..k], v)
      decreases |viz.Contents|
    {
      var e := viz.RemovePrimeiro();
      assert e.value == es[k];
      if GetToNode(e.value) == v {
        r := Some(GetEdgeInfo(e.value));
      }
      assert es[..k + 1][..k] == es[..k];
      k := k + 1;
    }
    viz.Libera();
    assert es[..k] == es;
  }

  /** The global table `eventos` with its fill count `numEventos`. */
  class Registro {
    const eventos: array<EventoVia>
    var numEventos: int

    ghost predicate Valid()
      reads this, eventos
    {
      eventos.Length == MAX_EVENTOS && 0 <= numEventos <= MAX_EVENTOS - 2 && Paired(eventos[..numEventos])
    }

    /** The registered events, in order. */
    ghost function Contents(): seq<EventoVia>
      requires Valid()
      reads this, eventos
    {
      eventos[..numEventos]
    }

    /** The zero-initialised globals: an all-zero table and no events. */
    constructor ()
      ensures Valid() && fresh(eventos) && Contents() == []
    {
      eventos := new EventoVia[MAX_EVENTOS](_ => EventoVia(0, 0, Nenhum));
      numEventos := 0;
    }

    /** The count stays even: events come in pairs. */
    lemma CountEven()
      requires Valid()
      ensures numEventos % 2 == 0
    {
      PairedEven(eventos[..numEventos]);
    }

    /** GetEvento: the type of the first event registered for the street u -> v, or EV_NENHUM. */
    method GetEvento(u: int, v: int) returns (t: TipoEvento)
      requires Valid()
      ensures t == Evento(Contents(), u, v)
    {
      var i := 0;
      while i < numEventos
        invariant 0 <= i <= numEventos
        invariant forall j :: 0 <= j < i ==> !Hits(eventos[j], u, v)
      {
        if eventos[i].u == u && eventos[i].v == v {
          EventoFound(Contents(), u, v, i);
          return eventos[i].tipo;
        }
        i := i + 1;
      }
      assert !HasEvento(Contents(), u, v);
      return Nenhum;
    }

    /**
     * AdicionarEvento: with room for two more entries, registers the event in both
     * directions; then, when the street has an edge each way and the event blocks it, the
     * payload GetInfoAresta picks for each direction gets speed 0.1. With no room it does
     * nothing at all.
     */
    method AdicionarEvento<N(0)>(g: GraphImpl<N, InfoV>, u: int, v: int, t: TipoEvento)
      requires Valid() && g.Valid() && 0 <= u < g.count && 0 <= v < g.count
      requires this !in g.Repr && eventos !in g.Repr
      requires Payloads(g.adj[u]) !! g.Repr && Payloads(g.adj[v]) !! g.Repr
      modifies this, eventos, Picked(LastTo(g.adj[u], v)), Picked(LastTo(g.adj[v], u))
      ensures Valid() && g.Valid()
      ensures old(numEventos) < MAX_EVENTOS - 2 ==>
        Contents() == old(Contents()) + [EventoVia(u, v, t), EventoVia(v, u, t)]
      ensures old(numEventos) >= MAX_EVENTOS - 2 ==> Contents() == old(Contents())
      ensures old(numEventos) < MAX_EVENTOS - 2 && Bloqueia(t) ==>
        Cortadas(old(LastTo(g.adj[u], v)), old(LastTo(g.adj[v], u)))
      ensures !(old(numEventos) < MAX_EVENTOS - 2 && Bloqueia(t) && Ambas(old(LastTo(g.adj[u], v)), old(LastTo(g.adj[v], u)))) ==>
        unchanged(old(Picked(LastTo(g.adj[u], v))), old(Picked(LastTo(g.adj[v], u))))
    {
      if numEventos < MAX_EVENTOS - 2 {
        Registrar(u, v, t, g, Picked(LastTo(g.adj[u], v)) + Picked(LastTo(g.adj[v], u)));
        Atualizar(g, u, v, t);
      }
    }

    /**
     * The second half of AdicionarEvento: look up the payload of each direction of the
     * street, then cut both speeds when both exist and the event blocks the street.
     */
    method Atualizar<N(0)>(g: GraphImpl<N, InfoV>, u: int, v: int, t: TipoEvento)
      requires Valid() && g.Valid() && 0 <= u < g.count && 0 <= v < g.count
      requires Payloads(g.adj[u]) !! g.Repr && Payloads(g.adj[v]) !! g.Repr
      modifies Picked(LastTo(g.adj[u], v)), Picked(LastTo(g.adj[v], u))
      ensures Valid() && Contents() == old(Contents()) && g.Valid()
      ensures Bloqueia(t) ==> Cortadas(old(LastTo(g.adj[u], v)), old(LastTo(g.adj[v], u)))
      ensures !(Bloqueia(t) && Ambas(old(LastTo(g.adj[u], v)), old(LastTo(g.adj[v], u)))) ==>
        unchanged(old(Picked(LastTo(g.adj[u], v))), old(Picked(LastTo(g.adj[v], u))))
    {
      ghost var au, av := g.adj[u], g.adj[v];
      var ida := GetInfoAresta(g, u, v);
      var volta := GetInfoAresta(g, v, u);
      assert ida == LastTo(au, v) && volta == LastTo(av, u);
      assert Picked(ida) <= Payloads(au) && Picked(volta) <= Payloads(av);
      Cortar(ida, volta, t, g, this);
    }

    /** The two table writes of AdicionarEvento, made when there is room for them. */
    method Registrar<N(0)>(u: int, v: int, t: TipoEvento, ghost g: GraphImpl<N, InfoV>, ghost cuts: set<InfoV>)
      requires Valid() && numEventos < MAX_EVENTOS - 2
      requires g.Valid() && this !in g.Repr && eventos !in g.Repr
      modifies this, eventos
      ensures Valid() && Contents() == old(Contents()) + [EventoVia(u, v, t), EventoVia(v, u, t)]
      ensures g.Valid() && unchanged(cuts)
    {
      ghost var s := Contents();
      PairedEven(s);
      PairedAppend(s, EventoVia(u, v, t));
      eventos[numEventos] := EventoVia(u, v, t);
      eventos[numEventos + 1] := EventoVia(v, u, t);
      numEventos := numEventos + 2;
      assert eventos[..numEventos] == s + [EventoVia(u, v, t), EventoVia(v, u, t)];
    }
  }

  /**
   * The speed cut of AdicionarEvento: when both directions of the street have an edge and
   * the event blocks it, both payloads get speed 0.1; otherwise nothing changes. The ghost
   * graph and table are there to record that payload writes touch neither of them.
   */
  method Cortar<N(0)>(ida: Option<InfoV>, volta: Option<InfoV>, t: TipoEvento, ghost g: GraphImpl<N, InfoV>, ghost r: Registro)
    requires g.Valid() && Picked(ida) !! g.Repr && Picked(volta) !! g.Repr && r.Valid()
    modifies Picked(ida), Picked(volta)
    ensures g.Valid() && r.Valid() && r.Contents() == old(r.Contents())
    ensures Bloqueia(t) ==> Cortadas(ida, volta)
    ensures !(Bloqueia(t) && Ambas(ida, volta)) ==> unchanged(Picked(ida), Picked(volta))
  {
    if Ambas(ida, volta) && Bloqueia(t) {
      ida.value.vel := 0.1;
      volta.value.vel := 0.1;
    }
  }

  /** A scan that passed no entry for the street before position i and hits it there reports its type. */
  lemma {:induction false} EventoFound(s: seq<EventoVia>, u: int, v: int, i: int)
    requires 0 <= i < |s| && Hits(s[i], u, v) && forall j :: 0 <= j < i ==> !Hits(s[j], u, v)
    ensures Evento(s, u, v) == s[i].tipo
    decreases i
  {
    if i > 0 {
      assert s[1..][i - 1] == s[i];
      EventoFound(s[1..], u, v, i - 1);
    }
  }

  /** Registering an event on a street with none makes GetEvento report it from both ends. */
  lemma Registered(s: seq<EventoVia>, u: int, v: int, t: TipoEvento)
    requires Paired(s) && !HasEvento(s, u, v)
    ensures Evento(s + [EventoVia(u, v, t), EventoVia(v, u, t)], u, v) == t
    ensures Evento(s + [EventoVia(u, v, t), EventoVia(v, u, t)], v, u) == t
  {
    var x := [EventoVia(u, v, t), EventoVia(v, u, t)];
    EventoAppend(s, x, u, v);
    assert Hits(x[0], u, v);
    PairedAppend(s, EventoVia(u, v, t));
    EventoSym(s + x, u, v);
  }
}
