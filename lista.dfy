/**
 * The singly linked list with a tail pointer (src/Lista.c) and its forward iterator.
 * The chain of nodes is mirrored by the ghost sequence `nos`; `Contents` is the list's
 * abstract value, head first.
 */
module Lista {
  import opened Wrappers

  /** One link of the chain (`struct no`). */
  class No<T> {
    var dado: T
    var prox: No?<T>

    constructor (d: T)
      ensures dado == d && prox == null
    {
      dado := d;
      prox := null;
    }
  }

  class ListaImpl<T> {
    var prim: No?<T>
    var ult: No?<T>
    var tam: int

    ghost var nos: seq<No<T>>
    ghost var Contents: seq<T>
    ghost var Repr: set<object>

    /** The representation invariant: `tam` counts the chain, whose links are `nos`. */
    ghost predicate Valid()
      reads this, Repr
      ensures Valid() ==> this in Repr
      ensures Valid() ==> (prim == null <==> tam == 0) && (ult == null <==> tam == 0)
    {
      this in Repr &&
      (forall i :: 0 <= i < |nos| ==> nos[i] in Repr) &&
      tam == |nos| == |Contents| &&
      (forall i :: 0 <= i < |nos| ==> nos[i].dado == Contents[i]) &&
      (forall i :: 0 <= i < |nos| - 1 ==> nos[i].prox == nos[i + 1]) &&
      (|nos| == 0 ==> prim == null && ult == null) &&
      (|nos| > 0 ==> prim == nos[0] && ult == nos[|nos| - 1] && ult.prox == null)
    }

    /** lista_cria */
    constructor ()
      ensures Valid() && fresh(Repr)
      ensures Contents == [] && prim == null && ult == null && tam == 0
    {
      prim, ult, tam := null, null, 0;
      nos, Contents := [], [];
      Repr := {this};
    }

    /** lista_insere: append at the tail. */
    method Insere(e: T)
      requires Valid()
      modifies Repr
      ensures Valid() && fresh(Repr - old(Repr)) && old(Repr) <= Repr
      ensures Contents == old(Contents) + [e]
      ensures tam == old(tam) + 1
    {
      var novo := new No(e);
      if ult != null {
        ult.prox := novo;
      } else {
        prim := novo;
      }
      ult := novo;
      tam := tam + 1;
      nos := nos + [novo];
      Contents := Contents + [e];
      Repr := Repr + {novo};
    }

    /** lista_remove_primeiro: None (the C NULL) on an empty list. */
    method RemovePrimeiro() returns (r: Option<T>)
      requires Valid()
      modifies this
      ensures Valid() && Repr <= old(Repr)
      ensures old(Contents) == [] ==> r == None && Contents == [] && tam == old(tam)
      ensures old(Contents) != [] ==>
        r == Some(old(Contents)[0]) && Contents == old(Contents)[1..] && tam == old(tam) - 1
      ensures Contents == [] ==> ult == null
    {
      if prim == null {
        return None;
      }
      var rem := prim;
      var dado := rem.dado;
      prim := rem.prox;
      if prim == null {
        ult := null;
      }
      tam := tam - 1;
      nos := nos[1..];
      Contents := Contents[1..];
      r := Some(dado);
    }

    /**
     * lista_get_por_indice: a walk of at most `indice` links from the head. A negative
     * index makes no step, so it answers the head.
     */
    method GetPorIndice(indice: int) returns (r: Option<T>)
      requires Valid()
      ensures 0 <= indice < |Contents| ==> r == Some(Contents[indice])
      ensures indice >= |Contents| ==> r == None
      ensures indice < 0 ==> r == if Contents == [] then None else Some(Contents[0])
    {
      var atual := prim;
      var i := 0;
      while i < indice && atual != null
        invariant 0 <= i <= |nos|
        invariant indice >= 0 ==> i <= indice
        invariant i < 0 || indice < 0 ==> i == 0
        invariant atual == if i < |nos| then nos[i] else null
      {
        atual := atual.prox;
        i := i + 1;
      }
      r := if atual != null then Some(atual.dado) else None;
    }

    /** lista_tamanho */
    function Tamanho(): (n: int)
      requires Valid()
      reads this, Repr
      ensures n == |Contents|
    {
      tam
    }

    /** lista_vazia */
    function Vazia(): (b: bool)
      requires Valid()
      reads this, Repr
      ensures b <==> Contents == []
    {
      tam == 0
    }

    /** lista_libera, without the final free: drain the list from the head. */
    method Libera()
      requires Valid()
      modifies this
      ensures Valid() && Contents == [] && tam == 0 && prim == null && ult == null
    {
      while tam > 0
        invariant Valid()
        invariant Repr <= old(Repr)
        decreases tam
      {
        var _ := RemovePrimeiro();
      }
    }
  }

  /** The forward cursor of lista_iterador; `pos` is how many elements it has yielded. */
  class IteradorImpl<T> {
    var atual: No?<T>
    ghost const lista: ListaImpl<T>
    ghost var pos: nat

    ghost predicate Valid()
      reads this, lista, lista.Repr
    {
      lista.Valid() &&
      pos <= |lista.nos| &&
      atual == if pos < |lista.nos| then lista.nos[pos] else null
    }

    /** lista_iterador */
    constructor (l: ListaImpl<T>)
      requires l.Valid()
      ensures Valid() && lista == l && pos == 0
    {
      atual := l.prim;
      lista := l;
      pos := 0;
    }

    /** iterador_tem_proximo */
    function TemProximo(): (b: bool)
      requires Valid()
      reads this, lista, lista.Repr
      ensures b <==> pos < |lista.Contents|
    {
      atual != null
    }

    /** iterador_proximo: the next element, or None once the list is exhausted. */
    method Proximo() returns (r: Option<T>)
      requires Valid()
      modifies this
      ensures Valid()
      ensures old(pos) < |lista.Contents| ==> r == Some(lista.Contents[old(pos)]) && pos == old(pos) + 1
      ensures old(pos) == |lista.Contents| ==> r == None && pos == old(pos)
    {
      if atual == null {
        return None;
      }
      var d := atual.dado;
      atual := atual.prox;
      pos := pos + 1;
      r := Some(d);
    }
  }
}
