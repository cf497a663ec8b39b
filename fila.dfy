/**
 * The FIFO queue of src/fila.c: a chain of `NoFila` links from `inicio` to `fim`, with no
 * size field. The ghost sequence `nos` mirrors the chain and `Contents` is the queue,
 * front first.
 */
module Fila {
  import opened Wrappers

  class NoFila<T> {
    var dado: T
    var prox: NoFila?<T>

    constructor (d: T)
      ensures dado == d && prox == null
    {
      dado := d;
      prox := null;
    }
  }

  class FilaImpl<T> {
    var inicio: NoFila?<T>
    var fim: NoFila?<T>

    ghost var nos: seq<NoFila<T>>
    ghost var Contents: seq<T>
    ghost var Repr: set<object>

    ghost predicate Valid()
      reads this, Repr
      ensures Valid() ==> this in Repr
      ensures Valid() ==> (inicio == null <==> fim == null) && (inicio == null <==> Contents == [])
    {
      this in Repr &&
      (forall i :: 0 <= i < |nos| ==> nos[i] in Repr) &&
      |nos| == |Contents| &&
      (forall i, j :: 0 <= i < j < |nos| ==> nos[i] != nos[j]) &&
      (forall i :: 0 <= i < |nos| ==> nos[i].dado == Contents[i]) &&
      (forall i :: 0 <= i < |nos| - 1 ==> nos[i].prox == nos[i + 1]) &&
      (|nos| == 0 ==> inicio == null && fim == null) &&
      (|nos| > 0 ==> inicio == nos[0] && fim == nos[|nos| - 1] && fim.prox == null)
    }

    /** fila_cria: the zeroed structure of calloc. */
    constructor ()
      ensures Valid() && fresh(Repr)
      ensures Contents == [] && inicio == null && fim == null
    {
      inicio, fim := null, null;
      nos, Contents := [], [];
      Repr := {this};
    }

    /** fila_insere: enqueue at the back. */
    method Insere(e: T)
      requires Valid()
      modifies Repr
      ensures Valid() && fresh(Repr - old(Repr))
      ensures Contents == old(Contents) + [e]
    {
      var novo := new NoFila(e);
      if fim != null {
        fim.prox := novo;
      } else {
        inicio := novo;
      }
      fim := novo;
      nos := nos + [novo];
      Contents := Contents + [e];
      Repr := Repr + {novo};
    }

    /** fila_remove: dequeue the front, None (the C NULL) when empty. */
    method Remove() returns (r: Option<T>)
      requires Valid()
      modifies this
      ensures Valid() && Repr <= old(Repr)
      ensures old(Contents) == [] ==> r == None && Contents == []
      ensures old(Contents) != [] ==> r == Some(old(Contents)[0]) && Contents == old(Contents)[1..]
    {
      if inicio == null {
        return None;
      }
      var temp := inicio;
      var dado := temp.dado;
      inicio := temp.prox;
      if inicio == null {
        fim := null;
      }
      Repr := Repr - {temp};
      nos := nos[1..];
      Contents := Contents[1..];
      r := Some(dado);
    }

    /** fila_vazia */
    function Vazia(): (b: bool)
      requires Valid()
      reads this, Repr
      ensures b <==> Contents == []
    {
      inicio == null
    }

    /** fila_libera, without the final free: dequeue until empty. */
    method Libera()
      requires Valid()
      modifies this
      ensures Valid() && Contents == [] && inicio == null && fim == null
    {
      while !Vazia()
        invariant Valid()
        invariant Repr <= old(Repr)
        decreases |Contents|
      {
        var _ := Remove();
      }
    }
  }

  /**
   * What a caller sees: dequeuing everything after a run of enqueues gives back the
   * elements in the order they were enqueued.
   */
  method EnqueueThenDrain<T>(xs: seq<T>) returns (ys: seq<T>)
    ensures ys == xs
  {
    var f := new FilaImpl<T>();
    var i := 0;
    while i < |xs|
      invariant 0 <= i <= |xs|
      invariant f.Valid() && fresh(f.Repr)
      invariant f.Contents == xs[..i]
    {
      f.Insere(xs[i]);
      i := i + 1;
    }
    ys := [];
    while !f.Vazia()
      invariant f.Valid() && fresh(f.Repr)
      invariant ys + f.Contents == xs
      decreases |f.Contents|
    {
      var r := f.Remove();
      ys := ys + [r.value];
    }
  }
}
