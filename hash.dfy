/**
 * The chained hash table of src/hash.c, from names to ints. Each bucket of the fixed-size
 * array is a chain of (key, value) nodes, here the sequence of its entries from the chain's
 * head; a key goes to bucket hashFunction(key) % size. Keys are C strings: the bytes of the
 * string, without the terminating NUL.
 */
module Hash {
  import opened Wrappers

  /** 2^64: `unsigned long` is 64 bits wide on the LP64 targets the program builds for. */
  const W: int := 0x1_0000_0000_0000_0000

  type Byte = b: int | 0 <= b < 256

  /** A C string holds no NUL before its end. */
  predicate CKey(k: seq<Byte>)
  {
    forall i :: 0 <= i < |k| ==> k[i] != 0
  }

  /** The value the loop's `int c` takes for a byte: plain char is signed on those targets. */
  function Signed(b: Byte): (c: int)
    ensures -128 <= c < 128 && (c + 256) % 256 == b
  {
    if b < 128 then b else b - 256
  }

  /**
   * DJB2 as a fold over the key: 5381, then h * 33 + c for each byte c, all modulo 2^64.
   * `(hash << 5) + hash` is hash * 33 modulo 2^64, and adding a negative c converted to
   * unsigned long is subtracting |c| modulo 2^64, so one `% W` per byte says it all.
   */
  function Djb2(k: seq<Byte>): (h: int)
    ensures 0 <= h < W
    decreases |k|
  {
    if |k| == 0 then 5381 else (Djb2(k[..|k| - 1]) * 33 + Signed(k[|k| - 1])) % W
  }

  /** hashFunction: the loop over the string's bytes up to its NUL. */
  method HashFunction(k: seq<Byte>) returns (h: int)
    requires CKey(k)
    ensures h == Djb2(k)
  {
    h := 5381;
    var i := 0;
    while i < |k|
      invariant 0 <= i <= |k|
      invariant h == Djb2(k[..i])
    {
      assert k[..i + 1][..i] == k[..i];
      h := (h * 33 + Signed(k[i])) % W;
      i := i + 1;
    }
    assert k[..|k|] == k;
  }

  datatype Entry = Entry(key: seq<Byte>, value: int)

  /** The value a scan of the chain from its head finds for k, if any. */
  function Find(chain: seq<Entry>, k: seq<Byte>): (r: Option<int>)
    ensures r.Some? <==> exists i :: 0 <= i < |chain| && chain[i].key == k
    decreases |chain|
  {
    if chain == [] then None
    else if chain[0].key == k then Some(chain[0].value)
    else
      assert forall i :: 0 < i < |chain| ==> chain[i] == chain[1..][i - 1];
      Find(chain[1..], k)
  }

  /** No two entries of the chain share a key. */
  ghost predicate KeysDistinct(chain: seq<Entry>)
  {
    forall i, j :: 0 <= i < j < |chain| ==> chain[i].key != chain[j].key
  }

  /** A scan that passed no entry for k before position i and finds k there answers its value. */
  lemma {:induction false} FindAt(chain: seq<Entry>, k: seq<Byte>, i: int)
    requires 0 <= i < |chain| && chain[i].key == k
    requires forall j :: 0 <= j < i ==> chain[j].key != k
    ensures Find(chain, k) == Some(chain[i].value)
    decreases i
  {
    if i > 0 {
      FindAt(chain[1..], k, i - 1);
    }
  }

  /**
   * Overwriting the value of the entry for k, the only one, makes the scan for k answer
   * the new value and changes no other key's answer.
   */
  lemma {:induction false} FindUpdate(chain: seq<Entry>, i: int, k: seq<Byte>, v: int, k': seq<Byte>)
    requires 0 <= i < |chain| && chain[i].key == k && KeysDistinct(chain)
    ensures Find(chain[i := Entry(k, v)], k') == if k' == k then Some(v) else Find(chain, k')
    decreases i
  {
    var c' := chain[i := Entry(k, v)];
    if i == 0 {
      if k' != k {
        assert c'[1..] == chain[1..];
      }
    } else {
      assert c'[1..] == chain[1..][i - 1 := Entry(k, v)];
      assert KeysDistinct(chain[1..]) by {
        forall a, b | 0 <= a < b < |chain| - 1
          ensures chain[1..][a].key != chain[1..][b].key
        {
          assert chain[1..][a] == chain[a + 1] && chain[1..][b] == chain[b + 1];
        }
      }
      assert c'[0] == chain[0] && chain[0].key != k;
      FindUpdate(chain[1..], i - 1, k, v, k');
    }
  }

  /** Every entry of bucket b is a C string that hashes to b, and no key occurs twice. */
  ghost predicate ChainOk(chain: seq<Entry>, b: int, size: int)
    requires size > 0
  {
    (forall i :: 0 <= i < |chain| ==> CKey(chain[i].key) && Djb2(chain[i].key) % size == b) &&
    KeysDistinct(chain)
  }

  /**
   * The two ways hashPut changes a bucket: overwrite the value of the entry for k, found at
   * position i, or, with no entry for k (i = -1), put a new one at the head. The bucket
   * stays well formed, k now answers v, and every other key answers as before.
   */
  lemma StoreOk(chain: seq<Entry>, b: int, size: int, k: seq<Byte>, v: int, i: int)
    requires size > 0 && ChainOk(chain, b, size) && CKey(k) && Djb2(k) % size == b
    requires (i == -1 && Find(chain, k) == None) || (0 <= i < |chain| && chain[i].key == k)
    ensures ChainOk(Stored(chain, k, v, i), b, size)
    ensures forall k' :: Find(Stored(chain, k, v, i), k') == if k' == k then Some(v) else Find(chain, k')
  {
    var c' := Stored(chain, k, v, i);
    if i >= 0 {
      forall k' | true
        ensures Find(c', k') == if k' == k then Some(v) else Find(chain, k')
      {
        FindUpdate(chain, i, k, v, k');
      }
    } else {
      assert forall j :: 0 < j < |c'| ==> c'[j] == chain[j - 1];
      assert c'[1..] == chain;
    }
  }

  /** The bucket after the store of StoreOk. */
  function Stored(chain: seq<Entry>, k: seq<Byte>, v: int, i: int): seq<Entry>
    requires -1 <= i < |chain|
  {
    if i >= 0 then chain[i := Entry(k, v)] else [Entry(k, v)] + chain
  }

  /**
   * The chain walk shared by hashPut and hashGet: the position of the first entry for k,
   * or -1 when the walk reaches the end of the chain.
   */
  method Scan(chain: seq<Entry>, k: seq<Byte>) returns (i: int)
    ensures -1 <= i < |chain|
    ensures i == -1 <==> Find(chain, k) == None
    ensures i >= 0 ==> chain[i].key == k && Find(chain, k) == Some(chain[i].value)
  {
    i := 0;
    while i < |chain|
      invariant 0 <= i <= |chain|
      invariant forall j :: 0 <= j < i ==> chain[j].key != k
    {
      if chain[i].key == k {
        FindAt(chain, k, i);
        return;
      }
      i := i + 1;
    }
    return -1;
  }

  class HashImpl {
    const size: int
    const buckets: array<seq<Entry>>

    ghost predicate Valid()
      reads this, buckets
    {
      size > 0 && buckets.Length == size &&
      forall b :: 0 <= b < size ==> ChainOk(buckets[b], b, size)
    }

    /** The bucket of a key: hashFunction(key) % h->size. */
    function Index(k: seq<Byte>): (b: int)
      requires size > 0
      reads this
      ensures 0 <= b < size
    {
      Djb2(k) % size
    }

    /** What hashGet answers for k: the scan of k's bucket. */
    ghost function Lookup(k: seq<Byte>): Option<int>
      requires Valid()
      reads this, buckets
    {
      Find(buckets[Index(k)], k)
    }

    /** createHashTable: size empty buckets, as calloc leaves them. A zero size would make every `%` undefined. */
    constructor (size: int)
      requires size > 0
      ensures Valid() && fresh(buckets) && this.size == size
      ensures forall k :: Lookup(k) == None
    {
      this.size := size;
      buckets := new seq<Entry>[size](_ => []);
    }

    /**
     * hashPut: a key already in its bucket gets the new value in place, adding no entry;
     * a new key is put at the head of its bucket. Either way only that bucket changes,
     * Lookup answers the new value for key, and every other key keeps its answer.
     */
    method Put(key: seq<Byte>, value: int)
      requires Valid() && CKey(key)
      modifies buckets
      ensures Valid()
      ensures Lookup(key) == Some(value)
      ensures forall k :: k != key ==> Lookup(k) == old(Lookup(k))
      ensures forall b :: 0 <= b < size && b != Index(key) ==> buckets[b] == old(buckets[b])
      ensures old(Lookup(key)).Some? ==>
        |buckets[Index(key)]| == |old(buckets[Index(key)])| &&
        forall i :: 0 <= i < |buckets[Index(key)]| ==> buckets[Index(key)][i].key == old(buckets[Index(key)])[i].key
      ensures old(Lookup(key)).None? ==> buckets[Index(key)] == [Entry(key, value)] + old(buckets[Index(key)])
    {
      var h := HashFunction(key);
      var idx := h % size;
      var chain := buckets[idx];
      var i := Scan(chain, key);
      StoreOk(chain, idx, size, key, value, i);
      if i >= 0 {
        buckets[idx] := chain[i := Entry(key, value)];
      } else {
        buckets[idx] := [Entry(key, value)] + chain;
      }
      assert buckets[idx] == Stored(chain, key, value, i);
    }

    /**
     * hashGet: found exactly when the key is present, with its value. Without a hit the
     * caller's variable keeps what it held (`cur`), as *value is then not written.
     */
    method Get(key: seq<Byte>, cur: int) returns (found: bool, v: int)
      requires Valid() && CKey(key)
      ensures found <==> Lookup(key).Some?
      ensures found ==> v == Lookup(key).value
      ensures !found ==> v == cur
    {
      var h := HashFunction(key);
      var chain := buckets[h % size];
      var i := Scan(chain, key);
      if i >= 0 {
        return true, chain[i].value;
      }
      return false, cur;
    }
  }
}
