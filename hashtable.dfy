/**
 * The string-keyed, separately chained hash table of src/hashtable.c.
 *
 * The bucket array keeps its length for the table's lifetime; each bucket's
 * linked chain is the sequence of its entries, head first.  Keys are what C
 * string functions see of the caller's key (CStrings.CStr): strdup copies
 * that much, hash_string hashes that much, strcmp compares that much.  The
 * ghost map `Contents` is the table's meaning.
 */
module HashTables {
  import opened Wrappers
  import opened Bytes
  import opened CStrings

  const HASH_SEED: nat := 5381
  const HASH_MODULUS: nat := 0x1_0000_0000

  /** djb2 over the chars of `s`: h := 5381, then h := h * 33 + c for each char, modulo 2^32. */
  function Djb2(s: string): u32
    decreases |s|
  {
    if s == [] then HASH_SEED else (Djb2(s[..|s| - 1]) * 33 + s[|s| - 1] as int) % HASH_MODULUS
  }

  /** The bucket a key belongs to in a table of `n` buckets. */
  function Slot(k: string, n: nat): nat
    requires n > 0
  {
    Djb2(k) % n
  }

  datatype Entry<V> = Entry(key: string, value: V)

  function Lookup<V>(m: map<string, V>, k: string): Option<V> {
    if k in m then Some(m[k]) else None
  }

  /** The value of the first entry of `chain` under `k`: what a chain walk finds. */
  ghost function Find<V>(chain: seq<Entry<V>>, k: string): Option<V> {
    if chain == [] then None
    else if chain[0].key == k then Some(chain[0].value)
    else Find(chain[1..], k)
  }

  ghost predicate DistinctKeys<V>(chain: seq<Entry<V>>) {
    forall i, j | 0 <= i < j < |chain| :: chain[i].key != chain[j].key
  }

  /** Every key of `chain` belongs to bucket `b`, and none is there twice. */
  ghost predicate ChainOk<V>(chain: seq<Entry<V>>, b: nat, n: nat)
    requires n > 0
  {
    && (forall i | 0 <= i < |chain| :: Slot(chain[i].key, n) == b)
    && DistinctKeys(chain)
  }

  /** The number of entries in all buckets. */
  ghost function Total<V>(bs: seq<seq<Entry<V>>>): nat {
    if bs == [] then 0 else Total(bs[..|bs| - 1]) + |bs[|bs| - 1]|
  }

  /** All entries, bucket 0 first and each chain head first: the order hashtable_iterate visits. */
  ghost function Flatten<V>(bs: seq<seq<Entry<V>>>): seq<Entry<V>> {
    if bs == [] then [] else Flatten(bs[..|bs| - 1]) + bs[|bs| - 1]
  }

  /**
   * The table invariant over the buckets as values: every entry sits in the
   * bucket of its key, keys are unique, `count` is the number of entries, and
   * looking a key up in its bucket yields exactly `m`'s value for it.
   */
  ghost predicate Represents<V>(bs: seq<seq<Entry<V>>>, m: map<string, V>, count: nat) {
    && |bs| > 0
    && count == Total(bs)
    && (forall b | 0 <= b < |bs| :: ChainOk(bs[b], b, |bs|))
    && (forall k :: Find(bs[Slot(k, |bs|)], k) == Lookup(m, k))
  }

  /** The first index in `chain` holding `k`, or |chain|: the walk of put, get and remove. */
  method FindIndex<V>(chain: seq<Entry<V>>, k: string) returns (j: nat)
    ensures j <= |chain|
    ensures j < |chain| ==> chain[j].key == k
    ensures forall i | 0 <= i < j :: chain[i].key != k
  {
    j := 0;
    while j < |chain| && chain[j].key != k
      invariant j <= |chain|
      invariant forall i | 0 <= i < j :: chain[i].key != k
    {
      j := j + 1;
    }
  }

  /** What the walk finds is the chain's meaning for `k`. */
  lemma {:induction false} FindAt<V>(chain: seq<Entry<V>>, k: string, j: nat)
    requires j <= |chain| && (j < |chain| ==> chain[j].key == k)
    requires forall i | 0 <= i < j :: chain[i].key != k
    ensures Find(chain, k) == if j < |chain| then Some(chain[j].value) else None
    decreases j
  {
    if chain != [] && j > 0 {
      assert chain[0].key != k;
      FindAt(chain[1..], k, j - 1);
    }
  }

  lemma {:induction false} FindUpdate<V>(chain: seq<Entry<V>>, j: nat, v: V, k': string)
    requires j < |chain|
    requires forall i | 0 <= i < j :: chain[i].key != chain[j].key
    ensures Find(chain[j := Entry(chain[j].key, v)], k') ==
            if k' == chain[j].key then Some(v) else Find(chain, k')
    decreases j
  {
    if j > 0 {
      assert chain[j := Entry(chain[j].key, v)][1..] == chain[1..][j - 1 := Entry(chain[j].key, v)];
      FindUpdate(chain[1..], j - 1, v, k');
    }
  }

  lemma {:induction false} FindRemove<V>(chain: seq<Entry<V>>, j: nat, k': string)
    requires j < |chain| && DistinctKeys(chain)
    ensures Find(chain[..j] + chain[j + 1..], k') ==
            if k' == chain[j].key then None else Find(chain, k')
    decreases j
  {
    if j == 0 {
      assert chain[..0] + chain[1..] == chain[1..];
      if k' == chain[0].key {
        FindAt(chain[1..], k', |chain| - 1);
      }
    } else {
      assert (chain[..j] + chain[j + 1..])[1..] == chain[1..][..j - 1] + chain[1..][j..];
      FindRemove(chain[1..], j - 1, k');
    }
  }

  lemma {:induction false} TotalUpdate<V>(bs: seq<seq<Entry<V>>>, b: nat, c: seq<Entry<V>>)
    requires b < |bs|
    ensures Total(bs[b := c]) + |bs[b]| == Total(bs) + |c|
    decreases |bs|
  {
    var last := |bs| - 1;
    assert bs[b := c][..last] == if b == last then bs[..last] else bs[..last][b := c];
    if b < last {
      TotalUpdate(bs[..last], b, c);
    }
  }

  /** A table of `n > 0` empty buckets represents the empty map. */
  lemma EmptyRepresents<V>(bs: seq<seq<Entry<V>>>)
    requires |bs| > 0 && forall b | 0 <= b < |bs| :: bs[b] == []
    ensures Represents(bs, map[], 0)
  {
    var i := 0;
    while i < |bs|
      invariant 0 <= i <= |bs| && Total(bs[..i]) == 0
    {
      assert bs[..i + 1][..i] == bs[..i];
      i := i + 1;
    }
    assert bs[..|bs|] == bs;
  }

  /** Replacing the value of an existing key keeps the invariant, with the map updated. */
  lemma PutExisting<V>(bs: seq<seq<Entry<V>>>, m: map<string, V>, count: nat, k: string, v: V, j: nat)
    requires Represents(bs, m, count)
    requires j < |bs[Slot(k, |bs|)]| && bs[Slot(k, |bs|)][j].key == k
    ensures var s := Slot(k, |bs|);
            Represents(bs[s := bs[s][j := Entry(k, v)]], m[k := v], count)
  {
    var s := Slot(k, |bs|);
    var c := bs[s][j := Entry(k, v)];
    var bs' := bs[s := c];
    TotalUpdate(bs, s, c);
    forall b | 0 <= b < |bs'|
      ensures ChainOk(bs'[b], b, |bs'|)
    {
      assert ChainOk(bs[b], b, |bs|);
    }
    forall k' ensures Find(bs'[Slot(k', |bs'|)], k') == Lookup(m[k := v], k')
    {
      if Slot(k', |bs|) == s {
        assert ChainOk(bs[s], s, |bs|);
        FindUpdate(bs[s], j, v, k');
      }
    }
  }

  /** Adding an absent key at the front of its bucket keeps the invariant, with one more entry. */
  lemma PutNew<V>(bs: seq<seq<Entry<V>>>, m: map<string, V>, count: nat, k: string, v: V)
    requires Represents(bs, m, count) && k !in m
    ensures var s := Slot(k, |bs|);
            Represents(bs[s := [Entry(k, v)] + bs[s]], m[k := v], count + 1)
  {
    var s := Slot(k, |bs|);
    var c := [Entry(k, v)] + bs[s];
    var bs' := bs[s := c];
    TotalUpdate(bs, s, c);
    assert ChainOk(bs[s], s, |bs|);
    forall i | 0 <= i < |bs[s]| ensures bs[s][i].key != k
    {
      if bs[s][i].key == k {
        assert forall i' | 0 <= i' < i :: bs[s][i'].key != bs[s][i].key;
        FindAt(bs[s], k, i);
      }
    }
    assert c[1..] == bs[s];
    forall b | 0 <= b < |bs'|
      ensures ChainOk(bs'[b], b, |bs'|)
    {
      assert ChainOk(bs[b], b, |bs|);
    }
  }

  /** Unlinking one entry of a chain keeps it a chain of its bucket. */
  lemma ChainRemove<V>(chain: seq<Entry<V>>, j: nat, b: nat, n: nat)
    requires n > 0 && j < |chain| && ChainOk(chain, b, n)
    ensures ChainOk(chain[..j] + chain[j + 1..], b, n)
  {
    var c := chain[..j] + chain[j + 1..];
    forall i | 0 <= i < |c| ensures Slot(c[i].key, n) == b
    {
      if i >= j { assert c[i] == chain[i + 1]; }
    }
    forall i, i' | 0 <= i < i' < |c| ensures c[i].key != c[i'].key
    {
      if i' >= j {
        assert c[i'] == chain[i' + 1];
        if i >= j { assert c[i] == chain[i + 1]; }
      }
    }
  }

  /** Unlinking the entry of a present key keeps the invariant, with that key gone. */
  lemma RemovePresent<V>(bs: seq<seq<Entry<V>>>, m: map<string, V>, count: nat, k: string, j: nat)
    requires Represents(bs, m, count)
    requires j < |bs[Slot(k, |bs|)]| && bs[Slot(k, |bs|)][j].key == k
    ensures var s := Slot(k, |bs|);
            && count > 0
            && Represents(bs[s := bs[s][..j] + bs[s][j + 1..]], m - {k}, count - 1)
  {
    var s := Slot(k, |bs|);
    var c := bs[s][..j] + bs[s][j + 1..];
    var bs' := bs[s := c];
    TotalUpdate(bs, s, c);
    assert ChainOk(bs[s], s, |bs|);
    ChainRemove(bs[s], j, s, |bs|);
    forall b | 0 <= b < |bs'|
      ensures ChainOk(bs'[b], b, |bs'|)
    {
      assert ChainOk(bs[b], b, |bs|);
    }
    forall k' ensures Find(bs'[Slot(k', |bs'|)], k') == Lookup(m - {k}, k')
    {
      if Slot(k', |bs|) == s {
        FindRemove(bs[s], j, k');
      }
    }
  }

  /** Walking bucket 0 to the last, each chain head first, meets exactly the table's entries. */
  lemma {:induction false} FlattenOfChains<V>(bs: seq<seq<Entry<V>>>, n: nat, i: nat)
    requires 0 < n && i <= |bs| <= n
    requires forall b | 0 <= b < |bs| :: ChainOk(bs[b], b, n)
    ensures |Flatten(bs[..i])| == Total(bs[..i])
    ensures forall x | 0 <= x < |Flatten(bs[..i])| :: Slot(Flatten(bs[..i])[x].key, n) < i
    ensures forall e :: e in Flatten(bs[..i]) <==> exists b :: 0 <= b < i && e in bs[b]
    ensures DistinctKeys(Flatten(bs[..i]))
    decreases i
  {
    if i > 0 {
      var pre, last := bs[..i - 1], bs[i - 1];
      assert bs[..i][..i - 1] == pre;
      FlattenOfChains(bs, n, i - 1);
      assert ChainOk(last, i - 1, n);
      var f := Flatten(bs[..i]);
      assert f == Flatten(pre) + last;
      forall x, y | 0 <= x < y < |f| ensures f[x].key != f[y].key
      {
        if y >= |Flatten(pre)| && x < |Flatten(pre)| {
          assert Slot(f[x].key, n) < i - 1;
          assert f[y] == last[y - |Flatten(pre)|];
        }
      }
    }
  }

  /** A chain with unique keys holds `k` exactly when the walk finds it. */
  lemma FindMember<V>(chain: seq<Entry<V>>, k: string, v: V)
    requires DistinctKeys(chain)
    ensures Find(chain, k) == Some(v) <==> Entry(k, v) in chain
  {
    if Entry(k, v) in chain {
      var j :| 0 <= j < |chain| && chain[j] == Entry(k, v);
      FindAt(chain, k, j);
    }
    if Find(chain, k) == Some(v) {
      var j := 0;
      while j < |chain| && chain[j].key != k
        invariant j <= |chain| && forall i | 0 <= i < j :: chain[i].key != k
      {
        j := j + 1;
      }
      FindAt(chain, k, j);
    }
  }

  /**
   * hashtable_iterate visits every stored key exactly once, with its value,
   * and nothing else: as many visits as `count`, no key twice, and the
   * visited pairs are exactly the map's.
   */
  lemma IterateVisitsEachOnce<V>(bs: seq<seq<Entry<V>>>, m: map<string, V>, count: nat)
    requires Represents(bs, m, count)
    ensures |Flatten(bs)| == count
    ensures DistinctKeys(Flatten(bs))
    ensures forall k, v :: Entry(k, v) in Flatten(bs) <==> k in m && m[k] == v
  {
    var n := |bs|;
    FlattenOfChains(bs, n, n);
    assert bs[..n] == bs;
    forall k, v ensures Entry(k, v) in Flatten(bs) <==> k in m && m[k] == v
    {
      var s := Slot(k, n);
      assert ChainOk(bs[s], s, n);
      FindMember(bs[s], k, v);
      if Entry(k, v) in Flatten(bs) {
        var b :| 0 <= b < n && Entry(k, v) in bs[b];
        assert ChainOk(bs[b], b, n);
      }
    }
  }

  class HashTable<V> {
    const buckets: array<seq<Entry<V>>>
    var count: nat
    /** What the table maps each present key to. */
    ghost var Contents: map<string, V>

    /** The objects the table is made of. */
    ghost function Repr(): set<object> {
      {this, buckets}
    }

    ghost predicate Valid()
      reads this, buckets
    {
      Represents(buckets[..], Contents, count)
    }

    /** The successful hashtable_create: `size` empty buckets, count 0. */
    constructor (size: nat)
      requires size > 0
      ensures Valid() && fresh(Repr())
      ensures buckets.Length == size && Contents == map[] && count == 0
      ensures forall b | 0 <= b < size :: buckets[b] == []
    {
      buckets := new seq<Entry<V>>[size](_ => []);
      count := 0;
      Contents := map[];
      new;
      EmptyRepresents(buckets[..]);
    }

    /** hashtable_create: NULL when either calloc fails. */
    static method Create(size: nat, allocOk: bool) returns (t: HashTable?<V>)
      requires size > 0
      ensures allocOk <==> t != null
      ensures t != null ==> t.Valid() && fresh(t.Repr()) && t.buckets.Length == size
      ensures t != null ==> t.Contents == map[] && t.count == 0
    {
      if !allocOk {
        return null;
      }
      t := new HashTable(size);
    }

    /** hash_string: djb2 over the key up to its first NUL. */
    static method HashString(key: string) returns (h: u32)
      ensures h == Djb2(CStr(key))
    {
      h := HASH_SEED;
      var i := 0;
      while i < |key| && key[i] != NUL
        invariant i <= |key| && NUL !in key[..i]
        invariant h == Djb2(key[..i])
      {
        assert key[..i + 1][..i] == key[..i];
        h := (h * 33 + key[i] as int) % HASH_MODULUS;
        i := i + 1;
      }
      CStrUpTo(key, i);
    }

    /**
     * hashtable_put: a NULL key fails and changes nothing.  An equal key
     * already present gets the new value in its place in the chain and the
     * count stays.  Otherwise a
     * new entry goes to the front of its bucket and the count grows by one,
     * unless allocating the entry or its key fails, which changes nothing.
     */
    method Put(key: Option<string>, value: V, allocOk: bool) returns (ok: bool)
      requires Valid()
      modifies this, buckets
      ensures Valid()
      ensures key.None? ==> !ok && Contents == old(Contents) && count == old(count)
      ensures key.Some? ==> ok == (CStr(key.value) in old(Contents) || allocOk)
      ensures key.Some? && ok ==> Contents == old(Contents)[CStr(key.value) := value]
      ensures !ok ==> Contents == old(Contents) && buckets[..] == old(buckets[..]) && count == old(count)
      ensures ok ==> count == old(count) + (if CStr(key.value) in old(Contents) then 0 else 1)
      ensures ok ==> forall b | 0 <= b < buckets.Length && b != Slot(CStr(key.value), buckets.Length) ::
                       buckets[b] == old(buckets[b])
      ensures ok && CStr(key.value) in old(Contents) ==>
                var s := Slot(CStr(key.value), buckets.Length);
                && |buckets[s]| == |old(buckets[s])|
                && forall i | 0 <= i < |buckets[s]| ::
                     buckets[s][i] == if old(buckets[s])[i].key == CStr(key.value) then Entry(CStr(key.value), value)
                                      else old(buckets[s])[i]
      ensures ok && CStr(key.value) !in old(Contents) ==>
                var s := Slot(CStr(key.value), buckets.Length);
                buckets[s] == [Entry(CStr(key.value), value)] + old(buckets[s])
    {
      if key.None? {
        return false;
      }
      var k := CStr(key.value);
      var h := HashString(key.value);
      var s := h % buckets.Length;
      var chain := buckets[s];
      var j := FindIndex(chain, k);
      FindAt(chain, k, j);
      if j < |chain| {
        PutExisting(buckets[..], Contents, count, k, value, j);
        buckets[s] := chain[j := Entry(k, value)];
        Contents := Contents[k := value];
        return true;
      }
      if !allocOk {
        return false;
      }
      PutNew(buckets[..], Contents, count, k, value);
      buckets[s] := [Entry(k, value)] + chain;
      count := count + 1;
      Contents := Contents[k := value];
      ok := true;
    }

    /** hashtable_get: the value stored under an equal key; NULL for a NULL or absent key. */
    method Get(key: Option<string>) returns (r: Option<V>)
      requires Valid()
      ensures r == if key.None? then None else Lookup(Contents, CStr(key.value))
    {
      if key.None? {
        return None;
      }
      var k := CStr(key.value);
      var h := HashString(key.value);
      var chain := buckets[h % buckets.Length];
      var j := FindIndex(chain, k);
      FindAt(chain, k, j);
      if j < |chain| {
        return Some(chain[j].value);
      }
      return None;
    }

    /**
     * hashtable_remove: unlinks the entry of an equal key from its chain,
     * leaving the other entries in order, decrements the count and returns
     * 1; a NULL or absent key returns 0 and changes nothing.
     */
    method Remove(key: Option<string>) returns (ok: bool)
      requires Valid()
      modifies this, buckets
      ensures Valid()
      ensures ok == (key.Some? && CStr(key.value) in old(Contents))
      ensures ok ==> Contents == old(Contents) - {CStr(key.value)} && count == old(count) - 1
      ensures ok ==> forall b | 0 <= b < buckets.Length && b != Slot(CStr(key.value), buckets.Length) ::
                       buckets[b] == old(buckets[b])
      ensures ok ==> var s := Slot(CStr(key.value), buckets.Length);
                     exists j | 0 <= j < |old(buckets[s])| ::
                       old(buckets[s])[j].key == CStr(key.value) && buckets[s] == old(buckets[s])[..j] + old(buckets[s])[j + 1..]
      ensures !ok ==> Contents == old(Contents) && buckets[..] == old(buckets[..]) && count == old(count)
    {
      if key.None? {
        return false;
      }
      var k := CStr(key.value);
      var h := HashString(key.value);
      var s := h % buckets.Length;
      var chain := buckets[s];
      var j := FindIndex(chain, k);
      FindAt(chain, k, j);
      if j == |chain| {
        return false;
      }
      RemovePresent(buckets[..], Contents, count, k, j);
      buckets[s] := chain[..j] + chain[j + 1..];
      count := count - 1;
      Contents := Contents - {k};
      ok := true;
    }

    /**
     * hashtable_iterate: the (key, value) pairs handed to the callback, in
     * order; by IterateVisitsEachOnce each stored pair appears exactly once.
     */
    method Iterate() returns (visits: seq<Entry<V>>)
      requires Valid()
      ensures visits == Flatten(buckets[..])
    {
      visits := [];
      var b := 0;
      while b < buckets.Length
        invariant b <= buckets.Length
        invariant visits == Flatten(buckets[..b])
      {
        var chain := buckets[b];
        ghost var before := visits;
        var i := 0;
        while i < |chain|
          invariant i <= |chain|
          invariant visits == before + chain[..i]
        {
          visits := visits + [chain[i]];
          i := i + 1;
        }
        assert buckets[..b + 1][..b] == buckets[..b];
        assert chain[..i] == chain;
        b := b + 1;
      }
      assert buckets[..b] == buckets[..];
    }
  }
}
