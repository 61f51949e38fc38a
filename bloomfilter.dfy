/** The filter object: a fixed sequence of hash functions, each paired with
    its own bit array of `bitsPerTable` bits, which inserts update in place. */
module Bloom {
  import opened Tables

  /** A bit array of n bits, all cleared (zeroed_bitarray). */
  method ZeroedBitarray(n: nat) returns (a: array<bool>)
    ensures fresh(a) && a.Length == n
    ensures forall q :: 0 <= q < n ==> !a[q]
  {
    a := new bool[n];
    var q := 0;
    while q < n
      invariant 0 <= q <= n
      invariant forall p :: 0 <= p < q ==> !a[p]
    {
      a[q] := false;
      q := q + 1;
    }
  }

  class BloomFilter<K> {
    const bitsPerTable: nat
    /** The hash functions, in the order their tables are visited. */
    const hashFuncs: seq<HashFunc<K>>
    /** tables[i] is the bit array of hashFuncs[i]. */
    const tables: seq<array<bool>>
    /** The bits of every table, as a value. */
    ghost var Contents: seq<seq<bool>>

    ghost predicate Valid()
      reads this, tables
    {
      bitsPerTable > 0 && |hashFuncs| > 0 && |tables| == |hashFuncs| &&
      (forall i, j :: 0 <= i < j < |tables| ==> tables[i] != tables[j]) &&
      |Contents| == |tables| &&
      (forall i :: 0 <= i < |tables| ==> tables[i].Length == bitsPerTable && Contents[i] == tables[i][..])
    }

    /** Builds the filter once its configuration has been accepted: one zeroed
        table per hash function. */
    constructor (m: nat, hs: seq<HashFunc<K>>)
      requires m > 0 && |hs| > 0
      ensures Valid()
      ensures bitsPerTable == m && hashFuncs == hs
      ensures Contents == Zeroed(|hs|, m)
      ensures forall i :: 0 <= i < |tables| ==> fresh(tables[i])
    {
      bitsPerTable := m;
      hashFuncs := hs;
      var ts: seq<array<bool>> := [];
      while |ts| < |hs|
        invariant |ts| <= |hs|
        invariant forall i :: 0 <= i < |ts| ==> fresh(ts[i]) && ts[i].Length == m
        invariant forall i, q :: 0 <= i < |ts| && 0 <= q < m ==> !ts[i][q]
        invariant forall i, j :: 0 <= i < j < |ts| ==> ts[i] != ts[j]
      {
        var t := ZeroedBitarray(m);
        ts := ts + [t];
      }
      tables := ts;
      Contents := Zeroed(|hs|, m);
      new;
      forall i | 0 <= i < |tables|
        ensures Contents[i] == tables[i][..]
      {
        assert forall q :: 0 <= q < m ==> Contents[i][q] == tables[i][q];
      }
    }

    /** The index hash function i gives for key (_get_hash): the function is
        called with the key and bitsPerTable, and its result is the index, with
        no scaling; table i accepts it exactly when it lies in [-bitsPerTable,
        bitsPerTable), and an index in [0, bitsPerTable) is the bit used. */
    function Hash(i: nat, key: K): (r: int)
      requires i < |hashFuncs|
      ensures r == hashFuncs[i](key, bitsPerTable)
      ensures Indexable(hashFuncs, key, bitsPerTable, i) <==> -(bitsPerTable as int) <= r < bitsPerTable
      ensures 0 <= r < bitsPerTable ==> Lands(hashFuncs, key, bitsPerTable, i, r)
    {
      hashFuncs[i](key, bitsPerTable)
    }

    /** Membership test (__getitem__ and __contains__): visits the pairs in
        order, stops with false at the first unset bit and raises on an index
        the table refuses; changes nothing. */
    method Contains(key: K) returns (r: Result<bool>)
      requires Valid()
      ensures r == Query(Contents, hashFuncs, key, bitsPerTable)
    {
      var i := 0;
      while i < |tables|
        invariant 0 <= i <= |tables|
        invariant QueryFrom(Contents, hashFuncs, key, bitsPerTable, i) == Query(Contents, hashFuncs, key, bitsPerTable)
      {
        var index := Hash(i, key);
        var slot := Slot(index, bitsPerTable);
        if slot.None? {
          return Err(HashFunctionError(i, index));
        }
        if !tables[i][slot.value] {
          return Ok(false);
        }
        i := i + 1;
      }
      return Ok(true);
    }

    /** Insert (__setitem__; the assigned value is ignored): sets the key's bit
        in each table in turn; an index a table refuses raises at once. */
    method Insert(key: K) returns (err: Option<Error>)
      requires Valid()
      modifies this, tables
      ensures Valid()
      ensures Contents == Tables.Insert(old(Contents), hashFuncs, key, bitsPerTable).bits
      ensures err == Tables.Insert(old(Contents), hashFuncs, key, bitsPerTable).err
    {
      var i := 0;
      while i < |tables|
        invariant 0 <= i <= |tables|
        invariant Valid()
        invariant InsertFrom(Contents, hashFuncs, key, bitsPerTable, i) ==
                  Tables.Insert(old(Contents), hashFuncs, key, bitsPerTable)
      {
        var index := Hash(i, key);
        var slot := Slot(index, bitsPerTable);
        if slot.None? {
          return Some(IndexError(i, index));
        }
        tables[i][slot.value] := true;
        Contents := Contents[i := Contents[i][slot.value := true]];
        i := i + 1;
      }
      return None;
    }
  }

  /** Construction (BloomFilter.__init__): refuses a non-positive number of
      bits per table, then an empty set of hash functions; otherwise a filter
      with one all-clear table per hash function. */
  method New<K>(bitsPerTable: int, hashFuncs: seq<HashFunc<K>>) returns (r: Result<BloomFilter<K>>)
    ensures bitsPerTable <= 0 ==> r == Err(ConfigurationError(NonPositiveBits))
    ensures bitsPerTable > 0 && |hashFuncs| == 0 ==> r == Err(ConfigurationError(NoHashFunctions))
    ensures bitsPerTable > 0 && |hashFuncs| > 0 ==>
      r.Ok? && fresh(r.value) && r.value.Valid() &&
      r.value.bitsPerTable == bitsPerTable && r.value.hashFuncs == hashFuncs &&
      r.value.Contents == Zeroed(|hashFuncs|, bitsPerTable) &&
      forall i :: 0 <= i < |r.value.tables| ==> fresh(r.value.tables[i])
  {
    if bitsPerTable <= 0 {
      return Err(ConfigurationError(NonPositiveBits));
    }
    if |hashFuncs| == 0 {
      return Err(ConfigurationError(NoHashFunctions));
    }
    var f := new BloomFilter(bitsPerTable, hashFuncs);
    return Ok(f);
  }

  /** A client in the manner of the membership test: a key whose index every
      table accepts is found right after it is inserted, and stays found after
      another insert. */
  method InsertThenContains<K>(f: BloomFilter<K>, key: K, other: K) returns (first: Result<bool>, second: Result<bool>)
    requires f.Valid() && AllIndexable(f.hashFuncs, key, f.bitsPerTable)
    modifies f, f.tables
    ensures f.Valid()
    ensures first == Ok(true) && second == Ok(true)
  {
    var _ := f.Insert(key);
    first := f.Contains(key);
    InsertedIsMember(old(f.Contents), f.hashFuncs, key, f.bitsPerTable);
    ghost var before := f.Contents;
    var _ := f.Insert(other);
    second := f.Contains(key);
    InsertGrows(before, f.hashFuncs, other, f.bitsPerTable);
    QueryTrueStays(before, f.Contents, f.hashFuncs, key, f.bitsPerTable);
  }
}
