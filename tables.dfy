/** The bit tables of a Bloom filter as values: one row of booleans per hash
    function, all rows of the same length `m` (bits per table), and what a
    query and an insert do to them.  The filter class in module Bloom keeps
    its arrays equal to such a value and is proved against these functions. */
module Tables {

  datatype Option<T> = None | Some(value: T)

  /** Why a filter could not be constructed. */
  datatype ConfigProblem = NonPositiveBits | NoHashFunctions

  /** The failures the filter can raise. */
  datatype Error =
    | ConfigurationError(problem: ConfigProblem)  // BloomFilterException from the constructor
    | HashFunctionError(table: nat, index: int)   // BloomFilterHashFunctionException from a query
    | IndexError(table: nat, index: int)          // the bit array's own IndexError, escaping an insert

  datatype Result<T> = Ok(value: T) | Err(error: Error)

  /** A hash function gets the key and the number of bits per table and returns
      the index to use in its table, unscaled. */
  type HashFunc<-K> = (K, int) -> int

  /** Tables of a filter with n hash functions and m bits per table. */
  predicate Shaped(bits: seq<seq<bool>>, n: nat, m: nat) {
    |bits| == n && forall j :: 0 <= j < n ==> |bits[j]| == m
  }

  /** The position a bit array of length m uses for `index`: an index in [0, m)
      is itself, an index in [-m, 0) counts from the end, anything else is refused. */
  function Slot(index: int, m: nat): (r: Option<nat>)
    ensures r.Some? <==> 0 <= index + m && index < m
    ensures r.Some? ==> r.value < m && r.value - index in {0, m}
    ensures 0 <= index < m ==> r == Some(index)
  {
    if 0 <= index < m then Some(index)
    else if index < 0 && 0 <= index + m then Some(index + m)
    else None
  }

  /** Table j accepts the index its hash function gives for key. */
  predicate Indexable<K>(hs: seq<HashFunc<K>>, key: K, m: nat, j: nat)
    requires j < |hs|
  {
    Slot(hs[j](key, m), m).Some?
  }

  /** Every table accepts the index its hash function gives for key. */
  predicate AllIndexable<K>(hs: seq<HashFunc<K>>, key: K, m: nat) {
    forall j :: 0 <= j < |hs| ==> Indexable(hs, key, m, j)
  }

  /** The bit of key in table j is set. */
  predicate IsSet<K>(bits: seq<seq<bool>>, hs: seq<HashFunc<K>>, key: K, m: nat, j: nat)
    requires Shaped(bits, |hs|, m) && j < |hs|
  {
    match Slot(hs[j](key, m), m)
    case None => false
    case Some(p) => bits[j][p]
  }

  /** Membership as the filter defines it: the key's bit is set in every table. */
  predicate Member<K>(bits: seq<seq<bool>>, hs: seq<HashFunc<K>>, key: K, m: nat)
    requires Shaped(bits, |hs|, m)
  {
    forall j :: 0 <= j < |hs| ==> IsSet(bits, hs, key, m, j)
  }

  /** n tables of m bits, every bit cleared. */
  function Zeroed(n: nat, m: nat): (r: seq<seq<bool>>)
    ensures Shaped(r, n, m)
    ensures forall j, q :: 0 <= j < n && 0 <= q < m ==> !r[j][q]
  {
    seq(n, _ => seq(m, _ => false))
  }

  /** The first pair at or after i whose table does not have the key's bit
      set (its bit is clear, or it refuses the index); |hs| if there is none. */
  function FirstUnset<K>(bits: seq<seq<bool>>, hs: seq<HashFunc<K>>, key: K, m: nat, i: nat): (s: nat)
    requires Shaped(bits, |hs|, m) && i <= |hs|
    ensures i <= s <= |hs|
    ensures forall j :: i <= j < s ==> IsSet(bits, hs, key, m, j)
    ensures s < |hs| ==> !IsSet(bits, hs, key, m, s)
    decreases |hs| - i
  {
    if i == |hs| || !IsSet(bits, hs, key, m, i) then i else FirstUnset(bits, hs, key, m, i + 1)
  }

  /** The scan a query makes over the (hash function, table) pairs from pair i on:
      it looks at each table's bit in turn and stops at the first one that is
      not set, answering false if the table accepted the index and raising if
      it refused it; it answers true only when every bit is set. */
  function QueryFrom<K>(bits: seq<seq<bool>>, hs: seq<HashFunc<K>>, key: K, m: nat, i: nat): (r: Result<bool>)
    requires Shaped(bits, |hs|, m) && i <= |hs|
    ensures var s := FirstUnset(bits, hs, key, m, i);
      r == if s == |hs| then Ok(true)
           else if Indexable(hs, key, m, s) then Ok(false)
           else Err(HashFunctionError(s, hs[s](key, m)))
    decreases |hs| - i
  {
    if i == |hs| then Ok(true)
    else match Slot(hs[i](key, m), m)
      case None => Err(HashFunctionError(i, hs[i](key, m)))
      case Some(p) => if !bits[i][p] then Ok(false) else QueryFrom(bits, hs, key, m, i + 1)
  }

  /** The answer to a query for key (the filter's __getitem__): true exactly
      for a member; false only when some table accepted the key's index and has
      its bit clear; an error names a table that refused the key's index. */
  function Query<K>(bits: seq<seq<bool>>, hs: seq<HashFunc<K>>, key: K, m: nat): (r: Result<bool>)
    requires Shaped(bits, |hs|, m)
    ensures r == Ok(true) <==> Member(bits, hs, key, m)
    ensures r == Ok(false) ==> exists j :: 0 <= j < |hs| && Indexable(hs, key, m, j) && !IsSet(bits, hs, key, m, j)
    ensures r.Err? ==>
      r.error.HashFunctionError? && r.error.table < |hs| && !Indexable(hs, key, m, r.error.table) &&
      r.error.index == hs[r.error.table](key, m)
  {
    QueryFrom(bits, hs, key, m, 0)
  }

  /** The first pair at or after i whose table refuses the key's index; |hs| if none does. */
  function FirstBad<K>(hs: seq<HashFunc<K>>, key: K, m: nat, i: nat): (b: nat)
    requires i <= |hs|
    ensures i <= b <= |hs|
    ensures forall j :: i <= j < b ==> Indexable(hs, key, m, j)
    ensures b < |hs| ==> !Indexable(hs, key, m, b)
    decreases |hs| - i
  {
    if i == |hs| || !Indexable(hs, key, m, i) then i else FirstBad(hs, key, m, i + 1)
  }

  /** The index the hash function of table j gives for key lands on bit q. */
  predicate Lands<K>(hs: seq<HashFunc<K>>, key: K, m: nat, j: nat, q: nat)
    requires j < |hs|
  {
    Slot(hs[j](key, m), m) == Some(q)
  }

  /** Inserting key sets bit q of table j: the insert reaches table j without
      failing, and the index for table j lands on q. */
  predicate Marks<K>(hs: seq<HashFunc<K>>, key: K, m: nat, j: nat, q: nat)
    requires j < |hs|
  {
    j < FirstBad(hs, key, m, 0) && Lands(hs, key, m, j, q)
  }

  /** The tables after an insert and the error it raised, if any. */
  datatype Outcome = Outcome(bits: seq<seq<bool>>, err: Option<Error>)

  /** The loop of an insert from pair i on: set the key's bit in each table in
      turn; a refused index raises at once, leaving the earlier tables set. */
  function InsertFrom<K>(bits: seq<seq<bool>>, hs: seq<HashFunc<K>>, key: K, m: nat, i: nat): (r: Outcome)
    requires Shaped(bits, |hs|, m) && i <= |hs|
    ensures Shaped(r.bits, |hs|, m)
    ensures r.err == None <==> FirstBad(hs, key, m, i) == |hs|
    ensures r.err.Some? ==> r.err.value == IndexError(FirstBad(hs, key, m, i), hs[FirstBad(hs, key, m, i)](key, m))
    ensures forall j, q :: 0 <= j < |hs| && 0 <= q < m ==>
      r.bits[j][q] == (bits[j][q] || (i <= j < FirstBad(hs, key, m, i) && Lands(hs, key, m, j, q)))
    decreases |hs| - i
  {
    if i == |hs| then Outcome(bits, None)
    else match Slot(hs[i](key, m), m)
      case None => Outcome(bits, Some(IndexError(i, hs[i](key, m))))
      case Some(p) =>
        var next := bits[i := bits[i][p := true]];
        assert FirstBad(hs, key, m, i) == FirstBad(hs, key, m, i + 1);
        assert forall q :: 0 <= q < m ==> next[i][q] == (bits[i][q] || q == p);
        InsertFrom(next, hs, key, m, i + 1)
  }

  /** An insert of key (the filter's __setitem__): it only turns bits on, and
      exactly the bits key marks; it fails exactly when some table refuses its index. */
  function Insert<K>(bits: seq<seq<bool>>, hs: seq<HashFunc<K>>, key: K, m: nat): (r: Outcome)
    requires Shaped(bits, |hs|, m)
    ensures Shaped(r.bits, |hs|, m)
    ensures r.err == None <==> AllIndexable(hs, key, m)
    ensures r.err.Some? ==>
      var b := FirstBad(hs, key, m, 0);
      b < |hs| && r.err.value == IndexError(b, hs[b](key, m))
    ensures forall j, q :: 0 <= j < |hs| && 0 <= q < m ==>
      r.bits[j][q] == (bits[j][q] || Marks(hs, key, m, j, q))
  {
    InsertFrom(bits, hs, key, m, 0)
  }

  /** Inserts of keys in sequence; a caller that catches an insert's error goes
      on with the tables that insert left behind. */
  function InsertAll<K>(bits: seq<seq<bool>>, hs: seq<HashFunc<K>>, keys: seq<K>, m: nat): (r: seq<seq<bool>>)
    requires Shaped(bits, |hs|, m)
    ensures Shaped(r, |hs|, m)
    decreases keys
  {
    if keys == [] then bits
    else InsertAll(Insert(bits, hs, keys[0], m).bits, hs, keys[1..], m)
  }

  /** Every bit of a is a bit of b (tables only gain bits). */
  predicate Below(a: seq<seq<bool>>, b: seq<seq<bool>>, n: nat, m: nat)
    requires Shaped(a, n, m) && Shaped(b, n, m)
  {
    forall j, q :: 0 <= j < n && 0 <= q < m && a[j][q] ==> b[j][q]
  }

  /** Two tables of the same shape that agree bit by bit are equal. */
  lemma {:induction false} BitwiseEqual(a: seq<seq<bool>>, b: seq<seq<bool>>, n: nat, m: nat)
    requires Shaped(a, n, m) && Shaped(b, n, m)
    requires forall j, q :: 0 <= j < n && 0 <= q < m ==> a[j][q] == b[j][q]
    ensures a == b
  {
    forall j | 0 <= j < n
      ensures a[j] == b[j]
    {
      assert forall q :: 0 <= q < m ==> a[j][q] == b[j][q];
    }
  }

  // ---------------------------------------------------------------------------
  // Queries

  /** When every table accepts the key's index, a query answers exactly
      whether the key is a member: false iff some table has its bit unset. */
  lemma QueryIsMembership<K>(bits: seq<seq<bool>>, hs: seq<HashFunc<K>>, key: K, m: nat)
    requires Shaped(bits, |hs|, m) && AllIndexable(hs, key, m)
    ensures Query(bits, hs, key, m) == Ok(Member(bits, hs, key, m))
    ensures Query(bits, hs, key, m) == Ok(false) <==> exists j :: 0 <= j < |hs| && !IsSet(bits, hs, key, m, j)
  {
  }

  /** A query raises exactly when it reaches a table that refuses the key's index. */
  lemma QueryFails<K>(bits: seq<seq<bool>>, hs: seq<HashFunc<K>>, key: K, m: nat)
    requires Shaped(bits, |hs|, m)
    ensures Query(bits, hs, key, m).Err? <==>
      exists j :: 0 <= j < |hs| && !Indexable(hs, key, m, j) &&
        forall l :: 0 <= l < j ==> IsSet(bits, hs, key, m, l)
  {
    if j :| 0 <= j < |hs| && !Indexable(hs, key, m, j) && forall l :: 0 <= l < j ==> IsSet(bits, hs, key, m, l) {
      assert !IsSet(bits, hs, key, m, j);
    }
  }

  /** A freshly built filter answers false for every key, unless the very first
      table refuses the key's index, in which case the query raises. */
  lemma FreshAnswersFalse<K>(hs: seq<HashFunc<K>>, key: K, m: nat)
    requires |hs| > 0
    ensures Query(Zeroed(|hs|, m), hs, key, m) ==
      if Indexable(hs, key, m, 0) then Ok(false) else Err(HashFunctionError(0, hs[0](key, m)))
  {
  }

  /** A query that answers true keeps answering true as bits are added. */
  lemma QueryTrueStays<K>(a: seq<seq<bool>>, b: seq<seq<bool>>, hs: seq<HashFunc<K>>, key: K, m: nat)
    requires Shaped(a, |hs|, m) && Shaped(b, |hs|, m) && Below(a, b, |hs|, m)
    requires Query(a, hs, key, m) == Ok(true)
    ensures Query(b, hs, key, m) == Ok(true)
  {
    forall j | 0 <= j < |hs|
      ensures IsSet(b, hs, key, m, j)
    {
      assert IsSet(a, hs, key, m, j);
    }
  }

  // ---------------------------------------------------------------------------
  // Inserts

  /** An insert never clears a bit. */
  lemma InsertGrows<K>(bits: seq<seq<bool>>, hs: seq<HashFunc<K>>, key: K, m: nat)
    requires Shaped(bits, |hs|, m)
    ensures Below(bits, Insert(bits, hs, key, m).bits, |hs|, m)
  {
  }

  /** After an insert of key whose indices every table accepts, key is a member. */
  lemma InsertedIsMember<K>(bits: seq<seq<bool>>, hs: seq<HashFunc<K>>, key: K, m: nat)
    requires Shaped(bits, |hs|, m) && AllIndexable(hs, key, m)
    ensures Query(Insert(bits, hs, key, m).bits, hs, key, m) == Ok(true)
  {
  }

  /** Inserting the same key twice leaves the same tables, and the same error, as once. */
  lemma InsertIdempotent<K>(bits: seq<seq<bool>>, hs: seq<HashFunc<K>>, key: K, m: nat)
    requires Shaped(bits, |hs|, m)
    ensures Insert(Insert(bits, hs, key, m).bits, hs, key, m) == Insert(bits, hs, key, m)
  {
    var once := Insert(bits, hs, key, m);
    var twice := Insert(once.bits, hs, key, m);
    BitwiseEqual(twice.bits, once.bits, |hs|, m);
  }

  /** Two inserts commute. */
  lemma InsertCommutes<K>(bits: seq<seq<bool>>, hs: seq<HashFunc<K>>, k1: K, k2: K, m: nat)
    requires Shaped(bits, |hs|, m)
    ensures Insert(Insert(bits, hs, k1, m).bits, hs, k2, m).bits ==
            Insert(Insert(bits, hs, k2, m).bits, hs, k1, m).bits
  {
    var a := Insert(Insert(bits, hs, k1, m).bits, hs, k2, m).bits;
    var b := Insert(Insert(bits, hs, k2, m).bits, hs, k1, m).bits;
    BitwiseEqual(a, b, |hs|, m);
  }

  /** The tables after a run of inserts: a bit is set iff it was set before or
      one of the inserted keys marks it. */
  lemma {:induction false} InsertAllBits<K>(bits: seq<seq<bool>>, hs: seq<HashFunc<K>>, keys: seq<K>, m: nat)
    requires Shaped(bits, |hs|, m)
    ensures forall j, q :: 0 <= j < |hs| && 0 <= q < m ==>
      InsertAll(bits, hs, keys, m)[j][q] == (bits[j][q] || exists t :: t in keys && Marks(hs, t, m, j, q))
    decreases keys
  {
    if keys != [] {
      var next := Insert(bits, hs, keys[0], m).bits;
      InsertAllBits(next, hs, keys[1..], m);
      forall j, q | 0 <= j < |hs| && 0 <= q < m
        ensures InsertAll(bits, hs, keys, m)[j][q] == (bits[j][q] || exists t :: t in keys && Marks(hs, t, m, j, q))
      {
        if exists t :: t in keys && Marks(hs, t, m, j, q) {
          var t :| t in keys && Marks(hs, t, m, j, q);
          if t != keys[0] {
            assert t in keys[1..];
          }
        }
      }
    }
  }

  /** The tables after a run of inserts depend only on the set of keys
      inserted: not on their order, nor on repeats. */
  lemma OrderIndependent<K>(bits: seq<seq<bool>>, hs: seq<HashFunc<K>>, ks1: seq<K>, ks2: seq<K>, m: nat)
    requires Shaped(bits, |hs|, m)
    requires forall t :: t in ks1 <==> t in ks2
    ensures InsertAll(bits, hs, ks1, m) == InsertAll(bits, hs, ks2, m)
  {
    InsertAllBits(bits, hs, ks1, m);
    InsertAllBits(bits, hs, ks2, m);
    BitwiseEqual(InsertAll(bits, hs, ks1, m), InsertAll(bits, hs, ks2, m), |hs|, m);
  }

  /** In particular, any permutation of the keys gives the same tables. */
  lemma PermutationIndependent<K>(bits: seq<seq<bool>>, hs: seq<HashFunc<K>>, ks1: seq<K>, ks2: seq<K>, m: nat)
    requires Shaped(bits, |hs|, m) && multiset(ks1) == multiset(ks2)
    ensures InsertAll(bits, hs, ks1, m) == InsertAll(bits, hs, ks2, m)
  {
    forall t
      ensures t in ks1 <==> t in ks2
    {
      assert t in ks1 <==> t in multiset(ks1);
      assert t in ks2 <==> t in multiset(ks2);
    }
    OrderIndependent(bits, hs, ks1, ks2, m);
  }

  /** No false negatives: after any run of inserts, every inserted key whose
      indices the tables accept is found, whatever else was inserted. */
  lemma NoFalseNegatives<K>(bits: seq<seq<bool>>, hs: seq<HashFunc<K>>, keys: seq<K>, key: K, m: nat)
    requires Shaped(bits, |hs|, m) && key in keys && AllIndexable(hs, key, m)
    ensures Query(InsertAll(bits, hs, keys, m), hs, key, m) == Ok(true)
  {
    var after := InsertAll(bits, hs, keys, m);
    InsertAllBits(bits, hs, keys, m);
    forall j | 0 <= j < |hs|
      ensures IsSet(after, hs, key, m, j)
    {
      assert Indexable(hs, key, m, j);
      assert Marks(hs, key, m, j, Slot(hs[j](key, m), m).value);
    }
  }

  /** Once key has been inserted, later inserts of any keys leave it found. */
  lemma FoundAfterLaterInserts<K>(bits: seq<seq<bool>>, hs: seq<HashFunc<K>>, key: K, later: seq<K>, m: nat)
    requires Shaped(bits, |hs|, m) && AllIndexable(hs, key, m)
    ensures Query(InsertAll(Insert(bits, hs, key, m).bits, hs, later, m), hs, key, m) == Ok(true)
  {
    assert InsertAll(bits, hs, [key] + later, m) == InsertAll(Insert(bits, hs, key, m).bits, hs, later, m) by {
      assert ([key] + later)[1..] == later;
    }
    NoFalseNegatives(bits, hs, [key] + later, key, m);
  }
}
