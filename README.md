# Bloom filter with one bit table per hash function

A Dafny model of the `BloomFilter` class of the `bloomfilter` Python package.
The filter holds a fixed, non-empty sequence of hash functions. Each one has
its own bit table of `bitsPerTable` bits, and every table starts cleared.
An insert sets the key's bit in every table. A query checks the tables in
order and answers false at the first unset bit; it answers true only when
every bit is set. The filter has no removal and never clears a bit, so a
query never gives a false negative.

Two modules:

- `Tables` (`tables.dfy`) treats the tables as a value, `seq<seq<bool>>`.
  It states the query scan (`QueryFrom`, `Query`) and the insert loop
  (`InsertFrom`, `Insert`) as functions, and proves the filter's properties
  as lemmas: exact membership, no false negatives, insert only sets bits,
  idempotence, and independence from insertion order.
- `Bloom` (`bloomfilter.dfy`) is the object the package exposes. The class
  `BloomFilter` has constant `bitsPerTable`, `hashFuncs` and `tables`. The
  tables are distinct `array<bool>`s that `Insert` updates in place, and a
  ghost field `Contents` mirrors them. `Contains` and `Insert` are loops
  proved against the `Tables` functions. `New` is the checked constructor,
  `ZeroedBitarray` models `zeroed_bitarray`, and `Hash` models `_get_hash`:
  hash function `i` applied to the key and `bitsPerTable`.

Design decisions:

- Hash functions are an explicit sequence of total functions
  `(key, bitsPerTable) -> int`, fixed at construction. This replaces
  discovery of marked methods on the key's class. The code uses the hash
  result directly as the index, with no modulo, and so does the model.
- Indexing follows Python and `bitarray`. `Slot` turns a raw index in
  `[0, m)` into itself and one in `[-m, 0)` into `index + m`, and refuses
  any other index. Negative indices are therefore modelled as wrapping, not
  excluded. The main lemmas assume only that every index is accepted
  (`AllIndexable`), which covers `[-m, m)`.
- On a refused index, a query raises `HashFunctionError` (the package's
  `BloomFilterHashFunctionException`) carrying the table number and the
  index. An insert has no such guard. The bit array's own `IndexError` escapes,
  and the earlier tables keep the bits already set. Both methods return
  these errors as values.
- The exception message in `__getitem__` (bloomfilter/bloomfilter.py:90-95)
  asks for hash results in `[0, bits_per_table]`. The code still lets an
  index in `[-m, 0)` wrap, and an insert (bloomfilter/bloomfilter.py:104)
  raises a bare `IndexError` after it has changed the earlier tables. The
  model follows the code.
- `InsertAll` is a run of inserts. When an insert fails, the run goes on
  with the tables that insert left, as a caller that catches the error
  would. The order-independence and no-false-negative lemmas hold even then.

## Model

| member | source | states |
|---|---|---|
| Tables.Slot | bloomfilter/bloomfilter.py:86-89 | an index is accepted exactly when it lies in `[-m, m)`; an accepted index gives a position below `m`, equal to the index or the index plus `m`, and an index in `[0, m)` is used unchanged |
| Tables.Zeroed | bloomfilter/bloomfilter.py:71-72 | `n` tables of exactly `m` bits each, every bit false: the list of `zeroed_bitarray` results (bloomfilter/bloomfilter.py:20-24), one per hash function |
| Tables.QueryFrom | bloomfilter/bloomfilter.py:84-96 | the scan's answer is decided by the first table whose bit is not set: none means true, an accepted index there means false, a refused index there means `HashFunctionError` with that table and index |
| Tables.Query | bloomfilter/bloomfilter.py:78-96 | a query answers true exactly for a member (the key's bit set in every table); false only when some table accepted the key's index and has that bit clear; an error is a `HashFunctionError` naming a table that refused the key's index, with that index |
| Bloom.BloomFilter.Hash | bloomfilter/bloomfilter.py:106-113 | the result is exactly hash function `i` applied to the key and `bitsPerTable`, and it is used directly as the index, with no scaling: the table accepts it exactly when it lies in `[-bitsPerTable, bitsPerTable)`, and a result in `[0, bitsPerTable)` is the bit touched; the `int()` conversion is listed under "Left out" |
| Tables.Insert | bloomfilter/bloomfilter.py:100-104 | the tables keep their number and length; a bit is set afterwards iff it was set before or the key marks it (its table is reached before any refused index and its index lands there); the insert fails iff some table refuses its index, with the first such table and index |
| Tables.InsertFrom | bloomfilter/bloomfilter.py:102-104 | the loop from table `i` on sets exactly the key's bits in tables `i` up to the first refused index and changes nothing else; it reports that index, or nothing |
| Tables.QueryIsMembership | bloomfilter/bloomfilter.py:84-96 | when every index is accepted, a query answers exactly whether every table has the key's bit set; it answers false iff some table has it unset |
| Tables.QueryFails | bloomfilter/bloomfilter.py:84-95 | a query raises iff some table refuses the key's index and every earlier table has the key's bit set |
| Tables.FreshAnswersFalse | bloomfilter/bloomfilter.py:84-88 | on freshly zeroed tables a query answers false, or raises for table 0 if that table refuses the index |
| Tables.QueryTrueStays | bloomfilter/bloomfilter.py:84-96 | a true answer stays true when tables gain bits |
| Tables.InsertGrows | bloomfilter/bloomfilter.py:104 | an insert never clears a bit |
| Tables.InsertedIsMember | bloomfilter/bloomfilter.py:100-104 | after inserting a key whose indices are all accepted, a query for it answers true |
| Tables.InsertIdempotent | bloomfilter/bloomfilter.py:104 | inserting a key twice gives the same tables and the same error as inserting it once |
| Tables.InsertCommutes | bloomfilter/bloomfilter.py:102-104 | two inserts in either order give the same tables |
| Tables.InsertAllBits | bloomfilter/bloomfilter.py:100-104 | after a run of inserts, a bit is set iff it was set before or some inserted key marks it |
| Tables.OrderIndependent | bloomfilter/bloomfilter.py:100-104 | runs of inserts over the same set of keys give the same tables, whatever the order and repeats |
| Tables.PermutationIndependent | bloomfilter/bloomfilter.py:100-104 | any permutation of the inserted keys gives the same tables |
| Tables.NoFalseNegatives | bloomfilter/bloomfilter.py:84-104 | after a run of inserts, a query for any inserted key whose indices are accepted answers true |
| Tables.FoundAfterLaterInserts | bloomfilter/bloomfilter.py:84-104 | a key found after its insert is still found after any later inserts |
| Bloom.ZeroedBitarray | bloomfilter/bloomfilter.py:20-24 | a fresh array of `n` bits, all false |
| Bloom.BloomFilter.constructor | bloomfilter/bloomfilter.py:65-72 | one fresh, distinct table of `bitsPerTable` bits per hash function, all bits false, hash functions kept in order |
| Bloom.New | bloomfilter/bloomfilter.py:59-72 | `bitsPerTable <= 0` gives a configuration error and no filter; otherwise no hash functions gives a configuration error; otherwise a fresh valid filter with zeroed tables |
| Bloom.BloomFilter.Contains | bloomfilter/bloomfilter.py:78-98 | the loop returns exactly the answer `Query` gives for the current tables, and changes nothing |
| Bloom.BloomFilter.Insert | bloomfilter/bloomfilter.py:100-104 | the tables afterwards are those `Insert` gives from the old tables, and the error returned is the one it gives; the filter stays valid and the hash functions and sizes stay fixed |
| Bloom.InsertThenContains | test_bloom_filter.py:67-72 | a client in the style of the membership test, using `Insert` (`__setitem__`) and `Contains` (`__getitem__`): a key whose index every table accepts is found right after its insert and still found after another insert |

## Left out

- Discovery of hash functions by scanning a class's attributes for the `__bloom_hash__` marker, and the `bloom_hash` decorator that sets it. The hash functions are given as an explicit sequence instead.
- The conversion of a `TypeError` (wrong number of arguments) into the hash-function exception in `bloom_hash.__call__`. Dafny's types fix the signature `(key, bitsPerTable) -> int`.
- The `int()` conversion in `_get_hash` and its `ValueError` path for a non-integer result. Hash functions return `int` by type.
- The `cls` field kept by the constructor. It is used only for discovery.
- The `value` argument of `__setitem__`, which the code ignores.
- The internals of the `bitarray` library. Each table is an `array<bool>`, and `Slot` stands for its index rules.
- The example hash functions of the test suite. They take no range argument and so do not fit the calling convention.
- The package's `__init__.py`: metadata and re-exports only.
- Thread safety. The filter is single-owner and has no synchronisation.
