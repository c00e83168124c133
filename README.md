# A verified model of `hash_table`: a string map with separate chaining

The program keeps string keys and string values in a hash table. Collisions
are handled by separate chaining. The table is a vector of buckets. Each
bucket is a list of `(key, value)` pairs in insertion order. The table also
keeps two integers: `table_size`, the number of buckets, which is always
prime, and `num_elements`, the number of stored pairs.

- A key is hashed with 32-bit FNV-1a and reduced modulo `table_size`.
- `insert_item` first checks the load. When more than 70% of `table_size` is
  in use it calls `rehash`. It then appends the pair to its bucket. Keys are
  not deduplicated.
- `rehash` grows the table to `next_prime(2 * table_size)`. It moves every
  pair to the end of its new bucket, visiting the old buckets in order and
  each bucket's list in order.
- `delete_item` and `search_item` look only in the key's bucket. They act on
  the first pair there with that key.

The model has four modules:

- `Primes` (`primes.dfy`) holds `is_prime` (6k ± 1 trial division) and
  `next_prime`. Both are methods with loops, proved against the predicates
  `Prime` and `IsNextPrime`. The proof that `next_prime` terminates uses
  Euclid's argument: a prime factor of k! + 1 is larger than k.
- `Fnv` (`fnv.dfy`) defines the 32-bit FNV-1a hash as a function over bytes,
  using `bv32` wrap-around arithmetic. It is checked against the published
  test vectors.
- `Buckets` (`buckets.dfy`) models the bucket vector as a value
  (`seq<seq<Entry>>`). It defines what appending, removing the first match
  and redistributing do to that value, and proves their properties: the
  placement invariant, the multiset of entries, and what search reports for
  every key.
- `Table` (`table.dfy`) defines the class `HashTable`. Its fields are
  `tableSize`, `buckets: array<seq<Entry>>` and `numElements`. `Valid()` is
  the representation invariant, and each source method becomes a method of
  the class. `Find(k)` is the value `search_item` would report for `k`;
  `Entries()` lists all pairs in bucket order.

Strings are `seq<bv8>`, because a C++ `std::string` is a sequence of bytes
and the hash treats each character as an unsigned byte. The C++ test
`num_elements > table_size * 0.7` is modelled as
`10 * numElements > 7 * tableSize`. `table_size` is prime, so
`0.7 * table_size` is never a whole number, and both tests agree.
`search_item` returns `Option<Bytes>` and `delete_item` returns `bool`. The
code itself returns the text `"Key not found"` or prints a message. The
method `CapacityScenario` is a client of the class. It builds a table with
requested size 10 and checks that it gets 11 buckets. Eight inserts then
leave the size at 11, and the ninth rehashes to 23. It also checks that
search and delete on the empty table report not found.

## Model

| member | source | states |
|---|---|---|
| Primes.IsPrime | laba4_xexexesh/laba4_xexexesh.cpp:47-55 | returns true exactly when n is prime (n >= 2 with no divisor in [2, n)): false for n <= 1, true for 2 and 3, false on a divisor 2, 3, i or i + 2 with i * i <= n, true otherwise |
| Primes.WheelStart | laba4_xexexesh/laba4_xexexesh.cpp:50-51 | once 2 and 3 are ruled out, no number below 5 divides n, so the wheel may start at 5 |
| Primes.WheelStep | laba4_xexexesh/laba4_xexexesh.cpp:50-52 | once 2 and 3 are ruled out, testing only i and i + 2 in each block of six (i = 5 mod 6) misses no divisor |
| Primes.NoDivisorBelowRoot | laba4_xexexesh/laba4_xexexesh.cpp:51-54 | stopping the trial division when i * i > n is sound: no divisor below i means n is prime |
| Primes.NextPrime | laba4_xexexesh/laba4_xexexesh.cpp:58-63 | returns the least prime p >= n; p == n when n is already prime |
| Primes.PrimeAtLeast | laba4_xexexesh/laba4_xexexesh.cpp:59-61 | every n has a prime p >= n, so the counting loop of next_prime ends |
| Primes.PrimeDivisor | laba4_xexexesh/laba4_xexexesh.cpp:59-61 | every m >= 2 has a prime divisor (a step of the termination argument) |
| Primes.FactorialDivisible | laba4_xexexesh/laba4_xexexesh.cpp:59-61 | every d in [1, n] divides n! (a step of the termination argument) |
| Primes.NextPrimeUnique | laba4_xexexesh/laba4_xexexesh.cpp:58-63 | the least prime at or above n is unique, so next_prime's result is fixed by its contract |
| Primes.ScenarioSizes | laba4_xexexesh/laba4_xexexesh.cpp:32 | next_prime(10) is 11 and next_prime(22) is 23: the sizes of the capacity-10 scenario |
| Fnv.Fnv1aAppend | laba4_xexexesh/laba4_xexexesh.cpp:22-25 | hashing one more byte xors it into the hash of the prefix and multiplies by 16777619 modulo 2^32 |
| Fnv.StandardVectors | laba4_xexexesh/laba4_xexexesh.cpp:18-25 | with offset basis 2166136261 and prime 16777619 the hash matches the published FNV-1a 32-bit values for "", "a" and "foobar" |
| Buckets.Slot | laba4_xexexesh/laba4_xexexesh.cpp:26 | the reduced hash always lies in [0, table_size) |
| Table.HashTable.HashFunction | laba4_xexexesh/laba4_xexexesh.cpp:17-27 | the byte loop computes FNV-1a of the whole key, and the result is that hash modulo tableSize, an index in [0, tableSize) |
| Table.HashTable.constructor | laba4_xexexesh/laba4_xexexesh.cpp:67 | tableSize is the least prime >= size, there are tableSize buckets and all are empty, numElements is 0, and the invariant holds |
| Buckets.Select | laba4_xexexesh/laba4_xexexesh.cpp:35-39 | a new bucket receives only entries whose key hashes to it, and only entries of the old table |
| Buckets.Redistribute | laba4_xexexesh/laba4_xexexesh.cpp:33-40 | the rebuilt vector has the new number of buckets, and every entry sits in the bucket its key hashes to |
| Buckets.RedistributeSnoc | laba4_xexexesh/laba4_xexexesh.cpp:37-38 | moving one more entry appends it to the end of its new bucket and changes no other bucket |
| Buckets.RedistributeStep | laba4_xexexesh/laba4_xexexesh.cpp:36-38 | the same step, for entry j of the bucket being moved |
| Buckets.RedistributeKeepsEntries | laba4_xexexesh/laba4_xexexesh.cpp:35-40 | the rebuilt vector holds exactly the old entries, as a multiset |
| Buckets.RedistributeLookup | laba4_xexexesh/laba4_xexexesh.cpp:35-40 | after rebuilding, search for any key reports the first entry with that key in the old traversal order |
| Buckets.RehashView | laba4_xexexesh/laba4_xexexesh.cpp:30-42 | rehashing a well-placed table does not change what search reports for any key |
| Table.HashTable.Rehash | laba4_xexexesh/laba4_xexexesh.cpp:30-44 | tableSize becomes next_prime(2 * old size), which is larger. The buckets become the old entries redistributed in traversal order. numElements, the multiset of entries and every search result are unchanged, and the invariant holds |
| Buckets.AppendPlaced | laba4_xexexesh/laba4_xexexesh.cpp:74-75 | appending to bucket hash(key) keeps every entry in the bucket its key hashes to |
| Buckets.AppendEntries | laba4_xexexesh/laba4_xexexesh.cpp:75-76 | appending adds exactly the new pair to the table's entries, so the count grows by one |
| Buckets.AppendView | laba4_xexexesh/laba4_xexexesh.cpp:74-75 | after appending, search reports the new value for its key if that key was absent; in every other case it reports what it did before |
| Table.HashTable.InsertItem | laba4_xexexesh/laba4_xexexesh.cpp:70-77 | rehashes first exactly when 10 * numElements > 7 * tableSize. It then appends (key, value) to the end of bucket hash(key) and increments numElements. The entries gain exactly that pair. Search for key returns value if the key was absent, and nothing else changes for any other key |
| Buckets.IndexOfKey | laba4_xexexesh/laba4_xexexesh.cpp:82-83 | gives the position of the first entry with the key, or the bucket's length when there is none |
| Buckets.RemoveFirstPlaced | laba4_xexexesh/laba4_xexexesh.cpp:81-84 | erasing from bucket hash(key) keeps every entry in the bucket its key hashes to |
| Buckets.RemoveFirstEntries | laba4_xexexesh/laba4_xexexesh.cpp:82-90 | when search would find the key, exactly the pair it would report is removed and the count drops by one; otherwise the buckets are unchanged |
| Buckets.RemoveFirstView | laba4_xexexesh/laba4_xexexesh.cpp:82-85 | removing the first match for one key does not change what search reports for any other key |
| Table.HashTable.DeleteItem | laba4_xexexesh/laba4_xexexesh.cpp:80-91 | reports found exactly when search would find the key. If found, it removes only the first match in bucket hash(key) and decrements numElements. Otherwise the table is untouched. Other buckets and other keys' search results are unchanged |
| Buckets.DeleteRemovesOneDuplicate | laba4_xexexesh/laba4_xexexesh.cpp:75 | after inserting an absent key twice and deleting it once, search reports the second value: the other entry remains |
| Buckets.LookupFinds | laba4_xexexesh/laba4_xexexesh.cpp:96-101 | a lookup finds a value exactly when some entry has the key, and the pair it reports is stored |
| Buckets.LookupFlatten | laba4_xexexesh/laba4_xexexesh.cpp:95-101 | with every entry in its slot, the first match in the whole table is the first match in the key's bucket |
| Buckets.ViewIsLookup | laba4_xexexesh/laba4_xexexesh.cpp:95-101 | what search reports equals the first entry with the key in table traversal order |
| Table.HashTable.SearchItem | laba4_xexexesh/laba4_xexexesh.cpp:94-102 | returns the value of the first entry with the key in its bucket. That is also the first such entry in the whole table. It is None exactly when no stored entry has the key. It reads only |

## Left out

- `display_hash_table` (laba4_xexexesh/laba4_xexexesh.cpp:105-113) is console output only. The ghost function `Table.HashTable.Entries` gives the same entries in the same order.
- The console messages of `rehash` and `delete_item` (lines 43, 86, 90) are left out.
- `fill_random` and `generate_random_string` (lines 116-133) depend on `srand(time(0))` and `rand()`, so they are left out.
- `show_menu` and `main` (lines 137-201) are the interactive loop and the size prompt, and are left out.
- Table.HashTable.SearchItem: returns `None` where the code returns the text `"Key not found"`. A stored value with that exact text cannot be told apart in the code, but the model tells it apart.
- Table.HashTable.DeleteItem: returns whether a pair was removed, where the code returns nothing and only prints a message.
- Table.HashTable.HashFunction: accumulates in 32 bits. `unsigned long` is 64 bits on LP64 platforms, where the code's slot values differ. The code also sign-extends a negative `char` before the xor, and the model xors the unsigned byte.
- Table.HashTable.Rehash: integers are unbounded. The C++ `int` overflow of `2 * table_size` is not modelled.
- Primes.IsPrime: integers are unbounded. The C++ `int` overflow of `i * i` for n near 2^31 is not modelled.
- Table.HashTable.InsertItem: the floating-point test `num_elements > table_size * 0.7` is modelled as `10 * numElements > 7 * tableSize`. The two agree because `table_size` is prime.
- Each bucket list is a sequence. List nodes, iterators and the moving of the vector in `rehash` are not modelled.
- Allocation failure is not modelled.
