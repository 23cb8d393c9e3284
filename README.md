# Hash symbol table, modelled in Dafny

This project models the string-keyed hash symbol table of `symtablehash.c`
and the contract its header `symtable.h` declares. Abstractly a `SymTable_T`
is a finite map from keys to opaque values in which a key identifies its
binding uniquely. Concretely it is an array of singly linked collision
chains. A key goes to bucket `hash(key) mod uBucketCount`, and new nodes are
pushed onto the head of their chain. The bucket count grows through the
fixed capacities 509, 1021, …, 65521: when an insertion finds the load at
one binding per bucket and the last capacity is not yet reached, every node
is relinked into an array of the next capacity, provided that array can be
allocated.

Layout:

- `hashing.dfy` (module `Hashing`) holds the keys and `SymTable_hash`. A key
  is a sequence of character codes 1..255, so the scan always stops at the
  key's end, just as the C loop stops at the terminating NUL. The hash is a
  multiply-accumulate fold with multiplier 65599, wrapping at 2^64.
- `chains.dfy` (module `Chains`) holds one chain as a sequence of bindings,
  with its head at index 0. It defines the scan every operation performs,
  unlinking, and the traversal order of the whole bucket array.
- `bucket_array.dfy` (module `BucketArray`) holds the table invariant over
  the sequence of chains and a finite map. It proves that each operation
  preserves it, including the loop invariant of the rehash in
  `SymTable_expand`.
- `symtable.dfy` (module `SymTableHash`) holds the table itself: a class
  whose fields `buckets` (an array of chains), `bucketCount`, `bucketIndex`
  and `length` stand for `ppsBuckets`, `uBucketCount`, `uBucketIndex` and
  `uLength`, plus the ghost map of bindings the table represents. Its
  methods follow the C functions loop for loop.
- `source_defects.dfy` (module `SourceDefects`) holds two out-of-bounds or
  freed-memory reads of the C code as written. The corrected behaviour the
  model adopts is in `SymTableHash` (see Findings).

Conventions:

- A NULL result becomes `None`. The `assert(... != NULL)` checks disappear,
  because a Dafny reference or sequence cannot be NULL.
- Each allocation that can fail becomes a boolean input:
  - `memoryAvailable` stands for the table and bucket array of `SymTable_new`;
  - `growOk` stands for the `calloc` in `SymTable_expand`;
  - `nodeOk` stands for the node and key-copy `malloc`s in `SymTable_put`.
- `SymTable_put` returns 0 in two cases: when the key is already bound, and
  when allocation fails. The header mentions only the second. The model
  follows the code and covers both.
- `SymTable_map`'s calls of `pfApply` are recorded as the sequence of
  bindings visited.

## Model

| member | source | states |
|---|---|---|
| Hashing.HashWord | symtablehash.c:54-61 | the accumulated hash always fits in a 64-bit size_t |
| Hashing.Hash | symtablehash.c:52-64 | the bucket index of a key is in [0, uBucketCount) |
| Hashing.HashWordIsPolynomial | symtablehash.c:60-61 | the wrapping fold equals the exact polynomial sum of c_u·65599^(n-1-u) reduced mod 2^64, so the hash depends only on the key's characters |
| Hashing.ComputeHash | symtablehash.c:52-64 | the character loop computes exactly Hash(key, count), that is, the polynomial mod 2^64 mod count |
| Chains.IndexOf | symtablehash.c:215-223 | a scan stops at the first node with an equal key, or at the chain's end when no node matches |
| Chains.Find | symtablehash.c:315-325 | a scan finds nothing exactly when no node of the chain carries the key |
| Chains.Scan | symtablehash.c:215-223 | the scan loop stops at the first node whose key equals the searched key, and at the end if there is none |
| Chains.FindDistinct | symtable.h:8-11 | with unique keys, a scan for a node's key stops at that node and yields its value |
| Chains.FindAppend | symtablehash.c:394-411 | scanning a concatenation finds in the first part if it can, and otherwise in the second |
| Chains.FindPush | symtablehash.c:242-243 | after a push, a scan checks the new head first and otherwise answers as before |
| Chains.FindCons | symtablehash.c:264-274 | a scan looks at the head and otherwise continues from the successor |
| Chains.FindUpdateOther | symtablehash.c:268-272 | overwriting one node's value leaves scans for every other key unchanged |
| Chains.FindOverwrite | symtablehash.c:270-271 | after the value is overwritten, a scan for that key returns the new value |
| Chains.Unlink | symtablehash.c:366-367 | unlinking node p keeps every other node, in order, with one node fewer |
| Chains.FindUnlinkOther | symtablehash.c:366-367 | unlinking a node leaves scans for every other key unchanged |
| Chains.FlattenAppend | symtablehash.c:394-411 | the traversal of two runs of buckets is the traversal of the first followed by that of the second |
| Chains.FlattenUpdateLength | symtablehash.c:244 | replacing one chain changes the node count by the change in that chain's length |
| Chains.FindFlatten | symtablehash.c:394-411 | when every node sits in its hash bucket, the traversal meets a key only in the bucket its hash selects |
| Chains.FlattenDistinct | symtable.h:8-11 | unique keys per chain plus hash placement give unique keys in the whole traversal |
| Chains.FlattenPrefixComplete | symtablehash.c:398-401 | once the buckets visited hold as many nodes as the table, the remaining buckets are empty |
| BucketArray.LookupAt | symtablehash.c:304-326 | under the invariant, scanning bucket hash(key) gives exactly the map's answer for key |
| BucketArray.NodeInMap | symtable.h:8-11 | every node of the array is a binding of the map |
| BucketArray.EmptyFlatten | symtablehash.c:137-138 | an array of empty buckets holds no nodes |
| BucketArray.EmptyInv | symtablehash.c:137-147 | an array of empty buckets with length 0 represents the empty map |
| BucketArray.InsertInv | symtablehash.c:239-245 | pushing an absent key onto the head of its bucket represents the map extended by that binding, with length + 1 |
| BucketArray.ReplaceInv | symtablehash.c:268-272 | overwriting the value of the node found for a bound key represents the map updated at that key, with the length unchanged |
| BucketArray.RemoveInv | symtablehash.c:348-372 | unlinking the node found for a bound key represents the map without that key, with length - 1 |
| BucketArray.RehashStart | symtablehash.c:88-89 | a new array of empty buckets satisfies the rehash invariant before any node has moved |
| BucketArray.RehashStep | symtablehash.c:103-111 | pushing the next old node onto the head of its new bucket keeps the rehash invariant, with that one key now moved |
| BucketArray.RehashNext | symtablehash.c:96-113 | finishing an old bucket keeps the rehash invariant for the next bucket |
| BucketArray.RehashDone | symtablehash.c:114-120 | after every old bucket, the new array represents the same bindings with the same length |
| BucketArray.TraversalInv | symtablehash.c:394-414 | the bucket-then-chain order visits as many bindings as the table holds, never the same key twice, each with its bound value |
| SymTableHash.NextBucketCount | symtablehash.c:12-16 | the next capacity is the following element of auBucketCounts and is larger; there is none at the last index |
| SymTableHash.Rehash | symtablehash.c:95-113 | the relinked array of newCount buckets represents the same bindings with the same length |
| SymTableHash.MoveChain | symtablehash.c:98-112 | walking one old chain moves all of its nodes |
| SymTableHash.MoveNode | symtablehash.c:103-111 | the node becomes the head of the new bucket its key hashes to, every other new bucket is unchanged, and the rehash invariant advances by that node |
| SymTableHash.SymTable.constructor | symtablehash.c:137-147 | a new table has 509 buckets, all empty, bucket index 0, length 0, no bindings, and satisfies the invariant |
| SymTableHash.SymTable.New | symtablehash.c:127-150 | the result is NULL exactly when memory is insufficient; otherwise it is a fresh, valid, empty table |
| SymTableHash.SymTable.GetLength | symtablehash.c:191-194 | the length is the number of bindings |
| SymTableHash.ExpandDecision | symtablehash.c:80-93 | the expansion step stops at the last capacity with success, fails only when memory is short, and otherwise grows to the next, larger capacity, reading only inside auBucketCounts |
| SymTableHash.SymTable.Expand | symtablehash.c:68-123 | follows ExpandDecision: bindings and length are kept. Below the last capacity with memory: the next capacity and a fresh array. At the last capacity: success and no change. Without memory: failure and no change |
| SymTableHash.SymTable.Put | symtablehash.c:198-247 | success exactly when the key was absent and memory was available. The bucket array is the old one or, after an expansion, a fresh one. The new binding is the head of its bucket, and no other binding changes. The bucket index grows when the load reached one binding per bucket, below the last capacity, with memory |
| SymTableHash.SymTable.Link | symtablehash.c:213-245 | a duplicate key or a failed allocation changes nothing. Otherwise the binding is pushed onto the head of bucket hash(key) and the length grows by one |
| SymTableHash.SymTable.Replace | symtablehash.c:251-276 | returns the old value of a bound key and rewrites only the value of the node the scan finds, with every chain otherwise unchanged; returns None and leaves the bindings and every chain unchanged otherwise |
| SymTableHash.SymTable.Contains | symtablehash.c:280-300 | true exactly when the table binds the key |
| SymTableHash.SymTable.Get | symtablehash.c:304-326 | the value bound to the key, or None when there is none |
| SymTableHash.SymTable.Remove | symtablehash.c:330-377 | returns the removed value, drops exactly that binding and unlinks exactly the node the scan finds, with length - 1; returns None and leaves the bindings, the length and every chain unchanged when the key is unbound |
| SymTableHash.SymTable.Unchain | symtablehash.c:350-372 | a head node or an interior node is unlinked from its chain; every other node stays in place |
| SymTableHash.SymTable.Map | symtablehash.c:381-415 | visits buckets in order and each chain from its head, stopping early once every binding has been visited; each binding is visited exactly once, with its key and value |
| SourceDefects.ExpandStepAsWritten | symtablehash.c:80-93 | the expansion decision as written has a defined outcome only if auBucketCounts[8] can be read |
| SourceDefects.ExpandGuardReadsPastEnd | symtablehash.c:80-86 | every call of the expansion as written reads auBucketCounts[8] |
| SourceDefects.RemoveHeadAsWritten | symtablehash.c:350-358 | the head removal as written has a defined result only if the node it has just freed were still allocated |
| SourceDefects.RemoveHeadReadsFreedNode | symtablehash.c:350-358 | removing the head of any chain as written reads the successor link of a freed node |

## Left out

- `SymTable_free` (symtablehash.c:154-187) only releases memory. It has no effect the model can observe.
- Raw memory management is not modelled. Allocation failure is a boolean input, and key copying with `strlen`/`strcpy` is a value copy of a sequence.
- The callback and `pvExtra` of `SymTable_map` are not modelled. The callback is an arbitrary foreign function, so the model returns the sequence of bindings it would be applied to.
- A callback that changes the table during `SymTable_map` is not modelled, for the same reason.
- Hashing.HashWord: keys are character codes 1..255, as with unsigned `char`. On a signed-`char` platform bytes of 128 and above sign-extend to other summands. The results of put, replace, contains, get and remove stay the same, but the bucket each key lands in and the order in which `SymTable_map` visits the bindings change.
- A NULL value stored by `SymTable_put` is not modelled. The C functions return it in the same way as "no binding", and the model keeps the two apart with `Option`.
- `uLength` is unbounded here. The C `size_t` could only overflow after more bindings than memory can hold.
- `working.c` is not part of this model. It is a stale copy of the expansion code that does not compile.
- `symtablelist.c` is not part of this model. It is an unfinished list variant with no insertion, lookup or removal.
- Concurrency: the table is single-threaded.

## Findings

| source | as written | input that shows it | evidently intended | confidence | as-written member | corrected member |
|---|---|---|---|---|---|---|
| symtablehash.c:81 | the "can we expand further" test compares `uLength` with `auBucketCounts[NUM_BUCKET_COUNTS]`, element 8 of an 8-element array. At `uBucketIndex` 7, line 86 also reads element 8 | the 510th `SymTable_put` into a new table. Its load check calls `SymTable_expand`, which reads past the array | stop growing at the last capacity and report success; otherwise grow to `auBucketCounts[uBucketIndex + 1]` | not executed | SourceDefects.ExpandGuardReadsPastEnd | SymTableHash.SymTable.Expand |
| symtablehash.c:353-356 | the head node is freed, and then its `psNextNode` is read to become the bucket's new head | `SymTable_remove` of the key whose node heads its chain, e.g. the most recently put key of that bucket | read the successor before freeing the node, and make it the bucket's head | not executed | SourceDefects.RemoveHeadReadsFreedNode | SymTableHash.SymTable.Unchain |
