/**
 * The hash-table symbol table of symtablehash.c: an array of collision
 * chains, a bucket count taken from a fixed ascending sequence of
 * capacities, the index of that capacity, and the number of bindings.
 * Abstractly it is a finite map from keys to opaque values (symtable.h).
 */
module SymTableHash {
  import opened Wrappers
  import opened Hashing
  import opened Chains
  import opened BucketArray

  /** auBucketCounts: the capacities the bucket array grows through. */
  const BucketCounts: seq<nat> := [509, 1021, 2039, 4093, 8191, 16381, 32749, 65521]

  const NumBucketCounts: nat := 8

  /** The bucket count one expansion step after capacity index `index`, or
      None once the last capacity is reached (growth stops there). */
  function NextBucketCount(index: nat): (r: Option<nat>)
    requires index < NumBucketCounts
    ensures r.None? <==> index + 1 == NumBucketCounts
    ensures r.Some? ==> r.value == BucketCounts[index + 1] && r.value > BucketCounts[index]
  {
    if index + 1 < NumBucketCounts then Some(BucketCounts[index + 1]) else None
  }

  /** What one call of SymTable_expand does: leave the table as it is and
      report `ok`, or move to a bucket array of `newCount` buckets. */
  datatype ExpandStep = Unchanged(ok: bool) | Grown(newCount: nat)

  /** The decision SymTable_expand takes at capacity index `bucketIndex`:
      at the last capacity it stops growing and reports success; otherwise
      it grows to the next capacity, or fails when the new array cannot be
      allocated (`growOk` false). It reads only inside auBucketCounts. */
  function ExpandDecision(bucketIndex: nat, growOk: bool): (r: ExpandStep)
    requires bucketIndex < NumBucketCounts
    ensures r == Unchanged(true) <==> bucketIndex + 1 == NumBucketCounts
    ensures r == Unchanged(false) <==> bucketIndex + 1 < NumBucketCounts && !growOk
    ensures r.Grown? ==> bucketIndex + 1 < NumBucketCounts && r.newCount == BucketCounts[bucketIndex + 1]
    ensures r.Grown? ==> r.newCount > BucketCounts[bucketIndex]
  {
    match NextBucketCount(bucketIndex)
    case None => Unchanged(true)
    case Some(n) => if growOk then Grown(n) else Unchanged(false)
  }

  /** The rehash loop of SymTable_expand: every node of every old bucket, in
      traversal order, is pushed onto the head of the bucket its key hashes to
      in a new array of `newCount` empty buckets. The new array holds the
      same bindings. */
  method Rehash<V>(oldBuckets: array<Chain<V>>, ghost m: map<Key, V>, ghost length: nat, newCount: nat)
    returns (newBuckets: array<Chain<V>>)
    requires TableInv(oldBuckets[..], m, length) && newCount > 0
    ensures fresh(newBuckets) && newBuckets.Length == newCount
    ensures TableInv(newBuckets[..], m, length)
  {
    newBuckets := new Chain<V>[newCount](_ => []);
    ghost var oldChains := oldBuckets[..];
    assert newBuckets[..] == seq(newCount, _ => []);
    RehashStart(oldChains, m, length, newCount);
    var i := 0;
    while i < oldBuckets.Length
      invariant 0 <= i <= oldBuckets.Length
      invariant fresh(newBuckets) && newBuckets.Length == newCount
      invariant RehashInv(oldChains, m, newBuckets[..], i, 0)
    {
      MoveChain(oldChains, m, length, oldBuckets[i], newBuckets, i);
      i := i + 1;
    }
    RehashDone(oldChains, m, length, newBuckets[..]);
  }

  /** One pass of the rehash loop's inner walk: the nodes of old bucket `i`,
      from the head, each pushed onto the head of its new bucket. */
  method MoveChain<V>(ghost oldChains: seq<Chain<V>>, ghost m: map<Key, V>, ghost length: nat,
                      chain: Chain<V>, newBuckets: array<Chain<V>>, i: nat)
    requires TableInv(oldChains, m, length) && i < |oldChains| && chain == oldChains[i]
    requires RehashInv(oldChains, m, newBuckets[..], i, 0)
    modifies newBuckets
    ensures RehashInv(oldChains, m, newBuckets[..], i + 1, 0)
  {
    var j := 0;
    while j < |chain|
      invariant 0 <= j <= |chain|
      invariant RehashInv(oldChains, m, newBuckets[..], i, j)
    {
      MoveNode(oldChains, m, length, chain[j], newBuckets, i, j);
      j := j + 1;
    }
    RehashNext(oldChains, m, length, newBuckets[..], i);
  }

  /** The body of the rehash loop's inner walk: node `j` of old bucket `i`
      is pushed onto the head of the new bucket its key hashes to. */
  method MoveNode<V>(ghost oldChains: seq<Chain<V>>, ghost m: map<Key, V>, ghost length: nat,
                     b: Binding<V>, newBuckets: array<Chain<V>>, i: nat, j: nat)
    requires TableInv(oldChains, m, length) && i < |oldChains| && j < |oldChains[i]| && b == oldChains[i][j]
    requires RehashInv(oldChains, m, newBuckets[..], i, j)
    modifies newBuckets
    ensures RehashInv(oldChains, m, newBuckets[..], i, j + 1)
    ensures newBuckets[Hash(b.key, newBuckets.Length)] == [b] + old(newBuckets[Hash(b.key, newBuckets.Length)])
    ensures forall x {:trigger old(newBuckets[x])} :: 0 <= x < newBuckets.Length && x != Hash(b.key, newBuckets.Length) ==> newBuckets[x] == old(newBuckets[x])
  {
    var h := ComputeHash(b.key, newBuckets.Length);
    ghost var before := newBuckets[..];
    RehashStep(oldChains, m, length, before, i, j);
    newBuckets[h] := [b] + newBuckets[h];
    assert newBuckets[..] == before[h := [b] + before[h]];
  }

  class SymTable<V> {
    /** ppsBuckets: chain `x` is the list of nodes reachable from slot `x`. */
    var buckets: array<Chain<V>>
    /** uBucketCount */
    var bucketCount: nat
    /** uBucketIndex: the position of bucketCount in BucketCounts. */
    var bucketIndex: nat
    /** uLength */
    var length: nat
    /** The bindings the table holds. */
    ghost var contents: map<Key, V>

    /** The table invariant: the bucket count is the capacity at bucketIndex
        and the array's size; every node sits in the bucket its key hashes to;
        keys are unique; the chains hold exactly `contents`; length counts the
        nodes. */
    ghost predicate Valid()
      reads this, buckets
    {
      bucketIndex < NumBucketCounts &&
      bucketCount == BucketCounts[bucketIndex] &&
      buckets.Length == bucketCount &&
      TableInv(buckets[..], contents, length)
    }

    /** SymTable_new when memory is available: the smallest capacity, every
        bucket empty, no bindings. */
    constructor ()
      ensures Valid() && fresh(buckets)
      ensures contents == map[] && length == 0
      ensures bucketCount == BucketCounts[0] && bucketIndex == 0
      ensures forall x :: 0 <= x < buckets.Length ==> buckets[x] == []
    {
      buckets := new Chain<V>[BucketCounts[0]](_ => []);
      bucketCount := BucketCounts[0];
      bucketIndex := 0;
      length := 0;
      contents := map[];
      new;
      EmptyInv<V>(BucketCounts[0]);
      assert buckets[..] == seq(BucketCounts[0], _ => []);
    }

    /** SymTable_new: a new empty table, or null when the allocation of the
        table or of its bucket array fails. */
    static method New(memoryAvailable: bool) returns (t: SymTable?<V>)
      ensures t == null <==> !memoryAvailable
      ensures t != null ==> fresh(t) && fresh(t.buckets) && t.Valid() && t.contents == map[] && t.length == 0
      ensures t != null ==> t.bucketCount == BucketCounts[0] && t.bucketIndex == 0
    {
      if !memoryAvailable {
        return null;
      }
      t := new SymTable();
    }

    /** SymTable_getLength: the number of bindings. */
    method GetLength() returns (n: nat)
      requires Valid()
      ensures n == |contents|
    {
      n := length;
    }

    /** SymTable_expand: move every node to the head of its bucket in an array
        of the next capacity. At the last capacity nothing happens and the
        result is success; when the new array cannot be allocated
        (`growOk` false) nothing happens and the result is failure. */
    method Expand(growOk: bool) returns (ok: bool)
      requires Valid()
      modifies this
      ensures Valid()
      ensures contents == old(contents) && length == old(length)
      ensures ok <==> old(bucketIndex) + 1 == NumBucketCounts || growOk
      ensures if old(bucketIndex) + 1 < NumBucketCounts && growOk
              then bucketIndex == old(bucketIndex) + 1 && fresh(buckets)
              else bucketIndex == old(bucketIndex) && buckets == old(buckets)
      ensures match ExpandDecision(old(bucketIndex), growOk)
              case Unchanged(result) => ok == result && bucketCount == old(bucketCount)
              case Grown(newCount) => ok && bucketCount == newCount
    {
      var newCount: nat;
      match ExpandDecision(bucketIndex, growOk)
      case Unchanged(result) =>
        return result;
      case Grown(n) =>
        newCount := n;
      var newBuckets := Rehash(buckets, contents, length, newCount);
      buckets := newBuckets;
      bucketCount := newCount;
      bucketIndex := bucketIndex + 1;
      ok := true;
    }

    /** SymTable_put: when the load reaches one binding per bucket, first try
        one expansion step (whose failure is ignored); then link the binding
        as by Link. */
    method Put(key: Key, value: V, growOk: bool, nodeOk: bool) returns (ok: bool)
      requires Valid()
      modifies this, buckets
      ensures Valid()
      ensures ok <==> key !in old(contents) && nodeOk
      ensures contents == if ok then old(contents)[key := value] else old(contents)
      ensures length == if ok then old(length) + 1 else old(length)
      ensures ok ==> buckets[Hash(key, bucketCount)] != [] && buckets[Hash(key, bucketCount)][0] == Binding(key, value)
      ensures bucketIndex ==
                if old(length) >= old(bucketCount) && old(bucketIndex) + 1 < NumBucketCounts && growOk
                then old(bucketIndex) + 1 else old(bucketIndex)
      ensures buckets == old(buckets) || fresh(buckets)
      ensures bucketIndex == old(bucketIndex) ==>
                buckets == old(buckets) &&
                buckets[..] == if ok then old(buckets[..])[Hash(key, bucketCount) := [Binding(key, value)] + old(buckets[Hash(key, bucketCount)])]
                               else old(buckets[..])
    {
      if length >= bucketCount {
        var _ := Expand(growOk);
      }
      ok := Link(key, value, nodeOk);
    }

    /** The part of SymTable_put after the load check: scan the key's chain;
        fail if the key is already bound or if the node and key copy cannot be
        allocated (`nodeOk` false); otherwise push the binding onto the head
        of the chain. */
    method Link(key: Key, value: V, nodeOk: bool) returns (ok: bool)
      requires Valid()
      modifies this`contents, this`length, buckets
      ensures Valid()
      ensures ok <==> key !in old(contents) && nodeOk
      ensures contents == if ok then old(contents)[key := value] else old(contents)
      ensures length == if ok then old(length) + 1 else old(length)
      ensures buckets[..] == if ok then old(buckets[..])[Hash(key, bucketCount) := [Binding(key, value)] + old(buckets[Hash(key, bucketCount)])]
                             else old(buckets[..])
    {
      var h := ComputeHash(key, bucketCount);
      var chain := buckets[h];
      var p := Scan(chain, key);
      LookupAt(buckets[..], contents, length, key);
      if p < |chain| || !nodeOk {
        return false;
      }
      ghost var before := buckets[..];
      InsertInv(before, contents, length, key, value);
      buckets[h] := [Binding(key, value)] + chain;
      assert buckets[..] == before[h := [Binding(key, value)] + chain];
      length := length + 1;
      contents := contents[key := value];
      ok := true;
    }

    /** SymTable_replace: overwrite the value bound to `key` and return the
        previous one; None and no change when the key is not bound. */
    method Replace(key: Key, value: V) returns (prior: Option<V>)
      requires Valid()
      modifies this`contents, buckets
      ensures Valid()
      ensures prior == Lookup(old(contents), key)
      ensures contents == if key in old(contents) then old(contents)[key := value] else old(contents)
      ensures key !in old(contents) ==> buckets[..] == old(buckets[..])
      ensures key in old(contents) ==>
                var h := Hash(key, bucketCount);
                buckets[..] == old(buckets[..])[h := old(buckets[h])[IndexOf(old(buckets[h]), key) := Binding(key, value)]]
    {
      var h := ComputeHash(key, bucketCount);
      var chain := buckets[h];
      var p := Scan(chain, key);
      LookupAt(buckets[..], contents, length, key);
      if p == |chain| {
        return None;
      }
      ghost var before := buckets[..];
      ReplaceInv(before, contents, length, key, value);
      prior := Some(chain[p].value);
      buckets[h] := chain[p := Binding(key, value)];
      assert buckets[..] == before[h := chain[p := Binding(key, value)]];
      contents := contents[key := value];
    }

    /** SymTable_contains. */
    method Contains(key: Key) returns (found: bool)
      requires Valid()
      ensures found <==> key in contents
    {
      var h := ComputeHash(key, bucketCount);
      var chain := buckets[h];
      var p := Scan(chain, key);
      LookupAt(buckets[..], contents, length, key);
      found := p < |chain|;
    }

    /** SymTable_get: the value bound to `key`, None when there is none. */
    method Get(key: Key) returns (r: Option<V>)
      requires Valid()
      ensures key in contents ==> r == Some(contents[key])
      ensures key !in contents ==> r == None
    {
      var h := ComputeHash(key, bucketCount);
      var chain := buckets[h];
      var p := Scan(chain, key);
      LookupAt(buckets[..], contents, length, key);
      r := if p < |chain| then Some(chain[p].value) else None;
    }

    /** SymTable_remove: unlink the node bound to `key` (from the bucket slot
        when it heads its chain, from its predecessor otherwise) and return
        its value; None and no change when the key is not bound. */
    method Remove(key: Key) returns (r: Option<V>)
      requires Valid()
      modifies this`contents, this`length, buckets
      ensures Valid()
      ensures r == Lookup(old(contents), key)
      ensures contents == old(contents) - {key}
      ensures length == if key in old(contents) then old(length) - 1 else old(length)
      ensures key !in old(contents) ==> buckets[..] == old(buckets[..])
      ensures key in old(contents) ==>
                var h := Hash(key, bucketCount);
                buckets[..] == old(buckets[..])[h := Unlink(old(buckets[h]), IndexOf(old(buckets[h]), key))]
    {
      var h := ComputeHash(key, bucketCount);
      var chain := buckets[h];
      var p := Scan(chain, key);
      LookupAt(buckets[..], contents, length, key);
      if p == |chain| {
        assert contents - {key} == contents;
        return None;
      }
      r := Some(chain[p].value);
      Unchain(key, h, p);
    }

    /** The unlinking step of SymTable_remove for the node at position `p` of
        bucket `h`: a head node is unlinked by pointing the bucket slot at its
        successor, any other node by pointing its predecessor there. */
    method Unchain(key: Key, h: nat, p: nat)
      requires Valid() && key in contents
      requires h == Hash(key, bucketCount) && p == IndexOf(buckets[h], key) < |buckets[h]|
      modifies this`contents, this`length, buckets
      ensures Valid()
      ensures contents == old(contents) - {key} && length == old(length) - 1
      ensures buckets[..] == old(buckets[..])[h := Unlink(old(buckets[h]), p)]
    {
      ghost var before := buckets[..];
      RemoveInv(before, contents, length, key);
      var chain := buckets[h];
      if p == 0 {
        assert Unlink(chain, p) == chain[1..];
        buckets[h] := chain[1..];
      } else {
        buckets[h] := chain[..p] + chain[p + 1..];
      }
      assert buckets[..] == before[h := Unlink(chain, p)];
      length := length - 1;
      contents := contents - {key};
    }

    /** SymTable_map, with the callback's calls recorded in order: buckets in
        index order, each chain from its head, stopping once `length` calls
        have been made. Every binding is visited exactly once. */
    method Map() returns (visited: seq<Binding<V>>)
      requires Valid()
      ensures visited == Flatten(buckets[..])
      ensures |visited| == |contents| && DistinctKeys(visited)
      ensures forall k :: Find(visited, k) == Lookup(contents, k)
    {
      var applied: nat := 0;
      visited := [];
      var i := 0;
      while i < bucketCount
        invariant 0 <= i <= bucketCount
        invariant visited == Flatten(buckets[..i]) && applied == |visited|
      {
        if length == applied {
          break;
        }
        var chain := buckets[i];
        if chain != [] {
          var j := 0;
          while j < |chain|
            invariant 0 <= j <= |chain|
            invariant visited == Flatten(buckets[..i]) + chain[..j] && applied == |visited|
          {
            visited := visited + [chain[j]];
            applied := applied + 1;
            j := j + 1;
          }
        }
        assert buckets[..i + 1][..i] == buckets[..i];
        i := i + 1;
      }
      assert buckets[..] == buckets[..bucketCount];
      if i < bucketCount {
        assert buckets[..][..i] == buckets[..i];
        FlattenPrefixComplete(buckets[..], i);
      }
      TraversalInv(buckets[..], contents, length);
    }
  }
}
