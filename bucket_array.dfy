/**
 * The representation invariant of the hash table, stated over the bucket
 * array as a sequence of chains, and what each operation of
 * symtablehash.c does to it.
 */
module BucketArray {
  import opened Wrappers
  import opened Hashing
  import opened Chains

  /** Scanning bucket hash(k) for any key k answers exactly what the map `m` holds. */
  ghost predicate Represents<V>(chains: seq<Chain<V>>, m: map<Key, V>)
    requires |chains| > 0
  {
    forall k {:trigger Lookup(m, k)} :: Find(chains[Hash(k, |chains|)], k) == Lookup(m, k)
  }

  /** Every chain has distinct keys. */
  ghost predicate ChainsDistinct<V>(chains: seq<Chain<V>>)
  {
    forall x :: 0 <= x < |chains| ==> DistinctKeys(chains[x])
  }

  /** The table invariant: every node sits in the bucket its key hashes to,
      keys are unique, the chains hold exactly the bindings of `m`, and the
      length field counts the nodes (and hence the bindings). */
  ghost predicate TableInv<V>(chains: seq<Chain<V>>, m: map<Key, V>, length: nat)
  {
    |chains| > 0 &&
    Placed(chains, |chains|) &&
    ChainsDistinct(chains) &&
    Represents(chains, m) &&
    length == |Flatten(chains)| &&
    length == |m|
  }

  /** Assembles the invariant from its parts. */
  lemma InvIntro<V>(chains: seq<Chain<V>>, m: map<Key, V>, length: nat)
    requires |chains| > 0 && Placed(chains, |chains|) && ChainsDistinct(chains)
    requires Represents(chains, m)
    requires length == |Flatten(chains)| && length == |m|
    ensures TableInv(chains, m, length)
  {
  }

  /** The scan of bucket hash(key) answers the abstract lookup. */
  lemma LookupAt<V>(chains: seq<Chain<V>>, m: map<Key, V>, length: nat, key: Key)
    requires TableInv(chains, m, length)
    ensures Find(chains[Hash(key, |chains|)], key) == Lookup(m, key)
  {
  }

  /** Under the invariant a node's value is the one the map holds for its key. */
  lemma NodeInMap<V>(chains: seq<Chain<V>>, m: map<Key, V>, length: nat, x: nat, y: nat)
    requires TableInv(chains, m, length)
    requires x < |chains| && y < |chains[x]|
    ensures chains[x][y].key in m && m[chains[x][y].key] == chains[x][y].value
  {
    FindDistinct(chains[x], y);
    LookupAt(chains, m, length, chains[x][y].key);
  }

  lemma {:induction false} EmptyFlatten<V>(chains: seq<Chain<V>>)
    requires forall x :: 0 <= x < |chains| ==> chains[x] == []
    ensures Flatten(chains) == []
  {
    if chains != [] {
      EmptyFlatten(chains[..|chains| - 1]);
    }
  }

  /** A freshly allocated bucket array: every chain empty, no bindings. */
  lemma EmptyInv<V>(n: nat)
    requires n > 0
    ensures TableInv<V>(seq(n, _ => []), map[], 0)
  {
    var chains: seq<Chain<V>> := seq(n, _ => []);
    forall k ensures Find(chains[Hash(k, n)], k) == Lookup(map[], k) {
    }
    EmptyFlatten(chains);
  }

  /** Rewriting chain `h` keeps the invariant's map if the new chain answers
      the new map for the keys that hash to `h`, and the map is unchanged elsewhere. */
  lemma RepresentsUpdate<V>(chains: seq<Chain<V>>, m: map<Key, V>, h: nat, c': Chain<V>, m': map<Key, V>)
    requires |chains| > 0 && h < |chains| && Represents(chains, m)
    requires forall k :: Hash(k, |chains|) == h ==> Find(c', k) == Lookup(m', k)
    requires forall k :: Hash(k, |chains|) != h ==> Lookup(m', k) == Lookup(m, k)
    ensures Represents(chains[h := c'], m')
  {
    var chains' := chains[h := c'];
    forall k ensures Find(chains'[Hash(k, |chains|)], k) == Lookup(m', k) {
      if Hash(k, |chains|) != h {
        assert Find(chains[Hash(k, |chains|)], k) == Lookup(m, k);
      }
    }
  }

  /** Rewriting chain `h` with nodes that all hash to `h` and have distinct keys
      keeps placement and uniqueness. */
  lemma ShapeUpdate<V>(chains: seq<Chain<V>>, h: nat, c': Chain<V>)
    requires |chains| > 0 && h < |chains| && Placed(chains, |chains|) && ChainsDistinct(chains)
    requires forall y :: 0 <= y < |c'| ==> Hash(c'[y].key, |chains|) == h
    requires DistinctKeys(c')
    ensures Placed(chains[h := c'], |chains|) && ChainsDistinct(chains[h := c'])
  {
  }

  /** Pushing a binding whose key the chain lacks keeps the chain's keys distinct. */
  lemma PushShape<V>(c: Chain<V>, n: nat, h: nat, b: Binding<V>)
    requires n > 0 && Hash(b.key, n) == h
    requires forall y :: 0 <= y < |c| ==> Hash(c[y].key, n) == h
    requires DistinctKeys(c) && Find(c, b.key) == None
    ensures forall y :: 0 <= y < |[b] + c| ==> Hash(([b] + c)[y].key, n) == h
    ensures DistinctKeys([b] + c)
  {
    var c': Chain<V> := [b] + c;
    forall y, z | 0 <= y < z < |c'| ensures c'[y].key != c'[z].key {
      assert c'[z] == c[z - 1];
    }
    forall y | 0 <= y < |c'| ensures Hash(c'[y].key, n) == h {
      if y > 0 { assert c'[y] == c[y - 1]; }
    }
  }

  /** Pushing a new binding answers the updated map for every key of its bucket. */
  lemma PushRepresents<V>(chains: seq<Chain<V>>, m: map<Key, V>, key: Key, value: V)
    requires |chains| > 0 && Represents(chains, m) && key !in m
    ensures var h := Hash(key, |chains|);
            Represents(chains[h := [Binding(key, value)] + chains[h]], m[key := value])
  {
    var h := Hash(key, |chains|);
    var c := chains[h];
    forall k | Hash(k, |chains|) == h ensures Find([Binding(key, value)] + c, k) == Lookup(m[key := value], k) {
      assert Find(chains[Hash(k, |chains|)], k) == Lookup(m, k);
      FindPush(Binding(key, value), c, k);
    }
    RepresentsUpdate(chains, m, h, [Binding(key, value)] + c, m[key := value]);
  }

  /** SymTable_put after its duplicate scan failed: the new node at the head of
      bucket hash(key) adds exactly that binding and one to the length. */
  lemma InsertInv<V>(chains: seq<Chain<V>>, m: map<Key, V>, length: nat, key: Key, value: V)
    requires TableInv(chains, m, length)
    requires key !in m
    ensures TableInv(chains[Hash(key, |chains|) := [Binding(key, value)] + chains[Hash(key, |chains|)]],
                     m[key := value], length + 1)
  {
    var h := Hash(key, |chains|);
    var c' := [Binding(key, value)] + chains[h];
    LookupAt(chains, m, length, key);
    PushShape(chains[h], |chains|, h, Binding(key, value));
    ShapeUpdate(chains, h, c');
    PushRepresents(chains, m, key, value);
    FlattenUpdateLength(chains, h, c');
    InvIntro(chains[h := c'], m[key := value], length + 1);
  }

  /** Overwriting the value of the node found for `key` answers the updated map. */
  lemma OverwriteRepresents<V>(chains: seq<Chain<V>>, m: map<Key, V>, key: Key, value: V, p: nat)
    requires |chains| > 0 && Represents(chains, m)
    requires var c := chains[Hash(key, |chains|)]; p == IndexOf(c, key) && p < |c|
    ensures var h := Hash(key, |chains|);
            Represents(chains[h := chains[h][p := Binding(key, value)]], m[key := value])
  {
    var h := Hash(key, |chains|);
    var c := chains[h];
    var c' := c[p := Binding(key, value)];
    forall k | Hash(k, |chains|) == h ensures Find(c', k) == Lookup(m[key := value], k) {
      assert Find(chains[Hash(k, |chains|)], k) == Lookup(m, k);
      if k != key {
        FindUpdateOther(c, p, Binding(key, value), k);
      } else {
        FindOverwrite(c, p, Binding(key, value));
      }
    }
    RepresentsUpdate(chains, m, h, c', m[key := value]);
  }

  /** SymTable_replace on a present key: overwriting the found node's value
      rebinds exactly that key and keeps the invariant. */
  lemma ReplaceInv<V>(chains: seq<Chain<V>>, m: map<Key, V>, length: nat, key: Key, value: V)
    requires TableInv(chains, m, length)
    requires key in m
    ensures IndexOf(chains[Hash(key, |chains|)], key) < |chains[Hash(key, |chains|)]|
    ensures var h := Hash(key, |chains|);
            TableInv(chains[h := chains[h][IndexOf(chains[h], key) := Binding(key, value)]], m[key := value], length)
  {
    var h := Hash(key, |chains|);
    var c := chains[h];
    LookupAt(chains, m, length, key);
    var p := IndexOf(c, key);
    var c' := c[p := Binding(key, value)];
    assert DistinctKeys(c');
    ShapeUpdate(chains, h, c');
    OverwriteRepresents(chains, m, key, value, p);
    FlattenUpdateLength(chains, h, c');
    InvIntro(chains[h := c'], m[key := value], length);
  }

  /** The chain without its node at `p` keeps placement and distinct keys. */
  lemma UnlinkShape<V>(c: Chain<V>, n: nat, h: nat, p: nat)
    requires n > 0 && p < |c|
    requires forall y :: 0 <= y < |c| ==> Hash(c[y].key, n) == h
    requires DistinctKeys(c)
    ensures forall y :: 0 <= y < |Unlink(c, p)| ==> Hash((Unlink(c, p))[y].key, n) == h
    ensures DistinctKeys(Unlink(c, p))
    ensures Find(Unlink(c, p), c[p].key) == None
  {
    var c' := Unlink(c, p);
    forall y, z | 0 <= y < z < |c'| ensures c'[y].key != c'[z].key {
      assert c'[z] == c[if z < p then z else z + 1];
    }
  }

  /** Unlinking the node found for `key` answers the map without `key`. */
  lemma UnlinkRepresents<V>(chains: seq<Chain<V>>, m: map<Key, V>, key: Key, p: nat)
    requires |chains| > 0 && Represents(chains, m)
    requires var c := chains[Hash(key, |chains|)]; p == IndexOf(c, key) && p < |c|
    requires Find(Unlink(chains[Hash(key, |chains|)], p), key) == None
    ensures var h := Hash(key, |chains|);
            Represents(chains[h := Unlink(chains[h], p)], m - {key})
  {
    var h := Hash(key, |chains|);
    var c := chains[h];
    var c' := Unlink(c, p);
    forall k | Hash(k, |chains|) == h ensures Find(c', k) == Lookup(m - {key}, k) {
      assert Find(chains[Hash(k, |chains|)], k) == Lookup(m, k);
      if k != key {
        FindUnlinkOther(c, p, k);
      }
    }
    RepresentsUpdate(chains, m, h, c', m - {key});
  }

  /** SymTable_remove on a present key: unlinking the found node, whether it is
      the head or an interior node, removes exactly that binding. */
  lemma RemoveInv<V>(chains: seq<Chain<V>>, m: map<Key, V>, length: nat, key: Key)
    requires TableInv(chains, m, length)
    requires key in m
    ensures IndexOf(chains[Hash(key, |chains|)], key) < |chains[Hash(key, |chains|)]|
    ensures var h := Hash(key, |chains|);
            var p := IndexOf(chains[h], key);
            TableInv(chains[h := Unlink(chains[h], p)], m - {key}, length - 1)
  {
    var h := Hash(key, |chains|);
    var c := chains[h];
    LookupAt(chains, m, length, key);
    var p := IndexOf(c, key);
    var c' := Unlink(c, p);
    UnlinkShape(c, |chains|, h, p);
    ShapeUpdate(chains, h, c');
    UnlinkRepresents(chains, m, key, p);
    FlattenUpdateLength(chains, h, c');
    InvIntro(chains[h := c'], m - {key}, length - 1);
  }

  /** Whether SymTable_expand, standing at node `j` of old bucket `i`, has
      already moved the binding with key `k` (if the old table has one). */
  ghost predicate Moved<V>(oldChains: seq<Chain<V>>, i: nat, j: nat, k: Key)
    requires |oldChains| > 0
  {
    var h := Hash(k, |oldChains|);
    h < i || (h == i && IndexOf(oldChains[h], k) < j)
  }

  /** Scanning new bucket hash(k) finds k's binding exactly when it has been moved. */
  ghost predicate HoldsMoved<V>(oldChains: seq<Chain<V>>, m: map<Key, V>, newChains: seq<Chain<V>>, i: nat, j: nat)
    requires |oldChains| > 0 && |newChains| > 0
  {
    forall k {:trigger Moved(oldChains, i, j, k)} ::
      Find(newChains[Hash(k, |newChains|)], k) == if Moved(oldChains, i, j, k) then Lookup(m, k) else None
  }

  lemma HoldsMovedAt<V>(oldChains: seq<Chain<V>>, m: map<Key, V>, newChains: seq<Chain<V>>, i: nat, j: nat, k: Key)
    requires |oldChains| > 0 && |newChains| > 0 && HoldsMoved(oldChains, m, newChains, i, j)
    ensures Find(newChains[Hash(k, |newChains|)], k) == if Moved(oldChains, i, j, k) then Lookup(m, k) else None
  {
  }

  /** The rehash loop's invariant: the new bucket array holds exactly the
      bindings of `m` already moved, each at its new hash index, with one
      node per binding moved so far. */
  ghost predicate RehashInv<V>(oldChains: seq<Chain<V>>, m: map<Key, V>, newChains: seq<Chain<V>>, i: nat, j: nat)
  {
    |oldChains| > 0 && |newChains| > 0 &&
    i <= |oldChains| && (i < |oldChains| ==> j <= |oldChains[i]|) && (i == |oldChains| ==> j == 0) &&
    Placed(newChains, |newChains|) && ChainsDistinct(newChains) &&
    HoldsMoved(oldChains, m, newChains, i, j) &&
    |Flatten(newChains)| == |Flatten(oldChains[..i])| + j
  }

  lemma RehashIntro<V>(oldChains: seq<Chain<V>>, m: map<Key, V>, newChains: seq<Chain<V>>, i: nat, j: nat)
    requires |oldChains| > 0 && |newChains| > 0
    requires i <= |oldChains| && (i < |oldChains| ==> j <= |oldChains[i]|) && (i == |oldChains| ==> j == 0)
    requires Placed(newChains, |newChains|) && ChainsDistinct(newChains)
    requires HoldsMoved(oldChains, m, newChains, i, j)
    requires |Flatten(newChains)| == |Flatten(oldChains[..i])| + j
    ensures RehashInv(oldChains, m, newChains, i, j)
  {
  }

  /** The freshly allocated array of `newCount` empty buckets, before any node moved. */
  lemma RehashStart<V>(oldChains: seq<Chain<V>>, m: map<Key, V>, length: nat, newCount: nat)
    requires TableInv(oldChains, m, length) && newCount > 0
    ensures RehashInv(oldChains, m, seq(newCount, _ => []), 0, 0)
  {
    var nb: seq<Chain<V>> := seq(newCount, _ => []);
    forall k ensures Find(nb[Hash(k, newCount)], k) == if Moved(oldChains, 0, 0, k) then Lookup(m, k) else None {
    }
    EmptyFlatten(nb);
    RehashIntro(oldChains, m, nb, 0, 0);
  }

  /** Pushing node `j` of old bucket `i` moves exactly its key. */
  lemma HoldsMovedStep<V>(oldChains: seq<Chain<V>>, m: map<Key, V>, newChains: seq<Chain<V>>, i: nat, j: nat)
    requires |oldChains| > 0 && |newChains| > 0 && HoldsMoved(oldChains, m, newChains, i, j)
    requires i < |oldChains| && j < |oldChains[i]|
    requires Hash(oldChains[i][j].key, |oldChains|) == i && IndexOf(oldChains[i], oldChains[i][j].key) == j
    requires Lookup(m, oldChains[i][j].key) == Some(oldChains[i][j].value)
    ensures var b := oldChains[i][j];
            var h := Hash(b.key, |newChains|);
            HoldsMoved(oldChains, m, newChains[h := [b] + newChains[h]], i, j + 1)
  {
    var n := |newChains|;
    var b := oldChains[i][j];
    var h := Hash(b.key, n);
    var nb := newChains[h := [b] + newChains[h]];
    forall k {:trigger Moved(oldChains, i, j + 1, k)}
      ensures Find(nb[Hash(k, n)], k) == if Moved(oldChains, i, j + 1, k) then Lookup(m, k) else None
    {
      HoldsMovedAt(oldChains, m, newChains, i, j, k);
      if Hash(k, n) == h {
        FindPush(b, newChains[h], k);
      }
    }
  }

  /** Moving node `j` of old bucket `i` to the head of its new bucket. */
  lemma RehashStep<V>(oldChains: seq<Chain<V>>, m: map<Key, V>, length: nat, newChains: seq<Chain<V>>, i: nat, j: nat)
    requires TableInv(oldChains, m, length) && RehashInv(oldChains, m, newChains, i, j)
    requires i < |oldChains| && j < |oldChains[i]|
    ensures var b := oldChains[i][j];
            var h := Hash(b.key, |newChains|);
            RehashInv(oldChains, m, newChains[h := [b] + newChains[h]], i, j + 1)
  {
    var n := |newChains|;
    var b := oldChains[i][j];
    var h := Hash(b.key, n);
    var c' := [b] + newChains[h];
    FindDistinct(oldChains[i], j);
    NodeInMap(oldChains, m, length, i, j);
    assert Find(newChains[h], b.key) == None by {
      assert !Moved(oldChains, i, j, b.key);
    }
    PushShape(newChains[h], n, h, b);
    ShapeUpdate(newChains, h, c');
    HoldsMovedStep(oldChains, m, newChains, i, j);
    FlattenUpdateLength(newChains, h, c');
    RehashIntro(oldChains, m, newChains[h := c'], i, j + 1);
  }

  /** Leaving old bucket `i` once all its nodes have moved. */
  lemma RehashNext<V>(oldChains: seq<Chain<V>>, m: map<Key, V>, length: nat, newChains: seq<Chain<V>>, i: nat)
    requires TableInv(oldChains, m, length)
    requires i < |oldChains| && RehashInv(oldChains, m, newChains, i, |oldChains[i]|)
    ensures RehashInv(oldChains, m, newChains, i + 1, 0)
  {
    var n := |newChains|;
    forall k {:trigger Moved(oldChains, i + 1, 0, k)}
      ensures Find(newChains[Hash(k, n)], k) == if Moved(oldChains, i + 1, 0, k) then Lookup(m, k) else None
    {
      HoldsMovedAt(oldChains, m, newChains, i, |oldChains[i]|, k);
      LookupAt(oldChains, m, length, k);
    }
    assert oldChains[..i + 1][..i] == oldChains[..i];
    RehashIntro(oldChains, m, newChains, i + 1, 0);
  }

  /** After the last old bucket the new array satisfies the table invariant
      with the same bindings and length. */
  lemma RehashDone<V>(oldChains: seq<Chain<V>>, m: map<Key, V>, length: nat, newChains: seq<Chain<V>>)
    requires TableInv(oldChains, m, length) && RehashInv(oldChains, m, newChains, |oldChains|, 0)
    ensures TableInv(newChains, m, length)
  {
    forall k {:trigger Lookup(m, k)} ensures Find(newChains[Hash(k, |newChains|)], k) == Lookup(m, k) {
      HoldsMovedAt(oldChains, m, newChains, |oldChains|, 0, k);
    }
    assert oldChains[..|oldChains|] == oldChains;
    InvIntro(newChains, m, length);
  }

  /** SymTable_map's order (bucket by bucket, each chain from its head) meets
      every binding of the table exactly once: as many visits as bindings, no
      key twice, and each key with the value the table binds it to. */
  lemma TraversalInv<V>(chains: seq<Chain<V>>, m: map<Key, V>, length: nat)
    requires TableInv(chains, m, length)
    ensures |Flatten(chains)| == |m|
    ensures DistinctKeys(Flatten(chains))
    ensures forall k :: Find(Flatten(chains), k) == Lookup(m, k)
  {
    FlattenDistinct(chains, |chains|);
    forall k ensures Find(Flatten(chains), k) == Lookup(m, k) {
      FindFlatten(chains, |chains|, k);
      LookupAt(chains, m, length, k);
    }
  }
}
