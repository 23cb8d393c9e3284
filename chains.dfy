/**
 * Collision chains of symtablehash.c as values: a chain is the sequence of
 * bindings reachable from one bucket, its head (the most recently inserted
 * node) at index 0. The bucket array's traversal order is the concatenation
 * of its chains, bucket by bucket.
 */
module Chains {
  import opened Wrappers
  import opened Hashing

  /** One SymTableHashNode's binding: the table's own copy of the key and the
      caller's value reference, stored and returned verbatim. */
  datatype Binding<V> = Binding(key: Key, value: V)

  type Chain<V> = seq<Binding<V>>

  /** The abstract answer for `key` in the finite map `m`. */
  function Lookup<V>(m: map<Key, V>, key: Key): Option<V>
  {
    if key in m then Some(m[key]) else None
  }

  /** Where a scan from the head stops: the first node whose key equals `key`,
      or the chain's length when no node matches. */
  function IndexOf<V>(chain: Chain<V>, key: Key): (r: nat)
    ensures r <= |chain|
    ensures r < |chain| ==> chain[r].key == key
    ensures forall y :: 0 <= y < r ==> chain[y].key != key
  {
    if chain == [] then 0
    else if chain[0].key == key then 0
    else 1 + IndexOf(chain[1..], key)
  }

  /** The value a scan of `chain` for `key` returns, None when it reaches the end. */
  function Find<V>(chain: Chain<V>, key: Key): (r: Option<V>)
    ensures r.None? <==> forall y :: 0 <= y < |chain| ==> chain[y].key != key
  {
    var p := IndexOf(chain, key);
    if p < |chain| then Some(chain[p].value) else None
  }

  /** No two nodes of the chain carry equal keys. */
  ghost predicate DistinctKeys<V>(chain: Chain<V>)
  {
    forall y, z :: 0 <= y < z < |chain| ==> chain[y].key != chain[z].key
  }

  /** The scan loop of SymTable_put, _replace, _contains, _get and _remove:
      walk the chain from its head until a node's key equals `key`. */
  method Scan<V>(chain: Chain<V>, key: Key) returns (p: nat)
    ensures p <= |chain|
    ensures p < |chain| ==> chain[p].key == key
    ensures forall y :: 0 <= y < p ==> chain[y].key != key
    ensures p == IndexOf(chain, key)
  {
    p := 0;
    while p < |chain| && chain[p].key != key
      invariant p <= |chain|
      invariant forall y :: 0 <= y < p ==> chain[y].key != key
    {
      p := p + 1;
    }
  }

  /** In a chain with distinct keys a scan for a node's key stops at that node. */
  lemma FindDistinct<V>(chain: Chain<V>, y: nat)
    requires DistinctKeys(chain) && y < |chain|
    ensures IndexOf(chain, chain[y].key) == y
    ensures Find(chain, chain[y].key) == Some(chain[y].value)
  {
  }

  /** A scan of `a + b` finds in `a` if it can, and otherwise continues into `b`. */
  lemma {:induction false} FindAppend<V>(a: Chain<V>, b: Chain<V>, key: Key)
    ensures IndexOf(a + b, key) == if IndexOf(a, key) < |a| then IndexOf(a, key) else |a| + IndexOf(b, key)
    ensures Find(a + b, key) == if Find(a, key).Some? then Find(a, key) else Find(b, key)
  {
    if a != [] {
      assert (a + b)[1..] == a[1..] + b;
      FindAppend(a[1..], b, key);
    } else {
      assert a + b == b;
    }
  }

  /** A scan of a chain with a new head checks that head first. */
  lemma FindPush<V>(b: Binding<V>, chain: Chain<V>, key: Key)
    ensures Find([b] + chain, key) == if b.key == key then Some(b.value) else Find(chain, key)
  {
    assert ([b] + chain)[1..] == chain;
  }

  /** A scan looks at the head and otherwise goes on with the rest of the chain. */
  lemma FindCons<V>(chain: Chain<V>, key: Key)
    requires chain != []
    ensures Find(chain, key) == if chain[0].key == key then Some(chain[0].value) else Find(chain[1..], key)
  {
  }

  /** Overwriting the node at `p` does not change a scan for any other key. */
  lemma {:induction false} FindUpdateOther<V>(chain: Chain<V>, p: nat, b: Binding<V>, key: Key)
    requires p < |chain| && chain[p].key != key && b.key != key
    ensures Find(chain[p := b], key) == Find(chain, key)
  {
    if p > 0 && chain[0].key != key {
      assert chain[p := b][1..] == chain[1..][p - 1 := b];
      FindUpdateOther(chain[1..], p - 1, b, key);
    }
  }

  /** Overwriting the node a scan for `b.key` stops at makes the scan return `b.value`. */
  lemma {:induction false} FindOverwrite<V>(chain: Chain<V>, p: nat, b: Binding<V>)
    requires p == IndexOf(chain, b.key) && p < |chain|
    ensures IndexOf(chain[p := b], b.key) == p
    ensures Find(chain[p := b], b.key) == Some(b.value)
  {
    if p > 0 {
      assert chain[p := b][1..] == chain[1..][p - 1 := b];
      FindOverwrite(chain[1..], p - 1, b);
    }
  }

  /** The chain with its node at `p` unlinked: the nodes before it and after it, in order. */
  function Unlink<V>(chain: Chain<V>, p: nat): (r: Chain<V>)
    requires p < |chain|
    ensures |r| == |chain| - 1
    ensures forall y :: 0 <= y < |r| ==> r[y] == chain[if y < p then y else y + 1]
  {
    chain[..p] + chain[p + 1..]
  }

  /** Unlinking the node at `p` does not change a scan for any other key. */
  lemma {:induction false} FindUnlinkOther<V>(chain: Chain<V>, p: nat, key: Key)
    requires p < |chain| && chain[p].key != key
    ensures Find(Unlink(chain, p), key) == Find(chain, key)
  {
    var u := Unlink(chain, p);
    FindCons(chain, key);
    if p == 0 {
      assert u == chain[1..];
    } else {
      assert u[1..] == Unlink(chain[1..], p - 1);
      FindUnlinkOther(chain[1..], p - 1, key);
      FindCons(u, key);
    }
  }

  /** Every bucket, in index order, each chain from its head. */
  function Flatten<V>(chains: seq<Chain<V>>): Chain<V>
  {
    if chains == [] then []
    else Flatten(chains[..|chains| - 1]) + chains[|chains| - 1]
  }

  lemma {:induction false} FlattenAppend<V>(a: seq<Chain<V>>, b: seq<Chain<V>>)
    ensures Flatten(a + b) == Flatten(a) + Flatten(b)
  {
    if b == [] {
      assert a + b == a;
    } else {
      var init := b[..|b| - 1];
      assert (a + b)[..|a + b| - 1] == a + init;
      FlattenAppend(a, init);
    }
  }

  /** Replacing one chain changes the node count by the difference in that chain's length. */
  lemma FlattenUpdateLength<V>(chains: seq<Chain<V>>, h: nat, s: Chain<V>)
    requires h < |chains|
    ensures |Flatten(chains[h := s])| + |chains[h]| == |Flatten(chains)| + |s|
  {
    var pre, post := chains[..h], chains[h + 1..];
    assert chains == pre + [chains[h]] + post;
    assert chains[h := s] == pre + [s] + post;
    FlattenAppend(pre + [chains[h]], post);
    FlattenAppend(pre, [chains[h]]);
    FlattenAppend(pre + [s], post);
    FlattenAppend(pre, [s]);
    assert Flatten([s]) == s by { assert [s][..0] == []; }
    assert Flatten([chains[h]]) == chains[h] by { assert [chains[h]][..0] == []; }
  }

  /** Every node of chain `x` sits in bucket `x` for a table of `n` buckets. */
  ghost predicate Placed<V>(chains: seq<Chain<V>>, n: nat)
    requires n > 0
  {
    forall x, y :: 0 <= x < |chains| && 0 <= y < |chains[x]| ==> Hash(chains[x][y].key, n) == x
  }

  /** The traversal meets a key only in the chain its hash selects. */
  lemma {:induction false} FindFlatten<V>(chains: seq<Chain<V>>, n: nat, key: Key)
    requires n > 0 && Placed(chains, n)
    ensures Find(Flatten(chains), key) == if Hash(key, n) < |chains| then Find(chains[Hash(key, n)], key) else None
  {
    if chains != [] {
      var init, last := chains[..|chains| - 1], chains[|chains| - 1];
      assert Placed(init, n);
      FindFlatten(init, n, key);
      FindAppend(Flatten(init), last, key);
      if Hash(key, n) != |chains| - 1 {
        assert Find(last, key).None?;
      }
    }
  }

  /** With each node in the bucket its hash selects and distinct keys per chain,
      the traversal meets no key twice. */
  lemma {:induction false} FlattenDistinct<V>(chains: seq<Chain<V>>, n: nat)
    requires n > 0 && Placed(chains, n)
    requires forall x :: 0 <= x < |chains| ==> DistinctKeys(chains[x])
    ensures DistinctKeys(Flatten(chains))
    ensures forall p :: 0 <= p < |Flatten(chains)| ==> Hash(Flatten(chains)[p].key, n) < |chains|
  {
    if chains != [] {
      var init, last := chains[..|chains| - 1], chains[|chains| - 1];
      assert Placed(init, n);
      FlattenDistinct(init, n);
      var a := Flatten(init);
      var all: Chain<V> := a + last;
      assert Flatten(chains) == all;
      forall p, q | 0 <= p < q < |all|
        ensures all[p].key != all[q].key
      {
        if q >= |a| && p < |a| {
          assert Hash(a[p].key, n) < |init|;
          assert Hash(last[q - |a|].key, n) == |init|;
        }
      }
    }
  }

  /** Once the first `i` buckets hold every node, the remaining buckets are empty
      and the traversal of the prefix is the whole traversal. */
  lemma FlattenPrefixComplete<V>(chains: seq<Chain<V>>, i: nat)
    requires i <= |chains|
    requires |Flatten(chains[..i])| == |Flatten(chains)|
    ensures Flatten(chains[..i]) == Flatten(chains)
  {
    assert chains == chains[..i] + chains[i..];
    FlattenAppend(chains[..i], chains[i..]);
  }
}
