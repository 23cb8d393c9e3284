/**
 * Two places where symtablehash.c, as written, reads memory it may not
 * read, modelled next to the behaviour the rest of this model adopts.
 * A read the C standard leaves undefined yields Undefined.
 */
module SourceDefects {
  import opened Wrappers
  import opened Hashing
  import opened SymTableHash

  datatype Access<T> = Defined(value: T) | Undefined

  /** Reading auBucketCounts[i]: defined only inside the array. */
  function CountAt(i: int): (r: Access<nat>)
    ensures r.Defined? <==> 0 <= i < NumBucketCounts
    ensures r.Defined? ==> r.value == BucketCounts[i]
  {
    if 0 <= i < |BucketCounts| then Defined(BucketCounts[i]) else Undefined
  }

  /** The decision of SymTable_expand as written: the "can we expand further"
      test compares the length with auBucketCounts[NUM_BUCKET_COUNTS], one
      past the last element, and the new count is read at uBucketIndex + 1. */
  function ExpandStepAsWritten(length: nat, bucketIndex: nat, growOk: bool): (r: Access<ExpandStep>)
    ensures r.Defined? ==> CountAt(NumBucketCounts).Defined?
  {
    match CountAt(NumBucketCounts)
    case Undefined => Undefined
    case Defined(cap) =>
      if length >= cap then Defined(Unchanged(true))
      else
        match CountAt(bucketIndex + 1)
        case Undefined => Undefined
        case Defined(n) => Defined(if growOk then Grown(n) else Unchanged(false))
  }

  /** Every call of SymTable_expand as written performs the out-of-bounds read. */
  lemma ExpandGuardReadsPastEnd(length: nat, bucketIndex: nat, growOk: bool)
    ensures ExpandStepAsWritten(length, bucketIndex, growOk) == Undefined
  {
  }

  /** A node of a bucket chain in memory: key copy, value, and the address of
      the successor (None for NULL). */
  datatype Cell<V> = Cell(key: Key, value: V, next: Option<nat>)

  /** The live allocations, by address. Freeing an address removes it. */
  type Memory<V> = map<nat, Cell<V>>

  /** Reading the successor link of the node at `addr`: defined only while
      that node is allocated. */
  function ReadNext<V>(mem: Memory<V>, addr: nat): (r: Access<Option<nat>>)
    ensures r.Defined? <==> addr in mem
  {
    if addr in mem then Defined(mem[addr].next) else Undefined
  }

  /** The head-of-chain branch of SymTable_remove as written: the node is
      freed and then its successor link is read to become the bucket's new
      head. Yields the removed value and the new head; a defined result
      would need the freed node to be still allocated. */
  function RemoveHeadAsWritten<V>(mem: Memory<V>, head: nat): (r: Access<(V, Option<nat>)>)
    requires head in mem
    ensures r.Defined? ==> head in mem - {head}
  {
    var removed := mem[head].value;
    var afterFree := mem - {head};
    match ReadNext(afterFree, head)
    case Undefined => Undefined
    case Defined(next) => Defined((removed, next))
  }

  /** Removing the first node of any chain reads the freed node. */
  lemma RemoveHeadReadsFreedNode<V>(mem: Memory<V>, head: nat)
    requires head in mem
    ensures RemoveHeadAsWritten(mem, head) == Undefined
  {
  }
}
