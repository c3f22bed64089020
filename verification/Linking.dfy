/**
  The pointer work of HASH_ADD_KEYPTR and HASH_DELETE: one node joins or leaves the
  application order, and one bucket of the array.
 */
module Linking {
  import opened Arith
  import opened Elements
  import opened Lists
  import opened HashModel
  import opened Buckets

  /** The node goes behind the tail, or becomes the only one. */
  method LinkLast(head: Element?, tail: Element?, e: Element, ghost items: seq<Element>) returns (head': Element?)
    requires if head == null then items == [] else AppOrder(head, tail, items)
    requires e !in items
    modifies e`next, e`prev, (if head == null || tail == null then {} else {tail})`next
    ensures AppOrder(head', e, items + [e])
  {
    head' := head;
    e.next := null;
    if head == null {
      head' := e;
      e.prev := null;
    } else {
      tail.next := e;
      e.prev := tail;
    }
    AppendNoDup(items, e);
  }

  method AddToBucket(hash: HashFcn, buckets: array<Bucket>, b: nat, e: Element,
                     ghost items: seq<Element>, ghost log2: nat, ghost chains: seq<seq<Element>>, ghost mults: seq<nat>)
    requires Partition(hash, items, log2, chains) && BucketsHold(buckets, chains, mults)
    requires e !in items && b == BucketOf(hash, e, log2)
    modifies buckets, e`hhNext, e`hhPrev, (if buckets[b].hhHead == null then {} else {buckets[b].hhHead})`hhPrev
    ensures BucketsHold(buckets, chains[b := [e] + chains[b]], mults)
  {
    assert ChainOf(hash, items, log2, chains[b], b) && Holds(buckets[b], chains[b]);
    buckets[b] := PushHead(buckets[b], e, chains[b]);
    forall j | 0 <= j < |chains| && j != b ensures Holds(buckets[j], chains[j]) {
      assert ChainOf(hash, items, log2, chains[j], j) && old(Holds(buckets[j], chains[j]));
      ChainsApart(hash, items, log2, chains, j, b);
      assert e !in chains[j] && (chains[b] != [] ==> chains[b][0] !in chains[j]);
      assert forall i :: 0 <= i < |chains[j]| ==> chains[j][i] in chains[j];
    }
  }

  /** A table that is about to receive an item: one that has items, or one that was just made. */
  ghost predicate Ready(hash: HashFcn, head: Element?, tail: Element?, buckets: array<Bucket>, t: State)
    requires t.Table?
    reads buckets, Set(t.items)
  {
    && Partition(hash, t.items, t.log2, t.chains)
    && (if head == null then t.items == [] else AppOrder(head, tail, t.items))
    && BucketsHold(buckets, t.chains, t.mults) && Hashed(hash, t.items)
  }

  /** The first half of HASH_ADD_KEYPTR: application order and hash value. The buckets do not notice. */
  method LinkItem(hash: HashFcn, head: Element?, tail: Element?, buckets: array<Bucket>, e: Element, ghost t: State)
    returns (head': Element?)
    requires t.Table? && Ready(hash, head, tail, buckets, t) && e !in t.items
    modifies e`next, e`prev, e`hashv, (if head == null || tail == null then {} else {tail})`next
    ensures AppOrder(head', e, t.items + [e]) && BucketsHold(buckets, t.chains, t.mults) && Hashed(hash, t.items + [e])
  {
    head' := LinkLast(head, tail, e, t.items);
    e.hashv := hash(e.key);
    forall j | 0 <= j < |t.chains| ensures Holds(buckets[j], t.chains[j]) {
      assert old(Holds(buckets[j], t.chains[j]));
    }
  }

  /** The second half: the bucket. Application order and hash values do not notice. */
  method PutInBucket(hash: HashFcn, head: Element, buckets: array<Bucket>, bkt: nat, e: Element, ghost t: State)
    requires t.Table? && Partition(hash, t.items, t.log2, t.chains) && BucketsHold(buckets, t.chains, t.mults)
    requires AppOrder(head, e, t.items + [e]) && Hashed(hash, t.items + [e])
    requires e !in t.items && bkt == BucketOf(hash, e, t.log2)
    modifies buckets, e`hhNext, e`hhPrev, Set(t.items)`hhPrev
    ensures AppOrder(head, e, t.items + [e]) && Hashed(hash, t.items + [e])
    ensures BucketsHold(buckets, t.chains[bkt := [e] + t.chains[bkt]], t.mults)
  {
    HeadsAreItems(hash, t.items, t.log2, t.chains, bkt);
    assert Holds(buckets[bkt], t.chains[bkt]);
    AddToBucket(hash, buckets, bkt, e, t.items, t.log2, t.chains, t.mults);
    assert Chain(t.items + [e], null) && Backed(t.items + [e]);
  }

  /** Masking the stored hash gives the bucket. */
  lemma MaskedBucket(hash: HashFcn, e: Element, log2: nat, n: nat)
    requires n == Pow2(log2)
    ensures BitAnd(hash(e.key), n - 1) == BucketOf(hash, e, log2)
  {
    MaskIsLow(hash(e.key), log2);
  }

  /** HASH_ADD_KEYPTR up to the expansion test, as far as pointers go. */
  method InsertNode(hash: HashFcn, head: Element?, tail: Element?, buckets: array<Bucket>, e: Element,
                    ghost t: State, ghost r: State)
    returns (head': Element?, bkt: nat)
    requires t.Table? && Ready(hash, head, tail, buckets, t) && e !in t.items
    requires r.Table? && r.items == t.items + [e] && r.log2 == t.log2 && r.mults == t.mults && Inv(hash, r)
    requires var b := BucketOf(hash, e, t.log2); r.chains == t.chains[b := [e] + t.chains[b]]
    modifies buckets, e`next, e`prev, e`hashv, e`hhNext, e`hhPrev, Set(t.items)`next, Set(t.items)`hhPrev
    ensures Structure(hash, head', e, buckets, r) && bkt == BucketOf(hash, e, t.log2)
  {
    assert tail != null && head != null ==> tail in t.items;
    head' := LinkItem(hash, head, tail, buckets, e, t);
    assert e in t.items + [e];
    bkt := BitAnd(e.hashv, buckets.Length - 1);
    MaskedBucket(hash, e, t.log2, buckets.Length);
    PutInBucket(hash, head', buckets, bkt, e, t);
  }

  lemma HeadsAreItems(hash: HashFcn, items: seq<Element>, log2: nat, chains: seq<seq<Element>>, b: nat)
    requires Partition(hash, items, log2, chains) && b < |chains|
    ensures chains[b] != [] ==> chains[b][0] in items
  {
    assert ChainOf(hash, items, log2, chains[b], b);
    assert chains[b] != [] ==> chains[b][0] in chains[b];
  }

  // ----- deletion

  /** The patch-up of the application order in HASH_DELETE. */
  method Unlink(head: Element?, tail: Element?, del: Element, ghost items: seq<Element>, ghost k: nat)
    returns (head': Element?, tail': Element?)
    requires AppOrder(head, tail, items) && |items| > 1 && k < |items| && items[k] == del
    modifies Set(items)`next, Set(items)`prev
    ensures AppOrder(head', tail', Without(items, k))
  {
    head', tail' := head, tail;
    assert k + 1 < |items| ==> del.next == items[k + 1];
    assert k > 0 ==> del.prev == items[k - 1] && items[k - 1].next == items[k];
    if del == tail { tail' := del.prev; }
    if del.prev != null { del.prev.next := del.next; } else { head' := del.next; }
    if del.next != null { del.next.prev := del.prev; }
  }

  method RemoveFromBucket(hash: HashFcn, buckets: array<Bucket>, b: nat, del: Element,
                          ghost items: seq<Element>, ghost log2: nat, ghost chains: seq<seq<Element>>,
                          ghost mults: seq<nat>)
    requires Partition(hash, items, log2, chains) && BucketsHold(buckets, chains, mults)
    requires del in items && b == BucketOf(hash, del, log2)
    modifies buckets, Set(chains[b])`hhNext, Set(chains[b])`hhPrev
    ensures BucketsHold(buckets, chains[b := Remove(chains[b], del)], mults)
  {
    assert ChainOf(hash, items, log2, chains[b], b) && Holds(buckets[b], chains[b]) && del in chains[b];
    buckets[b] := DeleteInBucket(buckets[b], del, chains[b]);
    forall j | 0 <= j < |chains| && j != b ensures Holds(buckets[j], chains[j]) {
      assert old(Holds(buckets[j], chains[j]));
      ChainsApart(hash, items, log2, chains, j, b);
    }
  }

  /** The first half of HASH_DELETE: application order. The buckets do not notice. */
  method UnlinkItem(hash: HashFcn, head: Element, tail: Element?, buckets: array<Bucket>, del: Element, ghost t: State)
    returns (head': Element?, tail': Element?)
    requires t.Table? && Structure(hash, head, tail, buckets, t) && |t.items| > 1 && del in t.items
    modifies Set(t.items)`next, Set(t.items)`prev
    ensures AppOrder(head', tail', Remove(t.items, del))
    ensures BucketsHold(buckets, t.chains, t.mults) && Hashed(hash, t.items)
  {
    ghost var k :| 0 <= k < |t.items| && t.items[k] == del;
    RemoveAt(t.items, k);
    head', tail' := Unlink(head, tail, del, t.items, k);
    forall j | 0 <= j < |t.chains| ensures Holds(buckets[j], t.chains[j]) {
      assert old(Holds(buckets[j], t.chains[j]));
    }
  }

  /** The second half: the bucket. Application order and hash values do not notice. */
  method TakeFromBucket(hash: HashFcn, head: Element, tail: Element, buckets: array<Bucket>, bkt: nat, del: Element,
                        ghost t: State, ghost items: seq<Element>)
    requires t.Table? && Partition(hash, t.items, t.log2, t.chains) && BucketsHold(buckets, t.chains, t.mults)
    requires AppOrder(head, tail, items) && Hashed(hash, t.items)
    requires forall x {:trigger x in items} :: x in items ==> x in t.items
    requires del in t.items && bkt == BucketOf(hash, del, t.log2)
    modifies buckets, Set(t.items)`hhNext, Set(t.items)`hhPrev
    ensures AppOrder(head, tail, items) && Hashed(hash, items)
    ensures BucketsHold(buckets, t.chains[bkt := Remove(t.chains[bkt], del)], t.mults)
  {
    assert ChainOf(hash, t.items, t.log2, t.chains[bkt], bkt);
    RemoveFromBucket(hash, buckets, bkt, del, t.items, t.log2, t.chains, t.mults);
    assert Chain(items, null) && Backed(items);
  }

  /** What is left of the table t without the item. */
  ghost predicate Leaves(hash: HashFcn, t: State, del: Element, r: State)
    requires t.Table? && |t.chains| == Pow2(t.log2)
  {
    && r.Table? && Inv(hash, r) && r.items == Remove(t.items, del) && r.log2 == t.log2 && r.mults == t.mults
    && var b := BucketOf(hash, del, t.log2); r.chains == t.chains[b := Remove(t.chains[b], del)]
  }

  /** The second half with its masking of the stored hash. */
  method DeleteFromBucket(hash: HashFcn, head: Element?, tail: Element?, buckets: array<Bucket>, del: Element,
                          ghost t: State, ghost r: State)
    requires t.Table? && Partition(hash, t.items, t.log2, t.chains) && BucketsHold(buckets, t.chains, t.mults)
    requires NoDup(t.items) && Hashed(hash, t.items) && del in t.items
    requires Leaves(hash, t, del, r) && AppOrder(head, tail, r.items)
    modifies buckets, Set(t.items)`hhNext, Set(t.items)`hhPrev
    ensures Structure(hash, head, tail, buckets, r)
  {
    var bkt := BitAnd(del.hashv, buckets.Length - 1);
    MaskedBucket(hash, del, t.log2, buckets.Length);
    RemoveFacts(t.items, del);
    TakeFromBucket(hash, head, tail, buckets, bkt, del, t, r.items);
  }

  /** HASH_DELETE of an item that is not the last one, as far as pointers go. */
  method DeleteNode(hash: HashFcn, head: Element, tail: Element?, buckets: array<Bucket>, del: Element,
                    ghost t: State, ghost r: State)
    returns (head': Element?, tail': Element?)
    requires t.Table? && Structure(hash, head, tail, buckets, t) && |t.items| > 1 && del in t.items
    requires Leaves(hash, t, del, r)
    modifies buckets, Set(t.items)`next, Set(t.items)`prev, Set(t.items)`hhNext, Set(t.items)`hhPrev
    ensures Structure(hash, head', tail', buckets, r)
  {
    head', tail' := UnlinkItem(hash, head, tail, buckets, del, t);
    DeleteFromBucket(hash, head', tail', buckets, del, t, r);
  }
}
