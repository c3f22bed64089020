/**
  HASH_FSCK, the integrity check of uthash.h: what it answers on any table whose `hhNext`
  and `next` chains can be walked, and that it answers yes on every table the macros build.
 */
module Fsck {
  import opened Elements
  import opened Lists
  import opened HashModel
  import opened Buckets

  /** `hhPrev` points one back along the chain. */
  ghost predicate HhBacked(c: seq<Element>)
    reads Set(c)
  {
    (c != [] ==> c[0].hhPrev == null) && forall i {:trigger c[i].hhPrev} :: 1 <= i < |c| ==> c[i].hhPrev == c[i - 1]
  }

  /** The forward pointers make these chains; nothing is said of back pointers and counts. */
  ghost predicate Walkable(head: Element, buckets: array<Bucket>, items: seq<Element>, chains: seq<seq<Element>>)
    reads buckets, Set(items), set b, x | 0 <= b < |chains| && x in chains[b] :: x
  {
    && items != [] && head == items[0] && Chain(items, null)
    && buckets.Length == |chains|
    && forall b :: 0 <= b < |chains| ==> buckets[b].hhHead == First(chains[b]) && Forward(chains[b])
  }

  ghost predicate BucketSound(b: Bucket, c: seq<Element>)
    reads Set(c)
  {
    HhBacked(c) && b.count == |c|
  }

  /** Back pointers and counts are right everywhere. */
  ghost predicate Sound(buckets: array<Bucket>, numItems: nat, items: seq<Element>, chains: seq<seq<Element>>)
    requires buckets.Length == |chains|
    reads buckets, Set(items), set b, x | 0 <= b < |chains| && x in chains[b] :: x
  {
    && (forall b :: 0 <= b < |chains| ==> BucketSound(buckets[b], chains[b]))
    && TotalLen(chains) == numItems && Backed(items) && |items| == numItems
  }

  lemma TotalLenNext(chains: seq<seq<Element>>, b: nat)
    requires b < |chains|
    ensures TotalLen(chains[..b + 1]) == TotalLen(chains[..b]) + |chains[b]|
  {
    assert chains[..b + 1] == chains[..b] + [chains[b]];
    TotalLenConcat(chains[..b], [chains[b]]);
  }

  /** The walk over one bucket. */
  method CheckBucket(b: Bucket, ghost c: seq<Element>) returns (ok: bool, count: nat)
    requires b.hhHead == First(c) && Forward(c)
    ensures count == |c| && (ok <==> HhBacked(c))
  {
    ok, count := true, 0;
    var thh, prev: Element? := b.hhHead, null;
    while thh != null
      invariant 0 <= count <= |c| && thh == (if count < |c| then c[count] else null)
      invariant prev == if count > 0 then c[count - 1] else null
      invariant ok <==> forall i {:trigger c[i].hhPrev} :: 0 <= i < count ==>
                  c[i].hhPrev == if i > 0 then c[i - 1] else null
      decreases |c| - count
    {
      if prev != thh.hhPrev { ok := false; }
      count := count + 1;
      prev := thh;
      thh := thh.hhNext;
    }
  }

  /** The walk over the application order. */
  method CheckOrder(head: Element, ghost items: seq<Element>) returns (ok: bool, count: nat)
    requires items != [] && head == items[0] && Chain(items, null)
    ensures count == |items| && (ok <==> Backed(items))
  {
    ok, count := true, 0;
    var thh: Element?, prev: Element? := head, null;
    while thh != null
      invariant 0 <= count <= |items| && thh == (if count < |items| then items[count] else null)
      invariant prev == if count > 0 then items[count - 1] else null
      invariant ok <==> forall i {:trigger items[i].prev} :: 0 <= i < count ==>
                  items[i].prev == if i > 0 then items[i - 1] else null
      decreases |items| - count
    {
      if prev != thh.prev { ok := false; }
      count := count + 1;
      prev := thh;
      thh := thh.next;
    }
  }

  /** The loop over the buckets. */
  method CheckBuckets(buckets: array<Bucket>, ghost chains: seq<seq<Element>>) returns (ok: bool, count: nat)
    requires buckets.Length == |chains|
    requires forall b :: 0 <= b < |chains| ==> buckets[b].hhHead == First(chains[b]) && Forward(chains[b])
    ensures count == TotalLen(chains) && (ok <==> forall b :: 0 <= b < |chains| ==> BucketSound(buckets[b], chains[b]))
  {
    ok, count := true, 0;
    var bkt := 0;
    while bkt < buckets.Length
      invariant 0 <= bkt <= |chains| && count == TotalLen(chains[..bkt])
      invariant ok <==> forall b :: 0 <= b < bkt ==> BucketSound(buckets[b], chains[b])
    {
      var good, bktCount := CheckBucket(buckets[bkt], chains[bkt]);
      TotalLenNext(chains, bkt);
      if !good || buckets[bkt].count != bktCount { ok := false; }
      count := count + bktCount;
      bkt := bkt + 1;
    }
    assert chains[..bkt] == chains;
  }

  /** HASH_FSCK answers yes exactly when all back pointers and all counts are right. */
  method Check(head: Element?, buckets: array<Bucket>, numItems: nat,
               ghost items: seq<Element>, ghost chains: seq<seq<Element>>)
    returns (ok: bool)
    requires head != null ==> Walkable(head, buckets, items, chains)
    ensures ok <==> head == null || Sound(buckets, numItems, items, chains)
  {
    if head == null { return true; }
    var good, count := CheckBuckets(buckets, chains);
    var ordered, appCount := CheckOrder(head, items);
    ok := good && count == numItems && ordered && appCount == numItems;
  }

  /** Every table the macros build can be walked, and is sound. */
  lemma TablesAreSound(hash: HashFcn, head: Element?, tail: Element?, buckets: array<Bucket>, st: State)
    requires st.Table? && Structure(hash, head, tail, buckets, st)
    ensures head != null && Walkable(head, buckets, st.items, st.chains)
    ensures Sound(buckets, |st.items|, st.items, st.chains)
  {
    forall b | 0 <= b < |st.chains|
      ensures buckets[b].hhHead == First(st.chains[b]) && Forward(st.chains[b]) && BucketSound(buckets[b], st.chains[b])
    {
      assert Holds(buckets[b], st.chains[b]);
    }
  }

  /** Of a table whose chains can be walked, whose items are where their hashes say, and whose tail and multipliers are
      right, the check passes if and only if it is one the macros could have built. */
  lemma SoundIsStructure(hash: HashFcn, head: Element, tail: Element?, buckets: array<Bucket>, st: State)
    requires st.Table? && Inv(hash, st) && Walkable(head, buckets, st.items, st.chains)
    requires tail == Last(st.items) && Hashed(hash, st.items)
    requires forall b :: 0 <= b < |st.chains| ==> buckets[b].expandMult == st.mults[b]
    ensures Sound(buckets, |st.items|, st.items, st.chains) <==> Structure(hash, head, tail, buckets, st)
  {
    if Structure(hash, head, tail, buckets, st) {
      TablesAreSound(hash, head, tail, buckets, st);
    }
    if Sound(buckets, |st.items|, st.items, st.chains) {
      forall b | 0 <= b < |st.chains| ensures Holds(buckets[b], st.chains[b]) {
        assert ChainOf(hash, st.items, st.log2, st.chains[b], b) && BucketSound(buckets[b], st.chains[b]);
      }
    }
  }
}
