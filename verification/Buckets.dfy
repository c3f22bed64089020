/**
  One bucket of uthash.h: a null-terminated chain through `hhNext`/`hhPrev`, its length
  and its expansion multiplier, and the four macros that work inside a bucket.
 */
module Buckets {
  import opened Arith
  import opened Elements
  import opened HashModel
  import opened Lists

  datatype Bucket = Bucket(hhHead: Element?, count: nat, expandMult: nat)

  const EMPTY_BUCKET: Bucket := Bucket(null, 0, 0)

  /** `hhNext` chain through c that ends in null. */
  ghost predicate Forward(c: seq<Element>)
    reads Set(c)
  {
    && (c != [] ==> c[|c| - 1].hhNext == null)
    && forall i {:trigger c[i].hhNext} :: 0 <= i < |c| - 1 ==> c[i].hhNext == c[i + 1]
  }

  ghost predicate Chained(hhHead: Element?, c: seq<Element>)
    reads Set(c)
  {
    && NoDup(c) && hhHead == First(c) && Forward(c)
    && (c != [] ==> c[0].hhPrev == null) && forall i {:trigger c[i].hhPrev} :: 1 <= i < |c| ==> c[i].hhPrev == c[i - 1]
  }

  /** The bucket holds exactly the chain c. */
  ghost predicate Holds(b: Bucket, c: seq<Element>)
    reads Set(c)
  {
    b.count == |c| && Chained(b.hhHead, c)
  }

  /** The whole bucket array. */
  ghost predicate BucketsHold(buckets: array<Bucket>, chains: seq<seq<Element>>, mults: seq<nat>)
    reads buckets, set b, x | 0 <= b < |chains| && x in chains[b] :: x
  {
    && buckets.Length == |chains| == |mults|
    && forall b :: 0 <= b < |chains| ==> Holds(buckets[b], chains[b]) && buckets[b].expandMult == mults[b]
  }

  /** Every item carries the hash of its key. */
  ghost predicate Hashed(hash: HashFcn, items: seq<Element>)
    reads Set(items)
  {
    forall x {:trigger x in items} :: x in items ==> x.hashv == hash(x.key)
  }

  /** The pointers of a table: both orders, and the hash values they rest on. */
  ghost predicate Structure(hash: HashFcn, head: Element?, tail: Element?, buckets: array<Bucket>, st: State)
    reads buckets, st.Nodes()
  {
    && Inv(hash, st)
    && (st.NoTable? <==> head == null)
    && (st.Table? ==>
         AppOrder(head, tail, st.items) && BucketsHold(buckets, st.chains, st.mults) && Hashed(hash, st.items))
  }

  /** HASH_ADD_TO_BKT without its expansion test; HASH_EXPAND_BUCKETS moves nodes the same way. */
  method PushHead(b: Bucket, e: Element, ghost c: seq<Element>) returns (b': Bucket)
    requires Holds(b, c) && e !in c
    modifies e`hhNext, e`hhPrev, (if b.hhHead == null then {} else {b.hhHead})`hhPrev
    ensures b' == Bucket(e, b.count + 1, b.expandMult) && Holds(b', [e] + c)
  {
    e.hhNext := b.hhHead;
    e.hhPrev := null;
    if b.hhHead != null { b.hhHead.hhPrev := e; }
    b' := Bucket(e, b.count + 1, b.expandMult);
    PrependNoDup(e, c);
  }

  lemma {:induction false} RemoveAt<T>(s: seq<T>, k: nat)
    requires NoDup(s) && k < |s|
    ensures Remove(s, s[k]) == Without(s, k)
  {
    if k == 0 {
      assert Without(s, 0) == s[1..];
    } else {
      assert s[0] != s[k];
      TailNoDup(s);
      RemoveAt(s[1..], k - 1);
      WithoutTail(s, k);
    }
  }

  lemma WithoutTail<T>(s: seq<T>, k: nat)
    requires 0 < k < |s|
    ensures Without(s, k) == [s[0]] + Without(s[1..], k - 1)
  {
  }

  lemma TailNoDup<T>(s: seq<T>)
    requires NoDup(s) && s != []
    ensures NoDup(s[1..])
  {
  }

  /** HASH_DEL_IN_BKT, for the node at position k. */
  method DeleteAt(b: Bucket, del: Element, ghost c: seq<Element>, ghost k: nat) returns (b': Bucket)
    requires Holds(b, c) && k < |c| && c[k] == del
    modifies Set(c)`hhNext, Set(c)`hhPrev
    ensures Holds(b', Without(c, k)) && b'.expandMult == b.expandMult
  {
    assert k + 1 < |c| ==> del.hhNext == c[k + 1];
    assert k > 0 ==> del.hhPrev == c[k - 1] && c[k - 1].hhNext == c[k];
    b' := Bucket(if b.hhHead == del then del.hhNext else b.hhHead, b.count - 1, b.expandMult);
    if del.hhPrev != null { del.hhPrev.hhNext := del.hhNext; }
    if del.hhNext != null { del.hhNext.hhPrev := del.hhPrev; }
  }

  /** HASH_DEL_IN_BKT. */
  method DeleteInBucket(b: Bucket, del: Element, ghost c: seq<Element>) returns (b': Bucket)
    requires Holds(b, c) && del in c
    modifies Set(c)`hhNext, Set(c)`hhPrev
    ensures Holds(b', Remove(c, del)) && b'.expandMult == b.expandMult
  {
    ghost var k :| 0 <= k < |c| && c[k] == del;
    RemoveAt(c, k);
    b' := DeleteAt(b, del, c, k);
  }

  /** HASH_FIND_IN_BKT. */
  method FindInBucket(b: Bucket, key: Key, ghost c: seq<Element>) returns (out: Element?)
    requires Holds(b, c)
    ensures out == FindIn(c, key)
  {
    out := b.hhHead;
    ghost var k := 0;
    while out != null
      invariant 0 <= k <= |c| && out == First(c[k..])
      invariant FindIn(c, key) == FindIn(c[k..], key)
      decreases |c| - k
    {
      if |out.key| == |key| {
        if out.key == key { break; }
      }
      assert c[k..][1..] == c[k + 1..];
      assert k + 1 < |c| ==> c[k].hhNext == c[k + 1];
      out, k := out.hhNext, k + 1;
    }
  }

  // ----- expansion, one old chain

  /** A new bucket during expansion: what was pushed so far, with its multiplier. */
  ghost predicate Expanded(b: Bucket, c: seq<Element>, ideal: nat)
    requires ideal > 0
    reads Set(c)
  {
    Holds(b, c) && b.expandMult == MultOf(|c|, ideal)
  }

  lemma SplitStep(hash: HashFcn, c: seq<Element>, k: nat, log2: nat, j: nat)
    requires k < |c|
    ensures Split(hash, c[..k + 1], log2, j)
         == if BucketOf(hash, c[k], log2) == j then [c[k]] + Split(hash, c[..k], log2, j)
            else Split(hash, c[..k], log2, j)
  {
    assert c[..k + 1][..k] == c[..k];
  }

  /** The move of one node to its new bucket, with the chain length statistics. */
  method MoveNode(newBuckets: array<Bucket>, j: nat, e: Element, ideal: nat, nonideal0: nat, ghost c: seq<Element>)
    returns (nonideal: nat)
    requires ideal > 0 && j < newBuckets.Length && Expanded(newBuckets[j], c, ideal) && e !in c
    modifies newBuckets, e`hhNext, e`hhPrev
    modifies (if newBuckets[j].hhHead == null then {} else {newBuckets[j].hhHead})`hhPrev
    ensures Expanded(newBuckets[j], [e] + c, ideal)
    ensures forall i :: 0 <= i < newBuckets.Length && i != j ==> newBuckets[i] == old(newBuckets[i])
    ensures nonideal == nonideal0 + Excess(|c| + 1, ideal) - Excess(|c|, ideal)
  {
    nonideal := nonideal0;
    var b := PushHead(newBuckets[j], e, c);
    if b.count > ideal {
      nonideal := nonideal + 1;
      b := b.(expandMult := b.count / ideal);
    }
    newBuckets[j] := b;
  }

  /** The move leaves the sibling bucket alone: the two halves share no node. */
  method MoveApart(newBuckets: array<Bucket>, j: nat, e: Element, ideal: nat, nonideal0: nat,
                   ghost p: seq<Element>, ghost other: nat, ghost q: seq<Element>)
    returns (nonideal: nat)
    requires ideal > 0 && j < newBuckets.Length && other < newBuckets.Length && j != other
    requires Expanded(newBuckets[j], p, ideal) && Expanded(newBuckets[other], q, ideal)
    requires e !in p && e !in q && Apart(q, p)
    modifies newBuckets, e`hhNext, e`hhPrev
    modifies (if newBuckets[j].hhHead == null then {} else {newBuckets[j].hhHead})`hhPrev
    ensures Expanded(newBuckets[j], [e] + p, ideal) && Expanded(newBuckets[other], q, ideal)
    ensures forall i :: 0 <= i < newBuckets.Length && i != j ==> newBuckets[i] == old(newBuckets[i])
    ensures nonideal == nonideal0 + Excess(|p| + 1, ideal) - Excess(|p|, ideal)
  {
    assert p != [] ==> p[0] in p && p[0] !in q;
    nonideal := MoveNode(newBuckets, j, e, ideal, nonideal0, p);
  }

  /** New bucket j holds what the part c of an old chain contributes to it. */
  ghost predicate Half(hash: HashFcn, newBuckets: array<Bucket>, j: nat, log2: nat, ideal: nat, c: seq<Element>)
    requires ideal > 0 && j < newBuckets.Length
    reads newBuckets, Set(Split(hash, c, log2 + 1, j))
  {
    Expanded(newBuckets[j], Split(hash, c, log2 + 1, j), ideal)
  }

  function ExcessOf(hash: HashFcn, c: seq<Element>, log2: nat, ideal: nat, j: nat): nat {
    Excess(|Split(hash, c, log2 + 1, j)|, ideal)
  }

  lemma SplitNodeFacts(hash: HashFcn, c: seq<Element>, k: nat, log2: nat, j: nat, other: nat)
    returns (p: seq<Element>, q: seq<Element>)
    requires NoDup(c) && k < |c| && j != other && BucketOf(hash, c[k], log2) == j
    ensures p == Split(hash, c[..k], log2, j) && q == Split(hash, c[..k], log2, other)
    ensures Split(hash, c[..k + 1], log2, j) == [c[k]] + p && Split(hash, c[..k + 1], log2, other) == q
    ensures c[k] !in p && c[k] !in q && Apart(q, p) && forall x :: x in p ==> x in c
  {
    var d := c[..k];
    assert c[k] !in d;
    SplitStep(hash, c, k, log2, j);
    SplitStep(hash, c, k, log2, other);
    p, q := Split(hash, d, log2, j), Split(hash, d, log2, other);
    forall x | x in p ensures x in d && x !in q {
      SplitMember(hash, d, log2, j, x);
      SplitMember(hash, d, log2, other, x);
    }
    forall x | x in q ensures x in d && x !in p {
      SplitMember(hash, d, log2, j, x);
      SplitMember(hash, d, log2, other, x);
    }
  }

  /** One round of the inner loop: node k of the old chain goes to new bucket j, not to the other one. */
  method SplitNode(hash: HashFcn, e: Element, newBuckets: array<Bucket>, j: nat, log2: nat, ideal: nat,
                   nonideal0: nat, ghost other: nat, ghost c: seq<Element>, ghost k: nat)
    returns (nonideal: nat)
    requires ideal > 0 && j < newBuckets.Length && other < newBuckets.Length && j != other
    requires NoDup(c) && k < |c| && e == c[k] && BucketOf(hash, e, log2 + 1) == j
    requires Half(hash, newBuckets, j, log2, ideal, c[..k]) && Half(hash, newBuckets, other, log2, ideal, c[..k])
    modifies newBuckets, e`hhNext, Set(c)`hhPrev
    ensures Half(hash, newBuckets, j, log2, ideal, c[..k + 1]) && Half(hash, newBuckets, other, log2, ideal, c[..k + 1])
    ensures forall i :: 0 <= i < newBuckets.Length && i != j ==> newBuckets[i] == old(newBuckets[i])
    ensures ExcessOf(hash, c[..k + 1], log2, ideal, other) == ExcessOf(hash, c[..k], log2, ideal, other)
    ensures nonideal == nonideal0 + ExcessOf(hash, c[..k + 1], log2, ideal, j) - ExcessOf(hash, c[..k], log2, ideal, j)
  {
    ghost var p, q := SplitNodeFacts(hash, c, k, log2 + 1, j, other);
    assert p != [] ==> p[0] in c;
    nonideal := MoveApart(newBuckets, j, e, ideal, nonideal0, p, other, q);
  }

  /** HASH_TO_BKT with the doubled bucket count: the old index, or the old index plus the old count. */
  lemma NewIndex(hashv: nat, log2: nat)
    ensures var j, i := BitAnd(hashv, 2 * Pow2(log2) - 1), Low(hashv, log2);
            j == Low(hashv, log2 + 1) && (j == i || j == i + Pow2(log2))
  {
    MaskIsLow(hashv, log2 + 1);
    LowGrows(hashv, log2);
  }

  /** The first k nodes of old chain i are moved, and counted on top of `base`. */
  ghost predicate Splitting(hash: HashFcn, newBuckets: array<Bucket>, i: nat, log2: nat, ideal: nat,
                            c: seq<Element>, k: nat, base: nat, nonideal: nat)
    requires ideal > 0 && i < Pow2(log2) && newBuckets.Length == 2 * Pow2(log2) && k <= |c|
    reads newBuckets, Set(Split(hash, c[..k], log2 + 1, i)), Set(Split(hash, c[..k], log2 + 1, i + Pow2(log2)))
  {
    && Half(hash, newBuckets, i, log2, ideal, c[..k]) && Half(hash, newBuckets, i + Pow2(log2), log2, ideal, c[..k])
    && nonideal == base + ExcessOf(hash, c[..k], log2, ideal, i) + ExcessOf(hash, c[..k], log2, ideal, i + Pow2(log2))
  }

  /** One round of the inner loop of HASH_EXPAND_BUCKETS. */
  method SplitNext(hash: HashFcn, thh: Element, newBuckets: array<Bucket>, i: nat, log2: nat, ideal: nat,
                   nonideal0: nat, ghost c: seq<Element>, ghost k: nat, ghost base: nat)
    returns (nonideal: nat)
    requires ideal > 0 && i < Pow2(log2) && newBuckets.Length == 2 * Pow2(log2)
    requires NoDup(c) && k < |c| && thh == c[k] && thh.hashv == hash(thh.key) && BucketOf(hash, thh, log2) == i
    requires Splitting(hash, newBuckets, i, log2, ideal, c, k, base, nonideal0)
    modifies newBuckets, thh`hhNext, Set(c)`hhPrev
    ensures Splitting(hash, newBuckets, i, log2, ideal, c, k + 1, base, nonideal)
    ensures forall j :: 0 <= j < newBuckets.Length && j != i && j != i + Pow2(log2) ==>
              newBuckets[j] == old(newBuckets[j])
  {
    var j := BitAnd(thh.hashv, newBuckets.Length - 1);
    NewIndex(thh.hashv, log2);
    nonideal := SplitNode(hash, thh, newBuckets, j, log2, ideal, nonideal0, if j == i then i + Pow2(log2) else i, c, k);
  }

  /** The inner loop of HASH_EXPAND_BUCKETS: old chain number i goes to new chains i and i + n. */
  method SplitChain(hash: HashFcn, head: Element?, newBuckets: array<Bucket>, i: nat, log2: nat, ideal: nat,
                    nonideal0: nat, ghost c: seq<Element>)
    returns (nonideal: nat)
    requires ideal > 0 && i < Pow2(log2) && newBuckets.Length == 2 * Pow2(log2)
    requires newBuckets[i] == EMPTY_BUCKET && newBuckets[i + Pow2(log2)] == EMPTY_BUCKET
    requires ChainOf(hash, c, log2, c, i) && Hashed(hash, c) && head == First(c) && Forward(c)
    modifies newBuckets, Set(c)`hhNext, Set(c)`hhPrev
    ensures Half(hash, newBuckets, i, log2, ideal, c) && Half(hash, newBuckets, i + Pow2(log2), log2, ideal, c)
    ensures forall j :: 0 <= j < newBuckets.Length && j != i && j != i + Pow2(log2) ==>
              newBuckets[j] == old(newBuckets[j])
    ensures nonideal == nonideal0 + ExcessOf(hash, c, log2, ideal, i) + ExcessOf(hash, c, log2, ideal, i + Pow2(log2))
  {
    nonideal := nonideal0;
    var thh := head;
    ghost var k := 0;
    while thh != null
      invariant 0 <= k <= |c| && thh == (if k < |c| then c[k] else null)
      invariant forall m :: k <= m < |c| ==> c[m].hhNext == old(c[m].hhNext)
      invariant Splitting(hash, newBuckets, i, log2, ideal, c, k, nonideal0, nonideal)
      invariant forall j :: 0 <= j < newBuckets.Length && j != i && j != i + Pow2(log2) ==>
                  newBuckets[j] == old(newBuckets[j])
      decreases |c| - k
    {
      var nxt := thh.hhNext;
      assert c[k] in c;
      nonideal := SplitNext(hash, thh, newBuckets, i, log2, ideal, nonideal, c, k, nonideal0);
      thh, k := nxt, k + 1;
    }
    assert c[..k] == c;
  }

  // ----- expansion, all chains

  /** What the loop over the old buckets has not reached yet. */
  ghost predicate Untouched(buckets: array<Bucket>, newBuckets: array<Bucket>, m: nat, c: seq<Element>)
    requires m < buckets.Length && newBuckets.Length == 2 * buckets.Length
    reads buckets, newBuckets, Set(c)
  {
    && newBuckets[m] == EMPTY_BUCKET && newBuckets[m + buckets.Length] == EMPTY_BUCKET
    && buckets[m].hhHead == First(c) && Forward(c)
  }

  /** What the loop has done for old chain m: c and d are its two halves. */
  ghost predicate Moved(newBuckets: array<Bucket>, m: nat, n: nat, ideal: nat, c: seq<Element>, d: seq<Element>)
    requires ideal > 0 && m + n < newBuckets.Length
    reads newBuckets, Set(c), Set(d)
  {
    Expanded(newBuckets[m], c, ideal) && Expanded(newBuckets[m + n], d, ideal)
  }
}
