/**
  HASH_EXPAND_BUCKETS: the outer loop over the old buckets, and what its counters add up to.
 */
module Expansion {
  import opened Arith
  import opened Elements
  import opened Lists
  import opened HashModel
  import opened Buckets

  /** No other chain, and no half of another chain, shares a node with old chain i. */
  ghost predicate Separate(chains: seq<seq<Element>>, lo: seq<seq<Element>>, hi: seq<seq<Element>>, i: nat)
    requires i < |chains| == |lo| == |hi|
  {
    && (forall m :: 0 <= m < |chains| && m != i ==> Apart(chains[m], chains[i]))
    && (forall m :: 0 <= m < |chains| && m != i ==> Apart(lo[m], chains[i]))
    && (forall m :: 0 <= m < |chains| && m != i ==> Apart(hi[m], chains[i]))
  }

  /** Old chain i is moved; chains moved before and chains still to come keep their shape.
      lo[m] and hi[m] are the halves of old chain m. */
  method MoveChain(hash: HashFcn, buckets: array<Bucket>, newBuckets: array<Bucket>, i: nat, log2: nat, ideal: nat,
                   nonideal0: nat, ghost chains: seq<seq<Element>>,
                   ghost lo: seq<seq<Element>>, ghost hi: seq<seq<Element>>)
    returns (nonideal: nat)
    requires ideal > 0 && i < Pow2(log2) == |chains| == |lo| == |hi| == buckets.Length
    requires newBuckets.Length == 2 * |chains|
    requires buckets != newBuckets && ChainOf(hash, chains[i], log2, chains[i], i) && Hashed(hash, chains[i])
    requires lo[i] == Split(hash, chains[i], log2 + 1, i) && hi[i] == Split(hash, chains[i], log2 + 1, i + |chains|)
    requires forall m :: 0 <= m < i ==> Moved(newBuckets, m, |chains|, ideal, lo[m], hi[m])
    requires forall m :: i <= m < |chains| ==> Untouched(buckets, newBuckets, m, chains[m])
    requires Separate(chains, lo, hi, i)
    modifies newBuckets, Set(chains[i])`hhNext, Set(chains[i])`hhPrev
    ensures forall m :: 0 <= m < i + 1 ==> Moved(newBuckets, m, |chains|, ideal, lo[m], hi[m])
    ensures forall m :: i + 1 <= m < |chains| ==> Untouched(buckets, newBuckets, m, chains[m])
    ensures nonideal == nonideal0 + Excess(|lo[i]|, ideal) + Excess(|hi[i]|, ideal)
  {
    assert Untouched(buckets, newBuckets, i, chains[i]);
    nonideal := SplitChain(hash, buckets[i].hhHead, newBuckets, i, log2, ideal, nonideal0, chains[i]);
    assert Moved(newBuckets, i, |chains|, ideal, lo[i], hi[i]);
    forall m | 0 <= m < i ensures Moved(newBuckets, m, |chains|, ideal, lo[m], hi[m]) {
      assert old(Moved(newBuckets, m, |chains|, ideal, lo[m], hi[m]));
    }
    forall m | i < m < |chains| ensures Untouched(buckets, newBuckets, m, chains[m]) {
      assert old(Untouched(buckets, newBuckets, m, chains[m]));
    }
  }

  /** The excess of the halves of the first i old chains. */
  function ExcessUpTo(lo: seq<seq<Element>>, hi: seq<seq<Element>>, ideal: nat, i: nat): nat
    requires i <= |lo| == |hi|
  {
    if i == 0 then 0
    else ExcessUpTo(lo, hi, ideal, i - 1) + Excess(|lo[i - 1]|, ideal) + Excess(|hi[i - 1]|, ideal)
  }

  lemma {:induction false} NonIdealConcat(s: seq<seq<Element>>, t: seq<seq<Element>>, ideal: nat)
    ensures NonIdeal(s + t, ideal) == NonIdeal(s, ideal) + NonIdeal(t, ideal)
  {
    if s == [] {
      assert s + t == t;
    } else {
      assert (s + t)[1..] == s[1..] + t;
      NonIdealConcat(s[1..], t, ideal);
    }
  }

  /** Counting pair by pair gives the sum over all new chains. */
  lemma {:induction false} ExcessAddsUp(lo: seq<seq<Element>>, hi: seq<seq<Element>>, ideal: nat, i: nat)
    requires i <= |lo| == |hi|
    ensures ExcessUpTo(lo, hi, ideal, i) == NonIdeal(lo[..i], ideal) + NonIdeal(hi[..i], ideal)
  {
    if i > 0 {
      ExcessAddsUp(lo, hi, ideal, i - 1);
      assert lo[..i] == lo[..i - 1] + [lo[i - 1]] && hi[..i] == hi[..i - 1] + [hi[i - 1]];
      NonIdealConcat(lo[..i - 1], [lo[i - 1]], ideal);
      NonIdealConcat(hi[..i - 1], [hi[i - 1]], ideal);
    }
  }

  lemma SplitApart(hash: HashFcn, c: seq<Element>, d: seq<Element>, log2: nat, j: nat, p: seq<Element>)
    requires NoDup(c) && Apart(c, d) && p == Split(hash, c, log2, j)
    ensures Apart(p, d)
  {
    forall x | x in p ensures x !in d { SplitMember(hash, c, log2, j, x); }
  }

  lemma HalvesSeparate(hash: HashFcn, items: seq<Element>, log2: nat, chains: seq<seq<Element>>,
                       lo: seq<seq<Element>>, hi: seq<seq<Element>>, i: nat)
    requires Partition(hash, items, log2, chains) && i < |chains|
    requires lo == Halves(hash, chains, log2 + 1, 0) && hi == Halves(hash, chains, log2 + 1, |chains|)
    ensures Separate(chains, lo, hi, i)
  {
    forall m | 0 <= m < |chains| && m != i
      ensures Apart(chains[m], chains[i]) && Apart(lo[m], chains[i]) && Apart(hi[m], chains[i])
    {
      ChainsApart(hash, items, log2, chains, m, i);
      SplitApart(hash, chains[m], chains[i], log2 + 1, m, lo[m]);
      SplitApart(hash, chains[m], chains[i], log2 + 1, m + |chains|, hi[m]);
    }
  }

  /** The outer loop has moved the first i old chains. */
  ghost predicate MovedUpTo(buckets: array<Bucket>, newBuckets: array<Bucket>, ideal: nat, chains: seq<seq<Element>>,
                            lo: seq<seq<Element>>, hi: seq<seq<Element>>, i: nat, nonideal: nat)
    requires ideal > 0 && i <= |chains| == |lo| == |hi| == buckets.Length && newBuckets.Length == 2 * |chains|
    reads buckets, newBuckets, set m, x | 0 <= m < |chains| && x in chains[m] :: x
    reads set m, x | 0 <= m < |lo| && x in lo[m] :: x
    reads set m, x | 0 <= m < |hi| && x in hi[m] :: x
  {
    && (forall m :: 0 <= m < i ==> Moved(newBuckets, m, |chains|, ideal, lo[m], hi[m]))
    && (forall m :: i <= m < |chains| ==> Untouched(buckets, newBuckets, m, chains[m]))
    && nonideal == ExcessUpTo(lo, hi, ideal, i)
  }

  /** One round of the outer loop. */
  method MoveNext(hash: HashFcn, buckets: array<Bucket>, newBuckets: array<Bucket>, i: nat, log2: nat, ideal: nat,
                  nonideal0: nat, ghost items: seq<Element>, ghost chains: seq<seq<Element>>,
                  ghost lo: seq<seq<Element>>, ghost hi: seq<seq<Element>>)
    returns (nonideal: nat)
    requires Partition(hash, items, log2, chains) && Hashed(hash, items) && ideal > 0
    requires i < |chains| == buckets.Length && newBuckets.Length == 2 * |chains| && buckets != newBuckets
    requires lo == Halves(hash, chains, log2 + 1, 0) && hi == Halves(hash, chains, log2 + 1, |chains|)
    requires MovedUpTo(buckets, newBuckets, ideal, chains, lo, hi, i, nonideal0)
    modifies newBuckets, Set(items)`hhNext, Set(items)`hhPrev
    ensures MovedUpTo(buckets, newBuckets, ideal, chains, lo, hi, i + 1, nonideal)
  {
    HalvesSeparate(hash, items, log2, chains, lo, hi, i);
    assert ChainOf(hash, items, log2, chains[i], i);
    nonideal := MoveChain(hash, buckets, newBuckets, i, log2, ideal, nonideal0, chains, lo, hi);
  }

  /** The loop over all old buckets. */
  method Redistribute(hash: HashFcn, buckets: array<Bucket>, newBuckets: array<Bucket>, log2: nat, ideal: nat,
                      ghost items: seq<Element>, ghost chains: seq<seq<Element>>, ghost mults: seq<nat>,
                      ghost lo: seq<seq<Element>>, ghost hi: seq<seq<Element>>)
    returns (nonideal: nat)
    requires Partition(hash, items, log2, chains) && Hashed(hash, items) && ideal > 0
    requires BucketsHold(buckets, chains, mults) && newBuckets.Length == 2 * |chains| && buckets != newBuckets
    requires forall m :: 0 <= m < newBuckets.Length ==> newBuckets[m] == EMPTY_BUCKET
    requires lo == Halves(hash, chains, log2 + 1, 0) && hi == Halves(hash, chains, log2 + 1, |chains|)
    modifies newBuckets, Set(items)`hhNext, Set(items)`hhPrev
    ensures MovedUpTo(buckets, newBuckets, ideal, chains, lo, hi, |chains|, nonideal)
  {
    nonideal := 0;
    NothingMoved(buckets, newBuckets, ideal, chains, mults, lo, hi);
    var i := 0;
    while i < buckets.Length
      invariant 0 <= i <= |chains| && Hashed(hash, items)
      invariant MovedUpTo(buckets, newBuckets, ideal, chains, lo, hi, i, nonideal)
    {
      nonideal := MoveNext(hash, buckets, newBuckets, i, log2, ideal, nonideal, items, chains, lo, hi);
      i := i + 1;
    }
  }

  lemma NothingMoved(buckets: array<Bucket>, newBuckets: array<Bucket>, ideal: nat, chains: seq<seq<Element>>,
                     mults: seq<nat>, lo: seq<seq<Element>>, hi: seq<seq<Element>>)
    requires BucketsHold(buckets, chains, mults) && newBuckets.Length == 2 * |chains|
    requires ideal > 0 && |lo| == |hi| == |chains|
    requires forall m :: 0 <= m < newBuckets.Length ==> newBuckets[m] == EMPTY_BUCKET
    ensures MovedUpTo(buckets, newBuckets, ideal, chains, lo, hi, 0, 0)
  {
    forall m | 0 <= m < |chains| ensures Untouched(buckets, newBuckets, m, chains[m]) {
      assert Holds(buckets[m], chains[m]);
    }
  }

  lemma AllExpanded(newBuckets: array<Bucket>, n: nat, ideal: nat, lo: seq<seq<Element>>, hi: seq<seq<Element>>,
                    news: seq<seq<Element>>, mults: seq<nat>)
    requires ideal > 0 && |lo| == |hi| == n && newBuckets.Length == 2 * n && news == lo + hi
    requires |mults| == 2 * n && forall j :: 0 <= j < 2 * n ==> mults[j] == MultOf(|news[j]|, ideal)
    requires forall m :: 0 <= m < n ==> Moved(newBuckets, m, n, ideal, lo[m], hi[m])
    ensures BucketsHold(newBuckets, news, mults)
  {
    forall j | 0 <= j < 2 * n ensures Expanded(newBuckets[j], news[j], ideal) {
      if j < n {
        assert Moved(newBuckets, j, n, ideal, lo[j], hi[j]) && news[j] == lo[j];
      } else {
        assert Moved(newBuckets, j - n, n, ideal, lo[j - n], hi[j - n]) && news[j] == hi[j - n];
      }
    }
  }

  lemma AllMoved(buckets: array<Bucket>, newBuckets: array<Bucket>, ideal: nat, chains: seq<seq<Element>>,
                 lo: seq<seq<Element>>, hi: seq<seq<Element>>, nonideal: nat,
                 news: seq<seq<Element>>, mults: seq<nat>)
    requires ideal > 0 && |chains| == |lo| == |hi| == buckets.Length && newBuckets.Length == 2 * |chains|
    requires news == lo + hi
    requires |mults| == |news| && forall j :: 0 <= j < |news| ==> mults[j] == MultOf(|news[j]|, ideal)
    requires MovedUpTo(buckets, newBuckets, ideal, chains, lo, hi, |chains|, nonideal)
    ensures BucketsHold(newBuckets, news, mults) && nonideal == NonIdeal(news, ideal)
  {
    ExcessAddsUp(lo, hi, ideal, |lo|);
    NonIdealConcat(lo, hi, ideal);
    assert lo[..|lo|] == lo && hi[..|hi|] == hi;
    AllExpanded(newBuckets, |lo|, ideal, lo, hi, news, mults);
  }

  /** A fresh, zeroed bucket array of twice the size, filled from the old one. */
  method Refill(hash: HashFcn, buckets: array<Bucket>, log2: nat, ideal: nat,
                ghost items: seq<Element>, ghost chains: seq<seq<Element>>, ghost mults: seq<nat>,
                ghost news: seq<seq<Element>>, ghost newMults: seq<nat>)
    returns (newBuckets: array<Bucket>, nonideal: nat)
    requires ideal > 0 && Partition(hash, items, log2, chains) && BucketsHold(buckets, chains, mults)
    requires news == SplitAll(hash, chains, log2 + 1)
    requires |newMults| == |news| && forall j :: 0 <= j < |news| ==> newMults[j] == MultOf(|news[j]|, ideal)
    requires Hashed(hash, items)
    modifies Set(items)`hhNext, Set(items)`hhPrev
    ensures fresh(newBuckets) && BucketsHold(newBuckets, news, newMults)
    ensures nonideal == NonIdeal(news, ideal)
  {
    ghost var lo, hi := Halves(hash, chains, log2 + 1, 0), Halves(hash, chains, log2 + 1, |chains|);
    newBuckets := new Bucket[2 * buckets.Length](_ => EMPTY_BUCKET);
    nonideal := Redistribute(hash, buckets, newBuckets, log2, ideal, items, chains, mults, lo, hi);
    AllMoved(buckets, newBuckets, ideal, chains, lo, hi, nonideal, news, newMults);
  }

  /** Filling the new buckets does not touch application order or hash values. */
  method RefillKeeping(hash: HashFcn, buckets: array<Bucket>, log2: nat, ideal: nat,
                       ghost head: Element?, ghost tail: Element?, ghost t: State,
                       ghost news: seq<seq<Element>>, ghost newMults: seq<nat>)
    returns (newBuckets: array<Bucket>, nonideal: nat)
    requires ideal > 0 && t.Table? && log2 == t.log2 && Structure(hash, head, tail, buckets, t)
    requires news == SplitAll(hash, t.chains, log2 + 1)
    requires |newMults| == |news| && forall j :: 0 <= j < |news| ==> newMults[j] == MultOf(|news[j]|, ideal)
    modifies Set(t.items)`hhNext, Set(t.items)`hhPrev
    ensures fresh(newBuckets) && BucketsHold(newBuckets, news, newMults) && nonideal == NonIdeal(news, ideal)
    ensures AppOrder(head, tail, t.items) && Hashed(hash, t.items)
  {
    newBuckets, nonideal := Refill(hash, buckets, log2, ideal, t.items, t.chains, t.mults, news, newMults);
    assert Chain(t.items, null) && Backed(t.items);
  }

  /** The same for a whole table t that becomes r. */
  method Rebuild(hash: HashFcn, buckets: array<Bucket>, log2: nat, ideal: nat,
                 ghost head: Element?, ghost tail: Element?, ghost t: State, ghost r: State)
    returns (newBuckets: array<Bucket>, nonideal: nat)
    requires t.Table? && Inv(hash, t) && r == Expand(hash, t) && log2 == t.log2 && ideal == r.ideal
    requires Structure(hash, head, tail, buckets, t)
    modifies Set(t.items)`hhNext, Set(t.items)`hhPrev
    ensures fresh(newBuckets) && nonideal == r.nonideal && Structure(hash, head, tail, newBuckets, r)
  {
    ghost var parts := ExpandParts(hash, t);
    newBuckets, nonideal := RefillKeeping(hash, buckets, log2, ideal, head, tail, t, r.chains, r.mults);
  }
}
