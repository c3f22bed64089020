/**
  What a uthash table is, on values: the application order, the bucket chains and the
  expansion statistics, with one function per macro. HashTable.dfy proves the pointer
  code against these functions; this file proves what a whole run of them keeps.
 */
module HashModel {
  import opened Arith
  import opened Elements

  type HashFcn = Key -> nat

  const INITIAL_LOG2: nat := 5
  const CAPACITY_THRESH: nat := 10

  datatype State =
    | NoTable
    | Table(items: seq<Element>, log2: nat, chains: seq<seq<Element>>, mults: seq<nat>,
            ideal: nat, nonideal: nat, ineff: nat, noexpand: bool)
  {
    function Items(): seq<Element> {
      if NoTable? then [] else items
    }

    /** Everything reachable from the table. */
    ghost function Nodes(): set<Element> {
      Set(Items())
    }
  }

  function BucketOf(hash: HashFcn, e: Element, log2: nat): (b: nat)
    ensures b < Pow2(log2)
  {
    Low(hash(e.key), log2)
  }

  // ----- the invariant

  /** c holds items of bucket b, each once. */
  ghost predicate ChainOf(hash: HashFcn, items: seq<Element>, log2: nat, c: seq<Element>, b: nat) {
    NoDup(c) && forall x {:trigger x in c} :: x in c ==> x in items && BucketOf(hash, x, log2) == b
  }

  ghost predicate Partition(hash: HashFcn, items: seq<Element>, log2: nat, chains: seq<seq<Element>>) {
    && |chains| == Pow2(log2)
    && (forall b :: 0 <= b < |chains| ==> ChainOf(hash, items, log2, chains[b], b))
    && (forall x {:trigger x in items} :: x in items ==> x in chains[BucketOf(hash, x, log2)])
  }

  /** No element of one chain is in another. */
  lemma ChainsApart(hash: HashFcn, items: seq<Element>, log2: nat, chains: seq<seq<Element>>, i: nat, j: nat)
    requires Partition(hash, items, log2, chains) && i < |chains| && j < |chains| && i != j
    ensures Apart(chains[i], chains[j])
  {
    forall x | x in chains[i] ensures x !in chains[j] {
      assert ChainOf(hash, items, log2, chains[i], i) && ChainOf(hash, items, log2, chains[j], j);
    }
  }

  function TotalLen(chains: seq<seq<Element>>): nat {
    if chains == [] then 0 else |chains[0]| + TotalLen(chains[1..])
  }

  /** Every item is in exactly the chain its hash selects, once, and the counts add up. */
  ghost predicate Inv(hash: HashFcn, st: State) {
    st.Table? ==>
      && st.items != [] && NoDup(st.items)
      && |st.mults| == |st.chains|
      && Partition(hash, st.items, st.log2, st.chains)
      && TotalLen(st.chains) == |st.items|
  }

  // ----- the operations

  /** HASH_MAKE_TABLE: 32 empty buckets, all statistics zero. */
  function MakeTable(): State {
    Table([], INITIAL_LOG2, seq(Pow2(INITIAL_LOG2), _ => []), seq(Pow2(INITIAL_LOG2), _ => 0), 0, 0, 0, false)
  }

  function TableFor(st: State): (t: State)
    ensures t.Table?
    ensures st.Table? ==> t == st
  {
    if st.NoTable? then MakeTable() else st
  }

  /** Last in application order, first in its chain. */
  function Inserted(hash: HashFcn, t: State, e: Element): State
    requires t.Table? && |t.chains| == Pow2(t.log2)
  {
    var b := BucketOf(hash, e, t.log2);
    t.(items := t.items + [e], chains := t.chains[b := [e] + t.chains[b]])
  }

  /** HASH_ADD_KEYPTR up to the expansion test. */
  function Insert(hash: HashFcn, st: State, e: Element): State
    requires st.Table? ==> |st.chains| == Pow2(st.log2)
  {
    Inserted(hash, TableFor(st), e)
  }

  /** The test in HASH_ADD_TO_BKT. */
  predicate MustExpand(count: nat, mult: nat, noexpand: bool) {
    count >= (mult + 1) * CAPACITY_THRESH && !noexpand
  }

  /** The part of an old chain that moves to new chain j: pushed one by one at the head. */
  function Split(hash: HashFcn, c: seq<Element>, log2: nat, j: nat): seq<Element> {
    if c == [] then []
    else
      var rest := Split(hash, c[..|c| - 1], log2, j);
      if BucketOf(hash, c[|c| - 1], log2) == j then [c[|c| - 1]] + rest else rest
  }

  /** What each old chain i contributes to new chain i + offset. */
  function Halves(hash: HashFcn, chains: seq<seq<Element>>, log2: nat, offset: nat): (r: seq<seq<Element>>)
    ensures |r| == |chains|
    ensures forall i :: 0 <= i < |r| ==> r[i] == Split(hash, chains[i], log2, i + offset)
  {
    seq(|chains|, i requires 0 <= i < |chains| => Split(hash, chains[i], log2, i + offset))
  }

  /** Old chain i goes to new chains i and i + n. */
  function SplitAll(hash: HashFcn, chains: seq<seq<Element>>, log2: nat): (r: seq<seq<Element>>)
    ensures |r| == 2 * |chains|
  {
    Halves(hash, chains, log2, 0) + Halves(hash, chains, log2, |chains|)
  }

  function Excess(count: nat, ideal: nat): nat { if count > ideal then count - ideal else 0 }

  /** How many items sit beyond the ideal chain length, over all chains. */
  function NonIdeal(chains: seq<seq<Element>>, ideal: nat): nat {
    if chains == [] then 0 else Excess(|chains[0]|, ideal) + NonIdeal(chains[1..], ideal)
  }

  function MultOf(count: nat, ideal: nat): nat
    requires ideal > 0
  {
    if count > ideal then count / ideal else 0
  }

  function Mults(chains: seq<seq<Element>>, ideal: nat): (r: seq<nat>)
    requires ideal > 0
    ensures |r| == |chains|
    ensures forall j :: 0 <= j < |r| ==> r[j] == MultOf(|chains[j]|, ideal)
  {
    seq(|chains|, j requires 0 <= j < |chains| => MultOf(|chains[j]|, ideal))
  }

  /** HASH_EXPAND_BUCKETS, in closed form. */
  function Expand(hash: HashFcn, t: State): State
    requires t.Table? && t.items != [] && |t.chains| == Pow2(t.log2)
  {
    var chains := SplitAll(hash, t.chains, t.log2 + 1);
    var ideal := CeilDiv(|t.items|, Pow2(t.log2 + 1));
    CeilDivLeast(|t.items|, Pow2(t.log2 + 1), 0);
    var nonideal := NonIdeal(chains, ideal);
    var ineff := if nonideal > |t.items| / 2 then t.ineff + 1 else 0;
    Table(t.items, t.log2 + 1, chains, Mults(chains, ideal), ideal, nonideal, ineff, t.noexpand || ineff > 1)
  }

  /** HASH_ADD_KEYPTR. */
  function Add(hash: HashFcn, st: State, e: Element): State
    requires st.Table? ==> |st.chains| == Pow2(st.log2) == |st.mults|
  {
    var t := Insert(hash, st, e);
    var b := BucketOf(hash, e, t.log2);
    if MustExpand(|t.chains[b]|, t.mults[b], t.noexpand) then Expand(hash, t) else t
  }

  function Remove<T(==)>(s: seq<T>, e: T): seq<T> {
    if s == [] then [] else if s[0] == e then s[1..] else [s[0]] + Remove(s[1..], e)
  }

  /** HASH_DELETE: the last item takes the table with it. */
  function Delete(hash: HashFcn, st: State, e: Element): State
    requires st.Table? && |st.chains| == Pow2(st.log2)
  {
    if |st.items| == 1 then NoTable
    else
      var b := BucketOf(hash, e, st.log2);
      st.(items := Remove(st.items, e), chains := st.chains[b := Remove(st.chains[b], e)])
  }

  /** HASH_FIND_IN_BKT: the first element of the chain with that key. */
  function FindIn(c: seq<Element>, key: Key): Element? {
    if c == [] then null else if c[0].key == key then c[0] else FindIn(c[1..], key)
  }

  function Find(hash: HashFcn, st: State, key: Key): Element?
    requires st.Table? ==> |st.chains| == Pow2(st.log2)
  {
    if st.NoTable? then null else FindIn(st.chains[Low(hash(key), st.log2)], key)
  }

  // ----- the invariant is kept

  lemma {:induction false} FindInMeaning(s: seq<Element>, key: Key)
    ensures FindIn(s, key) == null ==> forall x :: x in s ==> x.key != key
    ensures FindIn(s, key) != null ==> FindIn(s, key) in s && FindIn(s, key).key == key
  {
    if s != [] { FindInMeaning(s[1..], key); }
  }

  lemma {:induction false} TotalLenUpdate(chains: seq<seq<Element>>, b: nat, c: seq<Element>)
    requires b < |chains|
    ensures TotalLen(chains[b := c]) == TotalLen(chains) - |chains[b]| + |c|
  {
    if b == 0 {
      assert chains[b := c][1..] == chains[1..];
    } else {
      assert chains[b := c][1..] == chains[1..][b - 1 := c];
      TotalLenUpdate(chains[1..], b - 1, c);
    }
  }

  lemma {:induction false} TotalLenEmpty(chains: seq<seq<Element>>)
    requires forall b :: 0 <= b < |chains| ==> chains[b] == []
    ensures TotalLen(chains) == 0
  {
    if chains != [] { TotalLenEmpty(chains[1..]); }
  }

  lemma MakeTablePartition(hash: HashFcn)
    ensures var t := MakeTable();
            Partition(hash, t.items, t.log2, t.chains) && |t.mults| == |t.chains| && TotalLen(t.chains) == 0
  {
    TotalLenEmpty(MakeTable().chains);
  }

  lemma PartitionInsert(hash: HashFcn, items: seq<Element>, log2: nat, chains: seq<seq<Element>>, e: Element)
    requires Partition(hash, items, log2, chains) && e !in items
    ensures var b := BucketOf(hash, e, log2); Partition(hash, items + [e], log2, chains[b := [e] + chains[b]])
  {
    var b := BucketOf(hash, e, log2);
    var chains' := chains[b := [e] + chains[b]];
    assert e !in chains[b];
    forall x | x in items + [e] ensures x in chains'[BucketOf(hash, x, log2)] {
      if x in items { assert x in chains[BucketOf(hash, x, log2)]; }
    }
  }

  lemma InsertKeeps(hash: HashFcn, st: State, e: Element)
    requires Inv(hash, st) && e !in st.Items()
    ensures Inv(hash, Insert(hash, st, e))
  {
    MakeTablePartition(hash);
    var t := TableFor(st);
    var b := BucketOf(hash, e, t.log2);
    PartitionInsert(hash, t.items, t.log2, t.chains, e);
    TotalLenUpdate(t.chains, b, [e] + t.chains[b]);
    AppendNoDup(t.items, e);
  }

  // deletion

  lemma {:induction false} RemoveFacts<T>(s: seq<T>, e: T)
    requires NoDup(s) && e in s
    ensures NoDup(Remove(s, e)) && |Remove(s, e)| == |s| - 1
    ensures forall x :: x in Remove(s, e) <==> x in s && x != e
  {
    if s[0] == e {
      assert forall x :: x in s <==> x == s[0] || x in s[1..];
    } else {
      RemoveFacts(s[1..], e);
      assert forall x :: x in s <==> x == s[0] || x in s[1..];
      assert forall x :: x in Remove(s, e) <==> x == s[0] || x in Remove(s[1..], e);
      assert s[0] !in s[1..];
      PrependNoDup(s[0], Remove(s[1..], e));
    }
  }

  lemma RemovedMember<T>(s: seq<T>, e: T, x: T)
    requires NoDup(s) && e in s
    ensures x in Remove(s, e) <==> x in s && x != e
  {
    RemoveFacts(s, e);
  }

  lemma PrependNoDup<T>(x: T, s: seq<T>)
    requires NoDup(s) && x !in s
    ensures NoDup([x] + s)
  {
  }

  lemma PartitionRemove(hash: HashFcn, items: seq<Element>, log2: nat, chains: seq<seq<Element>>, e: Element)
    requires Partition(hash, items, log2, chains) && NoDup(items) && e in items
    ensures var b := BucketOf(hash, e, log2); Partition(hash, Remove(items, e), log2, chains[b := Remove(chains[b], e)])
  {
    var b := BucketOf(hash, e, log2);
    var chains' := chains[b := Remove(chains[b], e)];
    assert e in chains[b] && NoDup(chains[b]);
    RemoveFacts(chains[b], e);
    forall x | x in Remove(items, e) ensures x in chains'[BucketOf(hash, x, log2)] {
      RemovedMember(items, e, x);
      assert x in chains[BucketOf(hash, x, log2)];
      if BucketOf(hash, x, log2) == b { RemovedMember(chains[b], e, x); }
    }
    forall i, x | 0 <= i < |chains'| && x in chains'[i]
      ensures x in Remove(items, e) && BucketOf(hash, x, log2) == i
    {
      if i == b { RemovedMember(chains[b], e, x); }
      assert x in chains[i];
      assert x in items && BucketOf(hash, x, log2) == i;
      assert x != e;
      RemovedMember(items, e, x);
    }
  }

  lemma DeleteShrinks(hash: HashFcn, st: State, e: Element)
    requires Inv(hash, st) && e in st.Items()
    ensures Delete(hash, st, e).Nodes() <= st.Nodes() && |Remove(st.Items(), e)| == |st.Items()| - 1
  {
    RemoveFacts(st.items, e);
    var r := Remove(st.items, e);
    forall x | x in Set(r) ensures x in st.Nodes() {
      assert x in r;
    }
  }

  lemma DeleteKeeps(hash: HashFcn, st: State, e: Element)
    requires Inv(hash, st) && e in st.Items()
    ensures Inv(hash, Delete(hash, st, e))
    ensures Delete(hash, st, e).Items() == Remove(st.items, e)
  {
    var b := BucketOf(hash, e, st.log2);
    assert e in st.chains[b];
    RemoveFacts(st.items, e);
    if |st.items| == 1 {
      assert st.items[0] == e;
    } else {
      PartitionRemove(hash, st.items, st.log2, st.chains, e);
      RemoveFacts(st.chains[b], e);
      TotalLenUpdate(st.chains, b, Remove(st.chains[b], e));
    }
  }

  /** A table whose items are rearranged is still a table: chains do not depend on application order. */
  lemma Rearranged(hash: HashFcn, st: State, items: seq<Element>)
    requires Inv(hash, st) && st.Table? && multiset(items) == multiset(st.items)
    ensures Inv(hash, st.(items := items))
    ensures forall x {:trigger x in items} :: x in items <==> x in st.items
  {
    forall x ensures x in items <==> x in st.items {
      assert x in items <==> x in multiset(items);
      assert x in st.items <==> x in multiset(st.items);
    }
    SameMultisetNoDup(st.items, items);
    forall b | 0 <= b < |st.chains| ensures ChainOf(hash, items, st.log2, st.chains[b], b) {
      assert ChainOf(hash, st.items, st.log2, st.chains[b], b);
    }
  }

  lemma SameMultisetNoDup<T>(s: seq<T>, t: seq<T>)
    requires NoDup(s) && multiset(s) == multiset(t)
    ensures NoDup(t) && |t| == |s|
  {
    assert |multiset(s)| == |s| && |multiset(t)| == |t|;
    forall i, j | 0 <= i < j < |t| ensures t[i] != t[j] {
      if t[i] == t[j] {
        Twice(t, i, j);
        NoDupOnce(s, t[i]);
      }
    }
  }

  lemma Twice<T>(t: seq<T>, i: nat, j: nat)
    requires i < j < |t| && t[i] == t[j]
    ensures multiset(t)[t[i]] >= 2
  {
    assert t == t[..j] + [t[j]] + t[j + 1..];
    assert t[..j] == t[..i] + [t[i]] + t[i + 1..j];
  }

  lemma {:induction false} NoDupOnce<T>(s: seq<T>, x: T)
    requires NoDup(s)
    ensures multiset(s)[x] <= 1
  {
    if s != [] {
      assert s == [s[0]] + s[1..];
      NoDupOnce(s[1..], x);
      if s[0] == x {
        assert x !in s[1..];
        assert multiset(s[1..])[x] == 0;
      }
    }
  }

  // expansion

  /** `Split` in the usual words: the matching elements, in reverse. */
  function Select(hash: HashFcn, c: seq<Element>, log2: nat, j: nat): seq<Element> {
    if c == [] then []
    else (if BucketOf(hash, c[0], log2) == j then [c[0]] else []) + Select(hash, c[1..], log2, j)
  }

  lemma {:induction false} SplitPrepend(hash: HashFcn, x: Element, c: seq<Element>, log2: nat, j: nat)
    ensures Split(hash, [x] + c, log2, j) == Split(hash, c, log2, j) + if BucketOf(hash, x, log2) == j then [x] else []
    decreases |c|
  {
    if c == [] {
      assert ([x] + c)[..0] == [];
    } else {
      var d := c[..|c| - 1];
      assert ([x] + c)[..|c|] == [x] + d;
      SplitPrepend(hash, x, d, log2, j);
    }
  }

  /** Each new chain is the reverse of the matching subsequence of its old chain. */
  lemma {:induction false} SplitIsReversedSelection(hash: HashFcn, c: seq<Element>, log2: nat, j: nat)
    ensures Split(hash, c, log2, j) == Reverse(Select(hash, c, log2, j))
  {
    if c != [] {
      SplitIsReversedSelection(hash, c[1..], log2, j);
      assert c == [c[0]] + c[1..];
      SplitPrepend(hash, c[0], c[1..], log2, j);
      if BucketOf(hash, c[0], log2) == j {
        assert Select(hash, c, log2, j)[1..] == Select(hash, c[1..], log2, j);
      } else {
        assert Select(hash, c, log2, j) == Select(hash, c[1..], log2, j);
      }
    }
  }

  lemma {:induction false} SplitMembers(hash: HashFcn, c: seq<Element>, log2: nat, j: nat)
    requires NoDup(c)
    ensures NoDup(Split(hash, c, log2, j))
    ensures forall x :: x in Split(hash, c, log2, j) <==> x in c && BucketOf(hash, x, log2) == j
    decreases |c|
  {
    if c != [] {
      var d, x := c[..|c| - 1], c[|c| - 1];
      assert c == d + [x];
      SplitMembers(hash, d, log2, j);
      assert x !in d;
      PrependNoDup(x, Split(hash, d, log2, j));
    }
  }

  lemma SplitMember(hash: HashFcn, c: seq<Element>, log2: nat, j: nat, x: Element)
    requires NoDup(c)
    ensures x in Split(hash, c, log2, j) <==> x in c && BucketOf(hash, x, log2) == j
  {
    SplitMembers(hash, c, log2, j);
  }

  /** The two chains an old chain splits into hold all of it. */
  lemma {:induction false} SplitLengths(hash: HashFcn, c: seq<Element>, log2: nat, j: nat)
    requires forall x :: x in c ==> BucketOf(hash, x, log2) == j
    ensures |Split(hash, c, log2 + 1, j)| + |Split(hash, c, log2 + 1, j + Pow2(log2))| == |c|
    decreases |c|
  {
    if c != [] {
      var d, x := c[..|c| - 1], c[|c| - 1];
      assert x in c;
      LowGrows(hash(x.key), log2);
      SplitLengths(hash, d, log2, j);
    }
  }

  lemma {:induction false} TotalLenConcat(s: seq<seq<Element>>, t: seq<seq<Element>>)
    ensures TotalLen(s + t) == TotalLen(s) + TotalLen(t)
  {
    if s == [] {
      assert s + t == t;
    } else {
      assert (s + t)[1..] == s[1..] + t;
      TotalLenConcat(s[1..], t);
    }
  }

  /** If lengths add up position by position, the totals add up. */
  lemma {:induction false} TotalLenPairs(s: seq<seq<Element>>, t: seq<seq<Element>>, r: seq<seq<Element>>)
    requires |s| == |t| == |r| && forall i :: 0 <= i < |r| ==> |s[i]| + |t[i]| == |r[i]|
    ensures TotalLen(s) + TotalLen(t) == TotalLen(r)
  {
    if r != [] { TotalLenPairs(s[1..], t[1..], r[1..]); }
  }

  lemma SplitAllTotal(hash: HashFcn, items: seq<Element>, log2: nat, chains: seq<seq<Element>>)
    requires Partition(hash, items, log2, chains)
    ensures TotalLen(SplitAll(hash, chains, log2 + 1)) == TotalLen(chains)
  {
    var n := |chains|;
    var lo, hi := Halves(hash, chains, log2 + 1, 0), Halves(hash, chains, log2 + 1, n);
    forall i: nat | i < n ensures |lo[i]| + |hi[i]| == |chains[i]| {
      SplitLengths(hash, chains[i], log2, i);
    }
    TotalLenPairs(lo, hi, chains);
    TotalLenConcat(lo, hi);
  }

  /** New chain j is made of old chain j, or of old chain j - n. */
  lemma SplitAllAt(hash: HashFcn, chains: seq<seq<Element>>, log2: nat, j: nat)
    requires j < 2 * |chains|
    ensures SplitAll(hash, chains, log2)[j] == Split(hash, chains[if j < |chains| then j else j - |chains|], log2, j)
  {
  }

  lemma NewChain(hash: HashFcn, items: seq<Element>, log2: nat, chains: seq<seq<Element>>, j: nat, c: seq<Element>)
    requires Partition(hash, items, log2, chains) && j < 2 * |chains| && c == SplitAll(hash, chains, log2 + 1)[j]
    ensures NoDup(c) && forall x :: x in c ==> x in items && BucketOf(hash, x, log2 + 1) == j
  {
    var i := if j < |chains| then j else j - |chains|;
    SplitAllAt(hash, chains, log2 + 1, j);
    SplitMembers(hash, chains[i], log2 + 1, j);
    forall x | x in c ensures x in items && BucketOf(hash, x, log2 + 1) == j {
      SplitMember(hash, chains[i], log2 + 1, j, x);
    }
  }

  lemma NewHome(hash: HashFcn, items: seq<Element>, log2: nat, chains: seq<seq<Element>>, x: Element)
    requires Partition(hash, items, log2, chains) && x in items
    ensures |SplitAll(hash, chains, log2 + 1)| == Pow2(log2 + 1)
    ensures x in SplitAll(hash, chains, log2 + 1)[BucketOf(hash, x, log2 + 1)]
  {
    LowGrows(hash(x.key), log2);
    var j, i := BucketOf(hash, x, log2 + 1), BucketOf(hash, x, log2);
    assert x in chains[i];
    SplitAllAt(hash, chains, log2 + 1, j);
    SplitMember(hash, chains[i], log2 + 1, j, x);
  }

  /** Expansion loses and duplicates nothing: the doubled table is again a partition of the same items. */
  lemma SplitAllPartition(hash: HashFcn, items: seq<Element>, log2: nat, chains: seq<seq<Element>>)
    requires Partition(hash, items, log2, chains)
    ensures Partition(hash, items, log2 + 1, SplitAll(hash, chains, log2 + 1))
  {
    var r := SplitAll(hash, chains, log2 + 1);
    forall j | 0 <= j < |r|
      ensures NoDup(r[j]) && forall x :: x in r[j] ==> x in items && BucketOf(hash, x, log2 + 1) == j
    {
      NewChain(hash, items, log2, chains, j, r[j]);
    }
    forall x | x in items ensures x in r[BucketOf(hash, x, log2 + 1)] {
      NewHome(hash, items, log2, chains, x);
    }
  }

  /** The parts of an expanded table, one by one. */
  lemma ExpandParts(hash: HashFcn, t: State) returns (r: State)
    requires Inv(hash, t) && t.Table?
    ensures r == Expand(hash, t) && r.Table? && r.items == t.items && r.log2 == t.log2 + 1
    ensures r.chains == SplitAll(hash, t.chains, t.log2 + 1) && |r.mults| == |r.chains| == 2 * |t.chains|
    ensures r.ideal == CeilDiv(|t.items|, Pow2(t.log2 + 1)) > 0
    ensures forall j :: 0 <= j < |r.chains| ==> r.mults[j] == MultOf(|r.chains[j]|, r.ideal)
    ensures r.nonideal == NonIdeal(r.chains, r.ideal)
    ensures r.ineff == if r.nonideal > |t.items| / 2 then t.ineff + 1 else 0
    ensures r.noexpand <==> t.noexpand || r.ineff > 1
    ensures Inv(hash, r)
  {
    ExpandKeeps(hash, t);
    CeilDivLeast(|t.items|, Pow2(t.log2 + 1), 0);
    r := Expand(hash, t);
  }

  lemma ExpandKeeps(hash: HashFcn, t: State)
    requires Inv(hash, t) && t.Table?
    ensures Inv(hash, Expand(hash, t)) && Expand(hash, t).items == t.items
  {
    SplitAllPartition(hash, t.items, t.log2, t.chains);
    SplitAllTotal(hash, t.items, t.log2, t.chains);
  }

  lemma AddKeeps(hash: HashFcn, st: State, e: Element)
    requires Inv(hash, st) && e !in st.Items()
    ensures Inv(hash, Add(hash, st, e)) && Add(hash, st, e).Table?
    ensures Add(hash, st, e).items == st.Items() + [e]
  {
    InsertKeeps(hash, st, e);
    ExpandKeeps(hash, Insert(hash, st, e));
  }

  // ----- what the numbers count

  /** The bucket of an item is its hash modulo the number of buckets. */
  lemma BucketIsResidue(hash: HashFcn, e: Element, log2: nat)
    ensures BucketOf(hash, e, log2) == hash(e.key) % Pow2(log2)
  {
    LowIsMod(hash(e.key), log2);
  }

  /** Over all chains, the items that are not beyond the ideal length. */
  function Capped(chains: seq<seq<Element>>, ideal: nat): nat {
    if chains == [] then 0 else Min(|chains[0]|, ideal) + Capped(chains[1..], ideal)
  }

  /** nonideal_items counts the items beyond the ideal length: together with the others they are all. */
  lemma {:induction false} NonIdealCounts(chains: seq<seq<Element>>, ideal: nat)
    ensures NonIdeal(chains, ideal) + Capped(chains, ideal) == TotalLen(chains)
  {
    if chains != [] { NonIdealCounts(chains[1..], ideal); }
  }

  /** It is zero if and only if no chain is longer than that. */
  lemma {:induction false} NoneBeyond(chains: seq<seq<Element>>, ideal: nat)
    ensures NonIdeal(chains, ideal) == 0 <==> forall b :: 0 <= b < |chains| ==> |chains[b]| <= ideal
  {
    if chains != [] {
      NoneBeyond(chains[1..], ideal);
      assert forall b :: 1 <= b < |chains| ==> chains[b] == chains[1..][b - 1];
      if forall b :: 0 <= b < |chains| ==> |chains[b]| <= ideal {
        assert forall b :: 0 <= b < |chains| - 1 ==> chains[1..][b] == chains[b + 1];
      }
    }
  }

  /** expand_mult is how many whole ideal lengths a chain has that is longer than one, and zero for any other. */
  lemma MultIsQuotient(count: nat, ideal: nat)
    requires ideal > 0
    ensures count <= ideal ==> MultOf(count, ideal) == 0
    ensures count > ideal ==> MultOf(count, ideal) * ideal <= count < MultOf(count, ideal) * ideal + ideal
  {
    DivMod(count, ideal);
    assert (count / ideal) * ideal == ideal * (count / ideal);
  }

  /** An add to a table doubles its buckets if and only if that is not forbidden and the chain of the item has reached
      ten times its multiplier plus one. */
  lemma AddExpandsExactly(hash: HashFcn, st: State, e: Element)
    requires Inv(hash, st) && st.Table? && e !in st.items
    ensures var r, b := Add(hash, st, e), hash(e.key) % |st.chains|;
            && r.Table? && b < |st.mults| == |st.chains|
            && var due := !st.noexpand && |st.chains[b]| + 1 >= 10 * (st.mults[b] + 1);
               |r.chains| == (if due then 2 * |st.chains| else |st.chains|) && (r.log2 == st.log2 + 1 <==> due)
  {
    BucketIsResidue(hash, e, st.log2);
    InsertKeeps(hash, st, e);
  }

  /** The first item gets a table of 32 buckets, all its statistics zero. */
  lemma FirstAdd(hash: HashFcn, e: Element)
    ensures var r := Add(hash, NoTable, e);
            && r.Table? && r.items == [e] && |r.chains| == |r.mults| == 32
            && (forall b :: 0 <= b < 32 ==> r.chains[b] == if b == hash(e.key) % 32 then [e] else [])
            && (forall b :: 0 <= b < 32 ==> r.mults[b] == 0)
            && r.ideal == r.nonideal == r.ineff == 0 && !r.noexpand
  {
    assert Pow2(5) == 32;
    BucketIsResidue(hash, e, 5);
  }
}
