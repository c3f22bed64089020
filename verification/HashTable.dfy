/**
  The table of uthash.h as its macros work on it: the head pointer of the user and the
  UT_hash_table behind it, with every pointer and counter updated in place. The ghost
  field `st` is the table's meaning; each method is proved against the function of
  HashModel that says what the macro computes.
 */
module HashTable {
  import opened Arith
  import opened Elements
  import opened Lists
  import opened HashModel
  import opened Buckets
  import opened Expansion
  import opened Linking
  import opened Fsck
  import ListSort
  import MergeSort

  class HashTable {
    const hash: HashFcn

    var head: Element?
    var tail: Element?
    var buckets: array<Bucket>
    var numBuckets: nat
    var log2NumBuckets: nat
    var numItems: nat
    var idealChainMaxlen: nat
    var nonidealItems: nat
    var ineffExpands: nat
    var noexpand: nat

    ghost var st: State

    ghost predicate Counters()
      reads this
    {
      st.Table? ==>
        && numItems == |st.items|
        && log2NumBuckets == st.log2 && numBuckets == Pow2(st.log2)
        && idealChainMaxlen == st.ideal && nonidealItems == st.nonideal && ineffExpands == st.ineff
        && noexpand == (if st.noexpand then 1 else 0)
    }

    ghost predicate Valid()
      reads this, buckets, st.Nodes()
    {
      Structure(hash, head, tail, buckets, st) && Counters()
    }

    /** What the fields of a table in use stand for. */
    lemma Figures()
      requires Valid() && head != null
      ensures st.Table? && numItems == |st.items| > 0 && head == st.items[0] && tail == st.items[numItems - 1]
      ensures buckets.Length == numBuckets == |st.chains| == |st.mults| == Pow2(log2NumBuckets)
      ensures forall b :: 0 <= b < numBuckets ==> buckets[b].count == |st.chains[b]|
      ensures forall b :: 0 <= b < numBuckets ==> buckets[b].expandMult == st.mults[b]
      ensures idealChainMaxlen == st.ideal && nonidealItems == st.nonideal
      ensures ineffExpands == st.ineff && (noexpand == 1 <==> st.noexpand) && (noexpand == 0 <==> !st.noexpand)
    {
      forall b | 0 <= b < |st.chains| ensures buckets[b].count == |st.chains[b]| {
        assert Holds(buckets[b], st.chains[b]);
      }
    }

    constructor (hash: HashFcn)
      ensures Valid() && st == NoTable && this.hash == hash && fresh(buckets)
    {
      this.hash := hash;
      head, tail := null, null;
      buckets := new Bucket[0];
      numBuckets, log2NumBuckets, numItems := 0, 0, 0;
      idealChainMaxlen, nonidealItems, ineffExpands, noexpand := 0, 0, 0, 0;
      st := NoTable;
    }

    /** HASH_FIND. */
    method Find(key: Key) returns (out: Element?)
      requires Valid()
      ensures out == HashModel.Find(hash, st, key)
    {
      out := null;
      if head != null {
        var hashv := hash(key);
        var bkt := BitAnd(hashv, numBuckets - 1);
        MaskIsLow(hashv, st.log2);
        assert Holds(buckets[bkt], st.chains[bkt]);
        out := FindInBucket(buckets[bkt], key, st.chains[bkt]);
      }
    }

    /** HASH_EXPAND_BUCKETS. */
    method ExpandBuckets()
      requires Valid() && st.Table?
      modifies this, st.Nodes()`hhNext, st.Nodes()`hhPrev
      ensures Valid() && st == Expand(hash, old(st)) && fresh(buckets)
      ensures head == old(head)
    {
      ghost var r := ExpandParts(hash, st);
      IdealIsCeil(numItems, log2NumBuckets);
      var ideal := Shr(numItems, log2NumBuckets + 1) + if BitAnd(numItems, 2 * numBuckets - 1) != 0 then 1 else 0;
      var newBuckets, nonideal := Rebuild(hash, buckets, log2NumBuckets, ideal, head, tail, st, r);
      TakeBuckets(newBuckets, ideal, nonideal, r);
    }

    /** The end of HASH_EXPAND_BUCKETS: the table switches to the new buckets and decides whether to go on expanding. */
    method TakeBuckets(newBuckets: array<Bucket>, ideal: nat, nonideal: nat, ghost r: State)
      requires st.Table? && Counters() && Structure(hash, head, tail, newBuckets, r)
      requires r.Table? && r.items == st.items && r.log2 == st.log2 + 1 && r.ideal == ideal && r.nonideal == nonideal
      requires r.ineff == if r.nonideal > |st.items| / 2 then st.ineff + 1 else 0
      requires r.noexpand <==> st.noexpand || r.ineff > 1
      modifies this
      ensures Valid() && st == r && buckets == newBuckets && head == old(head)
    {
      ShrOne(numItems);
      SetStatistics(ideal, nonideal, if nonideal > Shr(numItems, 1) then ineffExpands + 1 else 0);
      buckets, numBuckets, log2NumBuckets, st := newBuckets, 2 * numBuckets, log2NumBuckets + 1, r;
    }

    /** Two ineffective expansions in a row are the last. */
    method SetStatistics(ideal: nat, nonideal: nat, ineff: nat)
      modifies `idealChainMaxlen, `nonidealItems, `ineffExpands, `noexpand
      ensures idealChainMaxlen == ideal && nonidealItems == nonideal && ineffExpands == ineff
      ensures noexpand == if ineff > 1 then 1 else old(noexpand)
    {
      idealChainMaxlen, nonidealItems, ineffExpands := ideal, nonideal, ineff;
      if ineff > 1 { noexpand := 1; }
    }

    /** HASH_MAKE_TABLE. */
    method MakeTable()
      requires head == null
      modifies this
      ensures Counters() && st == HashModel.MakeTable() && Ready(hash, head, tail, buckets, st)
      ensures head == null && fresh(buckets)
    {
      buckets := new Bucket[Pow2(INITIAL_LOG2)](_ => EMPTY_BUCKET);
      numBuckets, log2NumBuckets, numItems := Pow2(INITIAL_LOG2), INITIAL_LOG2, 0;
      idealChainMaxlen, nonidealItems, ineffExpands, noexpand := 0, 0, 0, 0;
      st := HashModel.MakeTable();
      EmptyTableIsReady(hash, tail, buckets);
    }

    /** A null head means that there is no table yet. */
    method EnsureTable()
      requires Valid()
      modifies this
      ensures Counters() && st == TableFor(old(st)) && Ready(hash, head, tail, buckets, st)
      ensures buckets == old(buckets) || fresh(buckets)
    {
      if head == null { MakeTable(); }
    }

    /** HASH_ADD_KEYPTR up to the expansion test, into a table that is there; r is the result. */
    method Link(e: Element, ghost r: State) returns (bkt: nat)
      requires st.Table? && Counters() && Ready(hash, head, tail, buckets, st) && e !in st.items
      requires Inv(hash, r) && r == Inserted(hash, st, e)
      modifies this, buckets, e`next, e`prev, e`hashv, e`hhNext, e`hhPrev, st.Nodes()`next, st.Nodes()`hhPrev
      ensures Valid() && st == r && bkt == BucketOf(hash, e, r.log2) && buckets == old(buckets)
    {
      var head';
      head', bkt := InsertNode(hash, head, tail, buckets, e, st, r);
      SetOrder(head', e, numItems + 1, r);
    }

    /** The table's own fields after an item has joined or left. */
    method SetOrder(head': Element?, tail': Element?, numItems': nat, ghost r: State)
      requires Counters() && Structure(hash, head', tail', buckets, r)
      requires r.Table? && st.Table? && r == st.(items := r.items, chains := r.chains) && numItems' == |r.items|
      modifies this
      ensures Valid() && st == r && buckets == old(buckets)
    {
      head, tail, numItems, st := head', tail', numItems', r;
    }

    /** HASH_ADD_KEYPTR up to the expansion test. */
    method Insert(e: Element) returns (bkt: nat)
      requires Valid() && e !in st.Items()
      modifies this, buckets, e`next, e`prev, e`hashv, e`hhNext, e`hhPrev, st.Nodes()`next, st.Nodes()`hhPrev
      ensures Valid() && st == HashModel.Insert(hash, old(st), e) && st.Table?
      ensures bkt == BucketOf(hash, e, st.log2) && (buckets == old(buckets) || fresh(buckets))
    {
      InsertKeeps(hash, st, e);
      ghost var r := HashModel.Insert(hash, st, e);
      EnsureTable();
      bkt := Link(e, r);
    }

    /** HASH_ADD_KEYPTR. */
    method Add(e: Element)
      requires Valid() && e !in st.Items()
      modifies this, buckets, e`next, e`prev, e`hashv, e`hhNext, e`hhPrev
      modifies st.Nodes()`next, st.Nodes()`hhNext, st.Nodes()`hhPrev
      ensures Valid() && st == HashModel.Add(hash, old(st), e)
      ensures buckets == old(buckets) || fresh(buckets)
    {
      var bkt := Insert(e);
      assert Holds(buckets[bkt], st.chains[bkt]);
      if buckets[bkt].count >= (buckets[bkt].expandMult + 1) * CAPACITY_THRESH && noexpand != 1 {
        ExpandBuckets();
      }
    }

    /** Writing an item's payload: the links and the counters are not touched. */
    method SetValue(e: Element, value: int)
      requires Valid() && e in st.Items()
      modifies e`value
      ensures Valid() && e.value == value
    {
      WriteValue(hash, head, tail, buckets, st, e, value);
    }

    /** HASH_DELETE. */
    method Delete(del: Element)
      requires Valid() && del in st.Items()
      modifies this, buckets, st.Nodes()`next, st.Nodes()`prev, st.Nodes()`hhNext, st.Nodes()`hhPrev
      ensures Valid() && st == HashModel.Delete(hash, old(st), del)
      ensures buckets == old(buckets) && st.Nodes() <= old(st.Nodes())
    {
      OnlyItem(head, tail, st.items, del);
      if del.prev == null && del.next == null {
        head := null;
        st := NoTable;
      } else {
        RemoveItem(del);
      }
    }

    /** The other branch of HASH_DELETE: items stay behind. */
    method RemoveItem(del: Element)
      requires Valid() && del in st.Items() && |st.Items()| > 1
      modifies this, buckets, st.Nodes()`next, st.Nodes()`prev, st.Nodes()`hhNext, st.Nodes()`hhPrev
      ensures Valid() && st == HashModel.Delete(hash, old(st), del)
      ensures buckets == old(buckets) && st.Nodes() <= old(st.Nodes())
    {
      DeleteKeeps(hash, st, del);
      DeleteShrinks(hash, st, del);
      ghost var r := HashModel.Delete(hash, st, del);
      var head', tail' := DeleteNode(hash, head, tail, buckets, del, st, r);
      SetOrder(head', tail', numItems - 1, r);
    }

    /** HASH_FSCK: no check in it can fire. */
    method Fsck() returns (ok: bool)
      requires Valid()
      ensures ok
    {
      if head != null { TablesAreSound(hash, head, tail, buckets, st); }
      ok := Check(head, buckets, numItems, st.Items(), if st.Table? then st.chains else []);
    }

    /** HASH_SRT: the application order is sorted; chains and counters stay, and with them every find. */
    method Sort(cmp: (Element, Element) -> int)
      requires Valid()
      modifies this, st.Nodes()`next, st.Nodes()`prev
      ensures Valid() && buckets == old(buckets)
      ensures st == if old(st).NoTable? then NoTable else old(st).(items := MergeSort.Sort(cmp, old(st).items))
    {
      if head != null {
        var head', tail';
        ghost var r;
        head', tail', r := SortNodes(hash, head, tail, buckets, cmp, st);
        SetOrder(head', tail', numItems, r);
      }
    }

    /** HASH_REPLACE: the item that held the key, if any, leaves; the new one joins at the end. */
    method Replace(add: Element) returns (replaced: Element?)
      requires Valid() && add !in st.Items()
      modifies this, buckets, add`next, add`prev, add`hashv, add`hhNext, add`hhPrev
      modifies st.Nodes()`next, st.Nodes()`prev, st.Nodes()`hhNext, st.Nodes()`hhPrev
      ensures Valid() && replaced == HashModel.Find(hash, old(st), add.key)
      ensures replaced == null ==> st == HashModel.Add(hash, old(st), add)
      ensures replaced != null ==> replaced in old(st).Items()
      ensures replaced != null ==> st == HashModel.Add(hash, HashModel.Delete(hash, old(st), replaced), add)
      ensures buckets == old(buckets) || fresh(buckets)
    {
      replaced := Find(add.key);
      if replaced != null {
        FoundIsItem(hash, st, add.key);
        Delete(replaced);
        assert add in st.Items() ==> add in st.Nodes();
      }
      Add(add);
    }
  }

  /** The pointers of a table after its application order has been sorted. */
  method SortNodes(hash: HashFcn, head: Element, tail: Element?, buckets: array<Bucket>, cmp: (Element, Element) -> int,
                   ghost t: State)
    returns (head': Element?, tail': Element?, ghost r: State)
    requires t.Table? && Structure(hash, head, tail, buckets, t)
    modifies Set(t.items)`next, Set(t.items)`prev
    ensures r == t.(items := MergeSort.Sort(cmp, t.items)) && |r.items| == |t.items|
    ensures Structure(hash, head', tail', buckets, r)
  {
    ghost var items, passes, calls;
    head', tail', items, passes, calls := ListSort.HashSort(cmp, head, tail, t.items);
    r := t.(items := items);
    MergeSort.SortPermutes(cmp, t.items, 1);
    Rearranged(hash, t, items);
    forall b | 0 <= b < |t.chains| ensures Holds(buckets[b], t.chains[b]) {
      assert old(Holds(buckets[b], t.chains[b]));
    }
  }

  method WriteValue(ghost hash: HashFcn, ghost head: Element?, ghost tail: Element?, ghost buckets: array<Bucket>,
                    ghost st: State, e: Element, value: int)
    requires Structure(hash, head, tail, buckets, st)
    modifies e`value
    ensures Structure(hash, head, tail, buckets, st) && e.value == value
  {
    e.value := value;
    if st.Table? {
      assert AppOrder(head, tail, st.items);
      forall b | 0 <= b < |st.chains| ensures Holds(buckets[b], st.chains[b]) {
        assert old(Holds(buckets[b], st.chains[b]));
      }
    }
  }

  lemma EmptyTableIsReady(hash: HashFcn, tail: Element?, buckets: array<Bucket>)
    requires buckets.Length == Pow2(INITIAL_LOG2) && forall b :: 0 <= b < buckets.Length ==> buckets[b] == EMPTY_BUCKET
    ensures Ready(hash, null, tail, buckets, HashModel.MakeTable())
  {
    MakeTablePartition(hash);
  }

  /** The test for the last item in HASH_DELETE. */
  lemma OnlyItem(head: Element?, tail: Element?, items: seq<Element>, del: Element)
    requires AppOrder(head, tail, items) && del in items
    ensures del.prev == null && del.next == null <==> |items| == 1
  {
    var k :| 0 <= k < |items| && items[k] == del;
    assert k > 0 ==> items[k].prev == items[k - 1];
    assert k + 1 < |items| ==> items[k].next == items[k + 1];
  }

  lemma FoundIsItem(hash: HashFcn, st: State, key: Key)
    requires Inv(hash, st)
    ensures var x := HashModel.Find(hash, st, key); x != null ==> x in st.Items() && x.key == key
  {
    if st.Table? {
      var b := Low(hash(key), st.log2);
      FindInMeaning(st.chains[b], key);
      assert ChainOf(hash, st.items, st.log2, st.chains[b], b);
    }
  }

  /** The shift-and-mask form of ceil(n / 2b). */
  lemma IdealIsCeil(n: nat, log2: nat)
    ensures Shr(n, log2 + 1) + (if BitAnd(n, 2 * Pow2(log2) - 1) != 0 then 1 else 0) == CeilDiv(n, Pow2(log2 + 1))
    ensures n > 0 ==> CeilDiv(n, Pow2(log2 + 1)) > 0
  {
    ShrIsDiv(n, log2 + 1);
    MaskIsLow(n, log2 + 1);
    LowIsMod(n, log2 + 1);
    CeilDivLeast(n, Pow2(log2 + 1), 0);
  }
}
