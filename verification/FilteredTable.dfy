/**
  The table compiled with HASH_BLOOM: HASH_FIND asks the filter first. Whatever is added
  and deleted, it answers as the table without the filter does.
 */
module FilteredTable {
  import opened Elements
  import opened HashModel
  import opened HashTable
  import opened Bloom

  class FilteredTable {
    const table: HashTable
    var bloom: Bloom

    ghost predicate Valid()
      reads this, table, table.buckets, table.st.Nodes(), bloom, bloom.bv
    {
      && table.Valid() && bloom.Valid()
      && forall e {:trigger e in table.st.Items()} :: e in table.st.Items() ==> table.hash(e.key) in bloom.added
    }

    constructor (hash: HashFcn, nbits: nat)
      ensures Valid() && table.st == NoTable && table.hash == hash && bloom.nbits == nbits
      ensures fresh(table) && fresh(table.buckets) && fresh(bloom) && fresh(bloom.bv)
    {
      table := new HashTable(hash);
      bloom := new Bloom(nbits);
    }

    /** HASH_FIND: a miss in the filter is a miss in the table. */
    method Find(key: Key) returns (out: Element?)
      requires Valid()
      ensures out == HashModel.Find(table.hash, table.st, key)
    {
      out := null;
      if table.head != null {
        var hashv := table.hash(key);
        var maybe := bloom.Test(hashv);
        if maybe {
          out := table.Find(key);
        } else {
          FoundIsItem(table.hash, table.st, key);
          assert hashv !in bloom.added;
        }
      }
    }

    /** HASH_ADD_KEYPTR; the first item brings a new table and an empty filter. */
    method Add(e: Element)
      requires Valid() && e !in table.st.Items()
      modifies this, bloom, bloom.bv
      modifies table, table.buckets, e`next, e`prev, e`hashv, e`hhNext, e`hhPrev
      modifies table.st.Nodes()`next, table.st.Nodes()`hhNext, table.st.Nodes()`hhPrev
      ensures Valid() && table.st == HashModel.Add(table.hash, old(table.st), e)
      ensures bloom.nbits == old(bloom.nbits)
      ensures bloom.added == (if old(table.st).NoTable? then {} else old(bloom.added)) + {table.hash(e.key)}
    {
      AddKeeps(table.hash, table.st, e);
      EnsureFilter();
      table.Add(e);
      Mark(table.hash(e.key), e);
    }

    /** The filter that HASH_MAKE_TABLE makes. */
    method EnsureFilter()
      requires Valid()
      modifies this
      ensures Valid() && bloom.nbits == old(bloom.nbits)
      ensures bloom.added == if table.st.NoTable? then {} else old(bloom.added)
      ensures (bloom == old(bloom) && bloom.bv == old(bloom.bv)) || (fresh(bloom) && fresh(bloom.bv))
    {
      if table.head == null { bloom := new Bloom(bloom.nbits); }
    }

    /** HASH_BLOOM_ADD for the item that has just joined. */
    method Mark(hashv: nat, ghost e: Element)
      requires table.Valid() && bloom.Valid() && hashv == table.hash(e.key)
      requires forall x {:trigger x in table.st.Items()} :: x in table.st.Items() ==>
                 x == e || table.hash(x.key) in bloom.added
      modifies bloom, bloom.bv
      ensures Valid() && bloom.added == old(bloom.added) + {hashv}
    {
      bloom.Add(hashv);
    }

    /** HASH_DELETE: the filter keeps the bits of what leaves. */
    method Delete(del: Element)
      requires Valid() && del in table.st.Items()
      modifies table, table.buckets
      modifies table.st.Nodes()`next, table.st.Nodes()`prev, table.st.Nodes()`hhNext, table.st.Nodes()`hhPrev
      ensures Valid() && table.st == HashModel.Delete(table.hash, old(table.st), del)
      ensures bloom == old(bloom) && bloom.added == old(bloom.added)
    {
      table.Delete(del);
      forall e | e in table.st.Items() ensures table.hash(e.key) in bloom.added {
        assert e in table.st.Nodes();
        assert e in old(table.st).Items();
      }
    }
  }
}
