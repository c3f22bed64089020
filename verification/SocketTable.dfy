/**
  The forwarding table of cs352proxy.c: `socketfds`, a uthash table from MAC addresses cut
  at their first zero byte to sockets.
 */
module SocketTable {
  import opened Elements
  import opened Wire
  import opened Packets
  import opened Membership
  import opened MemberList
  import opened HashModel
  import opened HashRuns
  import opened HashTable
  import Jenkins

  /** The items are the values of the map, each under its own key. */
  ghost predicate Entries(items: seq<Element>, entries: map<Key, Element>) {
    && (forall e {:trigger e in items} :: e in items ==> e.key in entries && entries[e.key] == e)
    && (forall k {:trigger k in entries} :: k in entries ==> entries[k] in items && entries[k].key == k)
  }

  ghost predicate Sockets(entries: map<Key, Element>, fds: map<Key, int>)
    reads entries.Values`value
  {
    && (forall k {:trigger k in fds} :: k in fds <==> k in entries)
    && (forall k {:trigger k in entries} :: k in entries ==> fds[k] == entries[k].value)
  }

  class SocketTable {
    const table: HashTable
    ghost const depth: nat
    ghost var entries: map<Key, Element>
    ghost var fds: map<Key, int>

    /** The hash table is in order, and its items are the entries. */
    ghost predicate Inner()
      reads this, table, table.buckets, table.st.Nodes(), entries.Values`value
    {
      table.Valid() && Entries(table.st.Items(), entries) && Sockets(entries, fds)
    }

    /** The same; being recursive it is not unfolded, so a caller that only carries the table along is not burdened with
        the whole hash table in each of its proofs. Open and Close lead in and out. */
    ghost predicate Behind(n: nat)
      reads this, Repr(), entries.Values`value
    {
      if n == 0 then Inner() else Behind(n - 1)
    }

    ghost predicate Valid()
      reads this, Repr(), entries.Values`value
    {
      depth > 4 && Behind(depth)
    }

    lemma {:induction false} Open(n: nat)
      requires Behind(n)
      ensures Inner()
    {
      if n > 0 { Open(n - 1); }
    }

    lemma {:induction false} Close(n: nat)
      requires Inner()
      ensures Behind(n)
    {
      if n > 0 { Close(n - 1); }
    }

    ghost function Repr(): set<object>
      reads this, table
    {
      {this, table, table.buckets} + table.st.Nodes()
    }

    /** `socketfds = NULL`, and HASH_JEN as the hash. */
    constructor ()
      ensures Valid() && fds == map[] && fresh(Repr())
      ensures forall k {:trigger table.hash(k)} :: |k| < 0x1_0000_0000 ==> table.hash(k) == Jenkins.Jen(k).h
    {
      table := new HashTable((k: Key) => Jenkins.JenHash(k));
      depth, entries, fds := 5, map[], map[];
      new;
      Close(depth);
    }

    /** find_socketfd. */
    method Find(mac: Mac) returns (s: Element?)
      requires Valid()
      ensures s != null <==> KeyOf(mac) in fds
      ensures s != null ==> Entry(s, KeyOf(mac)) && s.value == fds[KeyOf(mac)]
    {
      Open(depth);
      s := table.Find(KeyOf(mac));
      FindEntry(table.hash, table.st, entries, KeyOf(mac));
    }

    /** s is what a find of the key returns. */
    ghost predicate Entry(s: Element, key: Key)
      reads this
    {
      key in entries && entries[key] == s
    }

    /** addsockfd, which its callers use after a find has missed. */
    method Add(mac: Mac, fd: int)
      requires Valid() && KeyOf(mac) !in fds
      modifies Repr()
      ensures Valid() && fds == old(fds)[KeyOf(mac) := fd]
      ensures forall o {:trigger o in Repr()} :: o in Repr() ==> o in old(Repr()) || fresh(o)
    {
      Open(depth);
      var s := new Element(KeyOf(mac), fd);
      NodesAdded(table.st.Items(), s);
      AddItem(s);
      SetEntries(entries[KeyOf(mac) := s], fds[KeyOf(mac) := fd]);
    }

    /** HASH_ADD_STR; the map follows. */
    method AddItem(s: Element)
      requires Inner() && s.key !in fds
      modifies table, table.buckets, s`next, s`prev, s`hashv, s`hhNext, s`hhPrev
      modifies table.st.Nodes()`next, table.st.Nodes()`hhNext, table.st.Nodes()`hhPrev
      ensures table.Valid() && table.st.Items() == old(table.st.Items()) + [s]
      ensures Entries(table.st.Items(), entries[s.key := s]) && Sockets(entries, fds)
      ensures table.buckets == old(table.buckets) || fresh(table.buckets)
    {
      AddKeeps(table.hash, table.st, s);
      EntryAdded(table.st.Items(), entries, s);
      table.Add(s);
    }

    /** The map after the table has changed. */
    ghost method SetEntries(entries': map<Key, Element>, fds': map<Key, int>)
      requires table.Valid() && Entries(table.st.Items(), entries') && Sockets(entries', fds') && depth > 4
      modifies `entries, `fds
      ensures Valid() && entries == entries' && fds == fds'
    {
      Put(entries', fds');
      Close(depth);
    }

    ghost method Put(entries': map<Key, Element>, fds': map<Key, int>)
      requires table.Valid() && Entries(table.st.Items(), entries') && Sockets(entries', fds')
      modifies `entries, `fds
      ensures Inner() && entries == entries' && fds == fds'
    {
      entries, fds := entries', fds';
      assert table.Valid();
      assert Entries(table.st.Items(), entries);
    }

    /** deletesockfd. */
    method Delete(mac: Mac)
      requires Valid()
      modifies Repr()
      ensures Valid() && fds == old(fds) - {KeyOf(mac)}
      ensures forall o {:trigger o in Repr()} :: o in Repr() ==> o in old(Repr()) || fresh(o)
    {
      var s := Find(mac);
      if s != null {
        Open(depth);
        DeleteItem(s);
        SetEntries(entries - {s.key}, fds - {s.key});
      }
    }

    /** HASH_DEL. */
    method DeleteItem(s: Element)
      requires Inner() && s in table.st.Items()
      modifies table, table.buckets, table.st.Nodes()
      ensures table.Valid() && Entries(table.st.Items(), entries - {s.key}) && Sockets(entries, fds)
      ensures table.st.Nodes() <= old(table.st.Nodes()) && table.buckets == old(table.buckets)
    {
      DeleteKeeps(table.hash, table.st, s);
      EntryRemoved(table.st.Items(), entries, s);
      table.Delete(s);
    }

    /** `pkt_sockfd->sock_fd = fd` on an entry that a find has returned. */
    method SetSocket(s: Element, fd: int, ghost key: Key)
      requires Valid() && key in fds && Entry(s, key)
      modifies Repr()
      ensures Valid() && fds == old(fds)[key := fd] && Repr() == old(Repr())
    {
      Open(depth);
      table.SetValue(s, fd);
      SetEntries(entries, fds[key := fd]);
    }
  }

  /** The table finds what the map holds. */
  lemma FindEntry(hash: HashFcn, st: State, entries: map<Key, Element>, key: Key)
    requires Inv(hash, st) && Entries(st.Items(), entries)
    ensures HashModel.Find(hash, st, key) == if key in entries then entries[key] else null
  {
    EntriesUnique(st.Items(), entries);
    FindAgrees(hash, st, key);
    FindInMeaning(st.Items(), key);
  }

  lemma EntriesUnique(items: seq<Element>, entries: map<Key, Element>)
    requires NoDup(items) && Entries(items, entries)
    ensures UniqueKeys(items)
  {
    forall i, j | 0 <= i < j < |items| ensures items[i].key != items[j].key {
      assert items[i] in items && items[j] in items;
    }
  }

  lemma EntryAdded(items: seq<Element>, entries: map<Key, Element>, s: Element)
    requires Entries(items, entries) && s.key !in entries
    ensures s !in items && Entries(items + [s], entries[s.key := s])
  {
  }

  lemma NodesAdded(items: seq<Element>, s: Element)
    ensures Set(items + [s]) == Set(items) + {s}
  {
  }

  lemma EntryRemoved(items: seq<Element>, entries: map<Key, Element>, s: Element)
    requires NoDup(items) && Entries(items, entries) && s in items
    ensures Entries(Remove(items, s), entries - {s.key})
  {
    var r := Remove(items, s);
    forall e | e in items ensures e in r <==> e != s { RemovedMember(items, s, e); }
    forall e | e in r ensures e in items { RemovedMember(items, s, e); }
  }

  /** Records of the membership list are no part of the table. */
  lemma RecordsOutside(t: SocketTable, list: MemberList, ns: seq<LinkNode>)
    ensures list !in t.Repr() && forall n :: n in ns ==> n !in t.Repr()
  {
    assert forall e :: e in t.table.st.Nodes() ==> e is Element;
  }

  lemma BufferOutside(t: SocketTable, buffer: array<Byte>, host: Host)
    ensures buffer !in t.Repr() && host !in t.Repr()
  {
    assert forall e :: e in t.table.st.Nodes() ==> e is Element;
  }
}
