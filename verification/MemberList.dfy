/**
  The membership list of cs352proxy.c: the struct with its head pointer and `size`, the
  walks over it, and the ways records enter and leave it.
 */
module MemberList {
  import opened Arith
  import opened Elements
  import opened Wire
  import opened Packets
  import opened Membership

  // ----- the comparisons of helper.c

  /** comp_mac_addrs. */
  method CompMacAddrs(mac1: Mac, mac2: Mac) returns (r: int)
    ensures r == if mac1 == mac2 then 0 else -1
  {
    for i := 0 to 6
      invariant forall j :: 0 <= j < i ==> mac1[j] == mac2[j]
    {
      if mac1[i] != mac2[i] { return -1; }
    }
    return 0;
  }

  /** comp_mac_zero: zero is its answer for a MAC that is not. */
  method CompMacZero(mac: Mac) returns (r: int)
    ensures r == if IsZero(mac) then -1 else 0
  {
    for i := 0 to 6
      invariant forall j :: 0 <= j < i ==> mac[j] == 0
    {
      if mac[i] != 0 { return 0; }
    }
    return -1;
  }

  /** An int taken for an unsigned, as in a comparison with one, and the way back. */
  function ToUnsigned(x: int): U32 {
    x % 0x1_0000_0000
  }

  function ToSigned(x: U32): (r: int)
    ensures ToUnsigned(r) == x && -0x8000_0000 <= r < 0x8000_0000
  {
    if x < 0x8000_0000 then x else x - 0x1_0000_0000
  }

  // ----- the list

  /** The nodes from head on, all different and ended by null, hold these records. */
  ghost predicate Records(head: LinkNode?, ns: seq<LinkNode>, recs: seq<Rec>)
    reads set n | n in ns
  {
    && Nodes(head, ns, null) && NoDup(ns) && |ns| == |recs|
    && forall i {:trigger ns[i].Value()} {:trigger recs[i]} :: 0 <= i < |ns| ==> ns[i].Value() == recs[i].node
  }

  class MemberList {
    var head: LinkNode?
    var size: int
    ghost var ns: seq<LinkNode>
    ghost var recs: seq<Rec>

    /** The list is acyclic, and `size` never falls short of its length. */
    ghost predicate Valid()
      reads this, set n | n in ns
    {
      Records(head, ns, recs) && size >= |recs|
    }

    constructor ()
      ensures Valid() && recs == [] && size == 0 && ns == []
    {
      head, size, ns, recs := null, 0, [], [];
    }

    /** in_member_list. */
    method InList(local: ProxyInfo, remote: ProxyInfo) returns (p: LinkNode?, ghost i: nat)
      requires Valid()
      ensures i == FindRec(recs, local.ip, remote.ip)
      ensures p == var k := FindRec(recs, local.ip, remote.ip); if k < |ns| then ns[k] else null
    {
      p, i := head, 0;
      while p != null
        invariant i <= |ns| && p == (if i < |ns| then ns[i] else null)
        invariant forall j {:trigger recs[j]} :: 0 <= j < i ==>
                    !(recs[j].node.local.ip == remote.ip && recs[j].node.remote.ip == local.ip)
        decreases |ns| - i
      {
        assert ns[i].Value() == recs[i].node;
        if p.local.ip == remote.ip && p.remote.ip == local.ip { break; }
        assert ns[i].next == if i + 1 < |ns| then ns[i + 1] else null;
        p, i := p.next, i + 1;
      }
    }

    /** get_lowest_saved_distance: the int it returns is the unsigned minimum. */
    method GetLowest(mac: Mac) returns (dist: int)
      requires Valid()
      ensures ToUnsigned(dist) == Lowest(recs, mac)
    {
      var p := head;
      ghost var i := 0;
      dist := -1;
      assert recs[0..] == recs;
      while p != null
        invariant 0 <= i <= |ns| && p == (if i < |ns| then ns[i] else null)
        invariant Lowest(recs, mac) == Min(ToUnsigned(dist), Lowest(recs[i..], mac))
        decreases |ns| - i
      {
        assert ns[i].Value() == recs[i].node && recs[i..][0] == recs[i] && recs[i..][1..] == recs[i + 1..];
        var same := CompMacAddrs(p.remote.mac, mac);
        if same == 0 && ToUnsigned(dist) > p.linkweight { dist := ToSigned(p.linkweight); }
        assert ns[i].next == if i + 1 < |ns| then ns[i + 1] else null;
        p, i := p.next, i + 1;
      }
    }

    /** The search in delete_members: the first record of the MAC and the one before it. */
    method FindFirst(mac: Mac) returns (curr: LinkNode?, prev: LinkNode?, ghost i: nat)
      requires Valid()
      ensures i == FirstOf(recs, mac)
      ensures curr == var k := FirstOf(recs, mac); if k < |ns| then ns[k] else null
      ensures prev == var k := FirstOf(recs, mac); if k == 0 then null else ns[k - 1]
    {
      curr, prev, i := head, null, 0;
      while curr != null
        invariant i <= |ns| && curr == (if i < |ns| then ns[i] else null)
        invariant prev == if i == 0 then null else ns[i - 1]
        invariant forall j {:trigger recs[j]} :: 0 <= j < i ==> recs[j].RemoteMac() != mac
        decreases |ns| - i
      {
        assert ns[i].Value() == recs[i].node;
        var same := CompMacAddrs(curr.remote.mac, mac);
        if same == 0 { break; }
        assert ns[i].next == if i + 1 < |ns| then ns[i + 1] else null;
        curr, prev, i := curr.next, curr, i + 1;
      }
    }

    /** The unlinking in delete_members. */
    method Unlink(curr: LinkNode, prev: LinkNode?, ghost i: nat)
      requires Valid() && i < |ns| && curr == ns[i] && prev == if i == 0 then null else ns[i - 1]
      modifies this, (if prev == null then {} else {prev})`next
      ensures Valid() && ns == old(ns[..i] + ns[i + 1..]) && recs == old(recs[..i] + recs[i + 1..])
      ensures size == old(size) - 1
    {
      ghost var ns', recs' := ns[..i] + ns[i + 1..], recs[..i] + recs[i + 1..];
      if prev == null { head := curr.next; } else { prev.next := curr.next; }
      size := size - 1;
      ns, recs := ns', recs';
    }

    /** From the head, a node that was on the list already, `next` leads back to it. */
    ghost predicate Looped()
      reads this, set n | n in ns
    {
      exists i {:trigger ns[i]} :: 0 <= i < |ns| && head == ns[i] && Nodes(head, [ns[i]] + ns[..i], head)
    }

    /** A record becomes the head: a fresh one of a list that is longer by it, a listed one of a ring. */
    method Push(p: LinkNode, weight: U32, now: U64, ghost via: int)
      requires Valid()
      modifies this, p`next, p`linkweight, p`id
      ensures size == old(size) + 1
      ensures p !in old(ns) ==> Valid() && ns == [p] + old(ns)
      ensures p !in old(ns) ==> recs == [Rec(old(p.Value()).(linkweight := weight, id := now), via)] + old(recs)
      ensures p in old(ns) ==> Looped() && ns == old(ns)
    {
      p.next := head;
      p.linkweight := weight;
      head := p;
      head.id := now;
      size := size + 1;
      if p !in ns {
        ns, recs := [p] + ns, [Rec(p.Value(), via)] + recs;
      } else {
        ghost var i :| 0 <= i < |ns| && ns[i] == p;
        forall j | 0 <= j < i ensures ns[j].next == ns[j + 1] { assert ns[j] != p; }
      }
    }

    /** The list's part of add_member_connect for a MAC that has a socket: the record joins at its distance over its own
        local end; is it nearer than all saved ones of its MAC? */
    method PushKnown(p: LinkNode, now: U64, ghost via: int) returns (nearer: bool)
      requires Valid()
      modifies this, p`next, p`linkweight, p`id
      ensures size == old(size) + 1
      ensures var n := old(p.Value()); var w := Wrap32(n.linkweight + Lowest(old(recs), n.local.mac));
              && nearer == (w < Lowest(old(recs), n.remote.mac))
              && (p !in old(ns) ==> recs == [Rec(n.(linkweight := w, id := now), via)] + old(recs))
      ensures p !in old(ns) ==> Valid() && ns == [p] + old(ns)
      ensures p in old(ns) ==> Looped() && ns == old(ns)
    {
      var dist := GetLowest(p.local.mac);
      var saveDist := GetLowest(p.remote.mac);
      var weight := Wrap32(p.linkweight + ToUnsigned(dist));
      Push(p, weight, now, via);
      nearer := weight < ToUnsigned(saveDist);
    }

    /** `finder->ID = gettimeid()`. */
    method Refresh(finder: LinkNode, now: U64, ghost i: nat)
      requires Valid() && i < |ns| && finder == ns[i]
      modifies this`recs, finder`id
      ensures Valid() && recs == old(recs[i := Touch(recs[i], now)])
    {
      finder.id := now;
      recs := recs[i := Touch(recs[i], now)];
    }

    /** `list->next = NULL` on the head. */
    method CutAfterHead()
      requires Valid() && head != null
      modifies this`ns, this`recs, head`next
      ensures Valid() && ns == old(ns[..1]) && recs == old(recs[..1])
    {
      head.next := null;
      ns, recs := ns[..1], recs[..1];
    }
  }

  // ----- where no walk ends

  /** From the head, and from any node of c, `next` leads on for ever inside c. */
  ghost predicate Trapped(list: MemberList, c: set<LinkNode>)
    reads list, c
  {
    && list.head in c
    && forall n {:trigger n.next} :: n in c ==> n.next != null && n.next in c
  }

  /** A ring traps every walk from its head, those of in_member_list and get_lowest_saved_distance among them. */
  lemma LoopedIsTrapped(list: MemberList) returns (c: set<LinkNode>)
    requires list.Looped()
    ensures Trapped(list, c) && list.head in c && forall n :: n in c ==> n in list.ns
  {
    var i :| 0 <= i < |list.ns| && list.head == list.ns[i] && Nodes(list.head, [list.ns[i]] + list.ns[..i], list.head);
    var ms := [list.ns[i]] + list.ns[..i];
    c := set n | n in ms;
    forall n | n in c ensures n.next != null && n.next in c {
      var j :| 0 <= j < |ms| && ms[j] == n;
      assert n.next == if j + 1 < |ms| then ms[j + 1] else list.head;
      assert ms[if j + 1 < |ms| then j + 1 else 0] in ms;
    }
  }

  /** Whatever add_members goes on to do there, keep a node or push it, it stays inside: the loop never ends. */
  method StaysTrapped(list: MemberList, p: LinkNode, push: bool, ghost c: set<LinkNode>) returns (next: LinkNode)
    requires Trapped(list, c) && p in c
    modifies list`head, p`next
    ensures Trapped(list, c) && next in c && next == p.next
  {
    if push {
      p.next := list.head;
      list.head := p;
    }
    next := p.next;
  }
}
