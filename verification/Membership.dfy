/**
  The membership list and the forwarding table of cs352proxy.c on values. Each received
  record, handshake, deletion and sweep is one step; the clock and the sockets are
  arguments of the steps.
 */
module Membership {
  import opened Elements
  import opened Wire

  /** A saved record and, for the proofs only, the socket it came in on. */
  datatype Rec = Rec(node: Node, via: int)
  {
    function RemoteMac(): Mac { node.remote.mac }
  }

  /** The list from its head, the `size` beside it, and the table from truncated MAC addresses to sockets. */
  datatype Net = Net(me: ProxyInfo, recs: seq<Rec>, size: int, fds: map<Key, int>)

  const NONE_SAVED: U32 := 0xFFFF_FFFF

  // ----- MAC addresses

  /** What strlen leaves of a MAC address: the bytes before the first zero. */
  function KeyOf(mac: seq<Byte>): Key {
    if mac == [] || mac[0] == 0 then [] else [mac[0]] + KeyOf(mac[1..])
  }

  predicate ZeroFree(mac: seq<Byte>) {
    forall i :: 0 <= i < |mac| ==> mac[i] != 0
  }

  predicate IsZero(mac: Mac) {
    forall i :: 0 <= i < |mac| ==> mac[i] == 0
  }

  lemma ZeroMac(m: Mac)
    ensures IsZero(m) <==> m == [0, 0, 0, 0, 0, 0]
  {
  }

  /** The key is the whole address exactly when no byte of it is zero. */
  lemma {:induction false} KeyIsMac(mac: seq<Byte>)
    ensures KeyOf(mac) == mac <==> ZeroFree(mac)
  {
    if mac != [] && mac[0] != 0 {
      KeyIsMac(mac[1..]);
      if KeyOf(mac) == mac {
        assert KeyOf(mac[1..]) == mac[1..];
        assert forall i :: 1 <= i < |mac| ==> mac[i] == mac[1..][i - 1];
      }
      if ZeroFree(mac) {
        assert ZeroFree(mac[1..]);
        assert mac == [mac[0]] + mac[1..];
      }
    }
  }

  lemma {:induction false} KeyIsPrefix(mac: seq<Byte>)
    ensures |KeyOf(mac)| <= |mac| && KeyOf(mac) == mac[..|KeyOf(mac)|] && ZeroFree(KeyOf(mac))
    ensures |KeyOf(mac)| < |mac| ==> mac[|KeyOf(mac)|] == 0
  {
    if mac != [] && mac[0] != 0 { KeyIsPrefix(mac[1..]); }
  }

  /** An address without zero bytes shares its key with no other. */
  lemma KeyDecides(m: Mac, n: Mac)
    requires ZeroFree(m)
    ensures KeyOf(m) == KeyOf(n) <==> m == n
  {
    KeyIsMac(m);
    KeyIsPrefix(n);
  }

  /** Up to its first zero byte a MAC decides its key. */
  lemma {:induction false} KeyOfPrefix(m: seq<Byte>, n: seq<Byte>)
    requires |n| == |m| && |KeyOf(m)| < |m|
    requires forall i {:trigger n[i]} :: 0 <= i <= |KeyOf(m)| ==> n[i] == m[i]
    ensures KeyOf(n) == KeyOf(m)
  {
    if m[0] != 0 { KeyOfPrefix(m[1..], n[1..]); }
  }

  lemma LongKeyIsUnique(m: Mac, n: Mac)
    requires |KeyOf(m)| >= 5 && KeyOf(n) == KeyOf(m)
    ensures n == m
  {
    KeyIsPrefix(m);
    KeyIsPrefix(n);
    var k := KeyOf(m);
    if |k| == 5 {
      assert m == m[..5] + [m[5]] && n == n[..5] + [n[5]];
    }
  }

  lemma ShortKeyIsShared(m: Mac) returns (n: Mac)
    requires |KeyOf(m)| < 5
    ensures KeyOf(n) == KeyOf(m) && n != m
  {
    n := m[5 := if m[5] == 0 then 1 else 0];
    KeyOfPrefix(m, n);
    assert n[5] != m[5];
  }

  /** An address shares its key with no other if and only if its first five bytes are not zero. */
  lemma KeyIsUnique(m: Mac)
    ensures |KeyOf(m)| >= 5 <==> forall n: Mac :: KeyOf(n) == KeyOf(m) ==> n == m
  {
    if |KeyOf(m)| >= 5 {
      forall n: Mac | KeyOf(n) == KeyOf(m) ensures n == m { LongKeyIsUnique(m, n); }
    } else {
      var n := ShortKeyIsShared(m);
    }
  }

  // ----- looking through the list

  /** in_member_list: the first record the other way round, by its addresses; |recs| when there is none. */
  function FindRec(recs: seq<Rec>, localIp: U32, remoteIp: U32): (i: nat)
    ensures i <= |recs|
    ensures i < |recs| ==> recs[i].node.local.ip == remoteIp && recs[i].node.remote.ip == localIp
    ensures forall j :: 0 <= j < i ==> !(recs[j].node.local.ip == remoteIp && recs[j].node.remote.ip == localIp)
  {
    if recs == [] || (recs[0].node.local.ip == remoteIp && recs[0].node.remote.ip == localIp) then 0
    else 1 + FindRec(recs[1..], localIp, remoteIp)
  }

  /** The first record of a remote MAC; |recs| when there is none. */
  function FirstOf(recs: seq<Rec>, mac: Mac): (i: nat)
    ensures i <= |recs|
    ensures i < |recs| ==> recs[i].RemoteMac() == mac
    ensures forall j :: 0 <= j < i ==> recs[j].RemoteMac() != mac
  {
    if recs == [] || recs[0].RemoteMac() == mac then 0 else 1 + FirstOf(recs[1..], mac)
  }

  /** get_lowest_saved_distance, as the unsigned number its callers take it for. */
  function Lowest(recs: seq<Rec>, mac: Mac): U32 {
    if recs == [] then NONE_SAVED
    else
      var rest := Lowest(recs[1..], mac);
      if recs[0].RemoteMac() == mac && recs[0].node.linkweight < rest then recs[0].node.linkweight else rest
  }

  /** Starting from -1, which is the largest unsigned number, it is the minimum of the saved weights. */
  lemma {:induction false} LowestIsMinimum(recs: seq<Rec>, mac: Mac)
    ensures forall i :: 0 <= i < |recs| && recs[i].RemoteMac() == mac ==> Lowest(recs, mac) <= recs[i].node.linkweight
    ensures FirstOf(recs, mac) < |recs| ==>
              exists i :: 0 <= i < |recs| && recs[i].RemoteMac() == mac && recs[i].node.linkweight == Lowest(recs, mac)
    ensures FirstOf(recs, mac) == |recs| ==> Lowest(recs, mac) == NONE_SAVED
  {
    if recs != [] {
      LowestIsMinimum(recs[1..], mac);
      if FirstOf(recs[1..], mac) < |recs| - 1 {
        var i :| 0 <= i < |recs| - 1 && recs[1..][i].RemoteMac() == mac
          && recs[1..][i].node.linkweight == Lowest(recs[1..], mac);
        assert recs[i + 1] == recs[1..][i];
      }
      assert forall i :: 1 <= i < |recs| ==> recs[i] == recs[1..][i - 1];
    }
  }

  // ----- the steps

  function Wrap32(x: nat): U32 {
    x % 0x1_0000_0000
  }

  function Push(s: Net, r: Rec): Net {
    s.(recs := [r] + s.recs, size := s.size + 1)
  }

  function Touch(r: Rec, now: U64): Rec {
    r.(node := r.node.(id := now))
  }

  /** add_member_connect for a fresh record that came in on socket fd. */
  function Receive(s: Net, n: Node, fd: int, now: U64): Net {
    var key := KeyOf(n.remote.mac);
    var finder := FindRec(s.recs, n.local.ip, n.remote.ip);
    if key !in s.fds then
      if IsZero(n.remote.mac) || n.remote.mac == s.me.mac then
        if finder < |s.recs| then s.(recs := s.recs[finder := Touch(s.recs[finder], now)]) else s
      else
        Push(s, Rec(n.(linkweight := Wrap32(n.linkweight + 1), id := now), fd)).(fds := s.fds[key := fd])
    else if finder < |s.recs| then s
    else
      var w := Wrap32(n.linkweight + Lowest(s.recs, n.local.mac));
      var t := Push(s, Rec(n.(linkweight := w, id := now), fd));
      if w < Lowest(s.recs, n.remote.mac) then t.(fds := t.fds[key := fd]) else t
  }

  lemma ReceiveKnown(s: Net, n: Node, fd: int, now: U64, w: U32)
    requires KeyOf(n.remote.mac) in s.fds && FindRec(s.recs, n.local.ip, n.remote.ip) == |s.recs|
    requires w == Wrap32(n.linkweight + Lowest(s.recs, n.local.mac))
    ensures Receive(s, n, fd, now)
         == Net(s.me, [Rec(n.(linkweight := w, id := now), fd)] + s.recs, s.size + 1,
                if w < Lowest(s.recs, n.remote.mac) then s.fds[KeyOf(n.remote.mac) := fd] else s.fds)
  {
  }

  lemma ReceiveNew(s: Net, n: Node, fd: int, now: U64)
    requires KeyOf(n.remote.mac) !in s.fds && !IsZero(n.remote.mac) && n.remote.mac != s.me.mac
    ensures Receive(s, n, fd, now)
         == Net(s.me, [Rec(n.(linkweight := Wrap32(n.linkweight + 1), id := now), fd)] + s.recs, s.size + 1,
                s.fds[KeyOf(n.remote.mac) := fd])
  {
  }

  /** What "it was me" does to the list. */
  function Refreshed(recs: seq<Rec>, n: Node, now: U64): seq<Rec> {
    var i := FindRec(recs, n.local.ip, n.remote.ip);
    if i < |recs| then recs[i := Touch(recs[i], now)] else recs
  }

  lemma ReceiveMine(s: Net, n: Node, fd: int, now: U64)
    requires KeyOf(n.remote.mac) !in s.fds && (IsZero(n.remote.mac) || n.remote.mac == s.me.mac)
    ensures Receive(s, n, fd, now) == s.(recs := Refreshed(s.recs, n, now))
  {
  }

  /** Both insertions of the handshake: the peer that sent the packet is one hop away. Its key is made of the source's
      MAC; the record carries the MAC passed here. */
  function Hello(s: Net, source: ProxyInfo, mac: Mac, fd: int, now: U64): Net {
    Push(s, Rec(Node(s.me, source.(mac := mac), 1, now), fd)).(fds := s.fds[KeyOf(source.mac) := fd])
  }

  /** The reply of the handshake ends the list after its head; `size` stays. */
  function Reply(s: Net): Net {
    s.(recs := if s.recs == [] then [] else s.recs[..1])
  }

  // ----- whole packets

  /** Does add_member_connect put this record in front of the list? */
  predicate Pushes(s: Net, n: Node) {
    if KeyOf(n.remote.mac) in s.fds then FindRec(s.recs, n.local.ip, n.remote.ip) == |s.recs|
    else !IsZero(n.remote.mac) && n.remote.mac != s.me.mac
  }

  lemma ReceiveLength(s: Net, n: Node, fd: int, now: U64)
    ensures |Receive(s, n, fd, now).recs| == |s.recs| + if Pushes(s, n) then 1 else 0
  {
  }

  /** What a loop over a linked list can come to: it ends, or it has closed a cycle and goes round for ever. */
  datatype Outcome = Returns(net: Net) | Endless

  /** add_members after a record has been pushed: the `next` it follows leads through the list itself, here from the
      i-th record on. Pushing one of these a second time closes the list to a ring. */
  function Revisit(s: Net, i: nat, fd: int, now: U64): Outcome
    decreases |s.recs| - i
  {
    if i >= |s.recs| then Returns(s)
    else if Pushes(s, s.recs[i].node) then Endless
    else
      ReceiveLength(s, s.recs[i].node, fd, now);
      Revisit(Receive(s, s.recs[i].node, fd, now), i + 1, fd, now)
  }

  /** add_members for the fresh records of a packet. */
  function AddMembers(s: Net, ps: seq<Node>, fd: int, now: U64): Outcome
    decreases |ps|
  {
    if ps == [] then Returns(s)
    else
      var t := Receive(s, ps[0], fd, now);
      if Pushes(s, ps[0]) then Revisit(t, 1, fd, now) else AddMembers(t, ps[1..], fd, now)
  }

  /** TCPHandle for a link-state packet with the records ps. */
  function Handle(s: Net, numNeighbors: U16, source: ProxyInfo, ps: seq<Node>, fd: int, now: U64): Outcome
    requires ps != []
  {
    if KeyOf(source.mac) in s.fds then AddMembers(s, ps, fd, now)
    else if IsZero(ps[0].remote.mac) then AddMembers(Hello(s, source, source.mac, fd, now), ps, fd, now)
    else if numNeighbors == 1 then Returns(Reply(Hello(s, source, ps[0].local.mac, fd, now)))
    else Returns(s)
  }

  function NodesOf(recs: seq<Rec>): (ns: seq<Node>)
    ensures |ns| == |recs|
  {
    seq(|recs|, i requires 0 <= i < |recs| => recs[i].node)
  }

  /** create_link_packet: header and neighbour count go by `size`, the nodes are those of the list. */
  function LinkOf(s: Net, nodeSize: nat): Link
    requires s.size >= 0
  {
    Link(Header(PKT_LINKSTATE, HeaderLength(nodeSize, s.size)), s.size % 0x1_0000, s.me, NodesOf(s.recs))
  }

  /** The reply to a first packet: its length is fixed, its one record the head of the list. */
  function ReplyOf(s: Net): Link
    requires s.recs != []
  {
    Link(Header(PKT_LINKSTATE, 50), s.size % 0x1_0000, s.me, [s.recs[0].node])
  }

  /** delete_members: the first record of the MAC, and the MAC's table entry. */
  function Delete(s: Net, mac: Mac): Net {
    var i := FirstOf(s.recs, mac);
    if i == |s.recs| then s
    else s.(recs := s.recs[..i] + s.recs[i + 1..], size := s.size - 1, fds := s.fds - {KeyOf(mac)})
  }

  predicate Expired(r: Rec, now: U64, timeout: int) {
    now - r.node.id > timeout * 1000
  }

  /** One turn of the loop in removeExpiredMembers, at record r. */
  function Visited(s: Net, r: Rec, now: U64, timeout: int): Net {
    if Expired(r, now, timeout) then Delete(s, r.RemoteMac()) else s
  }

  /** The rest of removeExpiredMembers from the records still to be visited. */
  function SweepFrom(s: Net, rest: seq<Rec>, now: U64, timeout: int): Net
    decreases |rest|
  {
    if rest == [] then s else SweepFrom(Visited(s, rest[0], now, timeout), rest[1..], now, timeout)
  }

  /** removeExpiredMembers. */
  function Sweep(s: Net, now: U64, timeout: int): Net {
    SweepFrom(s, s.recs, now, timeout)
  }
}
