/**
  What proxies make of each other's packets: the advertisement of the membership list, the
  first packets of two proxies that meet, and the reports and timeouts by which a neighbour
  stays a neighbour or ceases to be one.
 */
module Exchanges {
  import opened Elements
  import opened Wire
  import opened Membership
  import opened MembershipRuns
  import opened Expiry
  import opened MemberLoop
  import opened Lives
  import opened Neighbours

  // ----- advertisements

  /** Type, sender, a count of n, and, as far as there are any, the nodes of the records. */
  ghost predicate Reads(r: Link, me: ProxyInfo, n: nat, recs: seq<Rec>) {
    && r.head.kind == 0xABAC && r.source == me && r.numNeighbors == n % 0x1_0000
    && forall i {:trigger r.nodes[i]} :: 0 <= i < |r.nodes| && i < |recs| ==> r.nodes[i] == recs[i].node
  }

  lemma AdvertReads(t: Net, n: nat, nodeSize: nat, b: seq<Byte>)
    requires Carries(b, t, nodeSize) && t.size == n
    ensures LengthField(b) == HeaderLength(nodeSize, n) && Reads(Decode(b), t.me, n, t.recs)
  {
    DecodeEncoded(LinkOf(t, nodeSize), b);
  }

  /** What a receiver reads from the packet made after a run: type, sender, the number of records that are saved or have
      been cut off, and, as far as there are any, the records saved. */
  lemma AdvertSays(me: ProxyInfo, ops: seq<Op>, t: Net, n: nat, nodeSize: nat, b: seq<Byte>)
    requires t == Run(me, ops) && n == |t.recs| + CutOff(me, ops) && Carries(b, t, nodeSize)
    ensures LengthField(b) == HeaderLength(nodeSize, t.size)
    ensures Reads(Decode(b), me, n, t.recs)
  {
    SizeCountsCutOff(me, ops);
    AdvertReads(t, n, nodeSize, b);
  }

  /** What is read from a reply. */
  lemma ReplySays(s: Net, b: seq<Byte>)
    requires s.recs != [] && b == Encode(ReplyOf(s))
    ensures |b| == 54 && LengthField(b) == 50
    ensures var r := Decode(b);
            && r.head.kind == 0xABAC && r.source == s.me && r.numNeighbors == s.size % 0x1_0000
            && r.nodes == [s.recs[0].node]
  {
    LinkRoundTrip(ReplyOf(s), b);
  }

  /** A packet as the receiver has it, when it has been understood. */
  function Sent(l: Link, fd: int, now: U64): Event {
    Packet(l.numNeighbors, l.source, l.nodes, fd, now)
  }

  /** A proxy that does not know the sender takes its advertisement for a first packet, and answers it, if and only if
      the sender's size is one, modulo 2^16; otherwise it does nothing. */
  lemma AdvertAnswered(s: Net, t: Net, nodeSize: nat, fd: int, now: U64)
    requires t.size >= 0 && t.recs != [] && !IsZero(t.recs[0].RemoteMac()) && KeyOf(t.me.mac) !in s.fds
    ensures Occur(s, Sent(LinkOf(t, nodeSize), fd, now))
         == Returns(if t.size % 0x1_0000 == 1 then Reply(Hello(s, t.me, t.recs[0].node.local.mac, fd, now)) else s)
  {
  }

  /** Over runs: exactly if the records it has saved and those it has cut off are one, modulo 2^16. */
  lemma RunAnswered(s: Net, me: ProxyInfo, ops: seq<Op>, t: Net, n: nat, nodeSize: nat, fd: int, now: U64)
    requires t == Run(me, ops) && n == |t.recs| + CutOff(me, ops)
    requires t.recs != [] && !IsZero(t.recs[0].RemoteMac()) && KeyOf(me.mac) !in s.fds
    ensures t.size >= 0 && (Occur(s, Sent(LinkOf(t, nodeSize), fd, now)) == Returns(s) <==> n % 0x1_0000 != 1)
  {
    SizeCountsCutOff(me, ops);
    AdvertAnsweredBy(s, t, n, nodeSize, fd, now);
  }

  lemma AdvertAnsweredBy(s: Net, t: Net, n: nat, nodeSize: nat, fd: int, now: U64)
    requires t.size == n && t.recs != [] && !IsZero(t.recs[0].RemoteMac()) && KeyOf(t.me.mac) !in s.fds
    ensures Occur(s, Sent(LinkOf(t, nodeSize), fd, now)) == Returns(s) <==> n % 0x1_0000 != 1
  {
    AdvertAnswered(s, t, nodeSize, fd, now);
    HelloIsNew(s, t.me, t.recs[0].node.local.mac, fd, now);
  }

  lemma HelloIsNew(s: Net, source: ProxyInfo, mac: Mac, fd: int, now: U64)
    requires KeyOf(source.mac) !in s.fds
    ensures Reply(Hello(s, source, mac, fd, now)) != s
  {
    assert KeyOf(source.mac) in Reply(Hello(s, source, mac, fd, now)).fds;
  }

  // ----- two proxies meet

  /** a connects to b with a record whose MAC has been left as it was; b answers, a takes the answer for a first packet
      and answers too, and b takes that for a report. Then each has the other as its one neighbour. */
  lemma TwoMeet(a: ProxyInfo, b: ProxyInfo, dialled: ProxyInfo, fd: int, gd: int, t0: U64, t1: U64, t2: U64)
    requires !IsZero(dialled.mac) && !IsZero(a.mac) && KeyOf(a.mac) != KeyOf(b.mac)
    ensures var first := Connecting(a, dialled, fd, t0);
            Life(b, [first]) == Returns(OneNeighbour(b, a, fd, t0))
    ensures var second := Sent(ReplyOf(OneNeighbour(b, a, fd, t0)), gd, t1);
            Readable([second]) && Life(a, [second]) == Returns(OneNeighbour(a, b, gd, t1))
    ensures var first, third := Connecting(a, dialled, fd, t0), Sent(ReplyOf(OneNeighbour(a, b, gd, t1)), fd, t2);
            Readable([first, third]) && Life(b, [first, third]) == Returns(OneNeighbour(b, a, fd, t2))
  {
    FirstMeeting(b, a, Node(a, dialled, 1, t0), fd, t0);
    FirstMeeting(a, b, Node(b, a, 1, t0), gd, t1);
    ReportHeard(b, a, fd, t0, 1, Node(a, b, 1, t1), fd, t2);
    LifeNext(b, [Connecting(a, dialled, fd, t0)], Sent(ReplyOf(OneNeighbour(a, b, gd, t1)), fd, t2),
             OneNeighbour(b, a, fd, t0));
    assert [Connecting(a, dialled, fd, t0)] + [Sent(ReplyOf(OneNeighbour(a, b, gd, t1)), fd, t2)]
        == [Connecting(a, dialled, fd, t0), Sent(ReplyOf(OneNeighbour(a, b, gd, t1)), fd, t2)];
  }

  lemma FirstMeeting(me: ProxyInfo, a: ProxyInfo, x: Node, fd: int, now: U64)
    requires !IsZero(x.remote.mac) && x.local == a
    ensures Readable([Packet(1, a, [x], fd, now)])
    ensures Life(me, [Packet(1, a, [x], fd, now)]) == Returns(OneNeighbour(me, a, fd, now))
  {
    FirstPacketAnswered(Start(me), a, x, fd, now);
    LifeNext(me, [], Packet(1, a, [x], fd, now), Start(me));
    assert [] + [Packet(1, a, [x], fd, now)] == [Packet(1, a, [x], fd, now)];
  }

  /** A neighbour reports that this proxy is its neighbour: its record gets the time, and nothing else changes. */
  lemma ReportHeard(me: ProxyInfo, a: ProxyInfo, fd: int, t0: U64, k: U16, n: Node, gd: int, now: U64)
    requires KeyOf(a.mac) != KeyOf(me.mac) && n.local.ip == a.ip && n.remote.ip == me.ip && n.remote.mac == me.mac
    ensures Occur(OneNeighbour(me, a, fd, t0), Packet(k, a, [n], gd, now)) == Returns(OneNeighbour(me, a, fd, now))
  {
    var s := OneNeighbour(me, a, fd, t0);
    assert FindRec(s.recs, n.local.ip, n.remote.ip) == 0;
    assert Receive(s, n, gd, now) == OneNeighbour(me, a, fd, now);
    assert AddMembers(s, [n], gd, now) == Returns(OneNeighbour(me, a, fd, now));
  }

  /** A timeout leaves the neighbour, or leaves nothing. */
  lemma TimeoutHits(me: ProxyInfo, a: ProxyInfo, fd: int, t0: U64, timeout: int, now: U64)
    ensures Occur(OneNeighbour(me, a, fd, t0), Timeout(timeout, now))
         == Returns(if now - t0 <= timeout * 1000 then OneNeighbour(me, a, fd, t0) else Start(me))
  {
    var s := OneNeighbour(me, a, fd, t0);
    var t := Visited(s, s.recs[0], now, timeout);
    assert s.recs[1..] == [] && SweepFrom(s, s.recs, now, timeout) == SweepFrom(t, [], now, timeout);
    if now - t0 > timeout * 1000 {
      assert s.recs[..0] + s.recs[1..] == [] && s.fds - {KeyOf(a.mac)} == map[];
    }
  }

  // ----- for ever

  /** The neighbour a reports this proxy, in an advertisement or a reply. */
  predicate Heard(me: ProxyInfo, a: ProxyInfo, e: Event) {
    e.Packet? && e.source.mac == a.mac && |e.ps| == 1
    && e.ps[0].local.ip == a.ip && e.ps[0].remote.ip == me.ip && e.ps[0].remote.mac == me.mac
  }

  /** When it has been heard last. */
  function LastHeard(events: seq<Event>, t0: U64): U64 {
    if events == [] then t0
    else if events[|events| - 1].Packet? then events[|events| - 1].now
    else LastHeard(events[..|events| - 1], t0)
  }

  /** Nothing but reports of the neighbour, and timeouts that come soon enough after them. */
  predicate InTime(me: ProxyInfo, a: ProxyInfo, events: seq<Event>, t0: U64) {
    events != [] ==>
      var pre, e := events[..|events| - 1], events[|events| - 1];
      InTime(me, a, pre, t0)
      && if e.Timeout? then e.now - LastHeard(pre, t0) <= e.timeout * 1000 else Heard(me, a, e)
  }

  /** Two proxies that go on hearing of each other in time stay neighbours. */
  lemma {:induction false} StaysNeighbour(me: ProxyInfo, a: ProxyInfo, fd: int, t0: U64, pre: seq<Event>,
                                          events: seq<Event>)
    requires Readable(pre) && Life(me, pre) == Returns(OneNeighbour(me, a, fd, t0)) && KeyOf(a.mac) != KeyOf(me.mac)
    requires InTime(me, a, events, t0) && Readable(pre + events)
    ensures Life(me, pre + events) == Returns(OneNeighbour(me, a, fd, LastHeard(events, t0)))
    decreases |events|
  {
    if events == [] {
      assert pre + events == pre;
    } else {
      var rest, e := events[..|events| - 1], events[|events| - 1];
      var s := OneNeighbour(me, a, fd, LastHeard(rest, t0));
      assert pre + events == pre + rest + [e];
      assert Readable(pre + rest) && e in pre + events;
      StaysNeighbour(me, a, fd, t0, pre, rest);
      LifeNext(me, pre + rest, e, s);
      StaysByEvent(me, a, fd, LastHeard(rest, t0), e);
    }
  }

  lemma StaysByEvent(me: ProxyInfo, a: ProxyInfo, fd: int, t: U64, e: Event)
    requires KeyOf(a.mac) != KeyOf(me.mac) && e.Readable()
    requires if e.Timeout? then e.now - t <= e.timeout * 1000 else Heard(me, a, e)
    ensures Occur(OneNeighbour(me, a, fd, t), e) == Returns(OneNeighbour(me, a, fd, if e.Packet? then e.now else t))
  {
    match e {
      case Timeout(timeout, now) => TimeoutHits(me, a, fd, t, timeout, now);
      case Packet(k, source, ps, gd, now) =>
        ReportHeard(me, a, fd, t, k, ps[0], gd, now);
        assert ps == [ps[0]];
    }
  }

  // ----- any number of neighbours

  /** Among neighbours, a packet of a known one that reports nobody else renews exactly the records it has the other way
      round, and changes nothing else. */
  lemma ReportRenews(me: ProxyInfo, events: seq<Event>, e: Event, i: nat)
    requires Readable(events) && ProperLife(me, events) && AddressedLife(me, events) && Life(me, events).Returns?
    requires e.Packet? && e.Readable() && Addressed(Life(me, events).net, e) && !Reports(me, e)
    requires KeyOf(e.source.mac) in Life(me, events).net.fds && i < |Life(me, events).net.recs|
    ensures Readable(events + [e]) && Life(me, events + [e]).Returns?
    ensures ProperLife(me, events + [e]) && AddressedLife(me, events + [e])
    ensures var s, t := Life(me, events).net, Life(me, events + [e]).net;
            var heard := if Renewed(s, e, i) then e.now else s.recs[i].node.id;
            && |t.recs| == |s.recs| && t.fds == s.fds && t.recs[i] == s.recs[i].(node := s.recs[i].node.(id := heard))
  {
    var s := Life(me, events).net;
    LivesHaveNeighbours(me, events);
    ForeignDecides(s, e.ps);
    PacketRenews(s, e.ps, e.fd, e.now, i);
    LifeNext(me, events, e, s);
    ProperNext(me, events, e);
    AddressedNext(me, events, e);
    forall p | p in e.ps ensures KeyOf(p.remote.mac) !in s.fds {
      assert !Foreign(me, p);
      ForeignMacsOnly(s, p.remote.mac);
    }
  }

  /** The packet has the i-th record the other way round. */
  ghost predicate Renewed(s: Net, e: Event, i: nat) {
    e.Packet? && exists p :: p in e.ps && FindRec(s.recs, p.local.ip, p.remote.ip) == i
  }

  lemma SameKeySameIndex(s: Net, i: nat, j: nat)
    requires Agree(s) && OnlyNeighbours(s) && i < |s.recs| && j < |s.recs|
    requires KeyOf(s.recs[i].RemoteMac()) == KeyOf(s.recs[j].RemoteMac())
    ensures i == j
  {
    NeighbourIsWhole(s, i);
    KeyDecides(s.recs[i].RemoteMac(), s.recs[j].RemoteMac());
  }

  lemma RecordByAge(s: Net, i: nat, timeout: int, now: U64)
    requires OnlyNeighbours(s) && i < |s.recs|
    ensures s.recs[i] in Sweep(s, now, timeout).recs <==> now - s.recs[i].node.id <= timeout * 1000
  {
    SweepByAge(s, s.recs[i], now, timeout);
    assert s.recs[i] in s.recs;
  }

  lemma OnlyHolder(s: Net, i: nat, r: Rec)
    requires Agree(s) && OnlyNeighbours(s) && i < |s.recs| && r in s.recs
    requires KeyOf(r.RemoteMac()) == KeyOf(s.recs[i].RemoteMac())
    ensures r == s.recs[i]
  {
    var j :| 0 <= j < |s.recs| && s.recs[j] == r;
    SameKeySameIndex(s, i, j);
  }

  lemma SocketByAge(s: Net, i: nat, timeout: int, now: U64)
    requires Agree(s) && OnlyNeighbours(s) && i < |s.recs|
    ensures KeyOf(s.recs[i].RemoteMac()) in Sweep(s, now, timeout).fds <==> now - s.recs[i].node.id <= timeout * 1000
  {
    var key := KeyOf(s.recs[i].RemoteMac());
    forall r | r in s.recs && KeyOf(r.RemoteMac()) == key ensures r == s.recs[i] { OnlyHolder(s, i, r); }
    HolderDecides(s, i, timeout, now);
  }

  lemma HolderDecides(s: Net, i: nat, timeout: int, now: U64)
    requires i < |s.recs| && KeyOf(s.recs[i].RemoteMac()) in s.fds
    requires forall r :: r in s.recs && KeyOf(r.RemoteMac()) == KeyOf(s.recs[i].RemoteMac()) ==> r == s.recs[i]
    ensures KeyOf(s.recs[i].RemoteMac()) in Sweep(s, now, timeout).fds <==> now - s.recs[i].node.id <= timeout * 1000
  {
    KeysByAge(s, KeyOf(s.recs[i].RemoteMac()), now, timeout);
    assert s.recs[i] in s.recs;
  }

  /** The record is there, and the socket of its MAC. */
  predicate Stays(u: Net, r: Rec) {
    r in u.recs && KeyOf(r.RemoteMac()) in u.fds
  }

  /** Neither is. */
  predicate Gone(u: Net, r: Rec) {
    r !in u.recs && KeyOf(r.RemoteMac()) !in u.fds
  }

  /** Among neighbours, a timeout leaves a neighbour its record and its socket if it is in time, and neither if not. */
  lemma TimeoutDecides(me: ProxyInfo, events: seq<Event>, timeout: int, now: U64, i: nat)
    requires Readable(events) && ProperLife(me, events) && AddressedLife(me, events) && Life(me, events).Returns?
    requires i < |Life(me, events).net.recs|
    ensures Readable(events + [Timeout(timeout, now)]) && Life(me, events + [Timeout(timeout, now)]).Returns?
    ensures var r, u := Life(me, events).net.recs[i], Life(me, events + [Timeout(timeout, now)]).net;
            if now - r.node.id <= timeout * 1000 then Stays(u, r) else Gone(u, r)
  {
    LivesHaveNeighbours(me, events);
    LifeNext(me, events, Timeout(timeout, now), Life(me, events).net);
    RecordByAge(Life(me, events).net, i, timeout, now);
    SocketByAge(Life(me, events).net, i, timeout, now);
  }

  /** The keep-alive: after a packet that has its record the other way round, a neighbour stays through a timeout if and
      only if that comes no later than the timeout's seconds after it; without one, after what its record says. */
  lemma KeepAlive(me: ProxyInfo, events: seq<Event>, e: Event, timeout: int, now: U64, i: nat)
    requires Readable(events) && ProperLife(me, events) && AddressedLife(me, events) && Life(me, events).Returns?
    requires e.Packet? && e.Readable() && Addressed(Life(me, events).net, e) && !Reports(me, e)
    requires KeyOf(e.source.mac) in Life(me, events).net.fds && i < |Life(me, events).net.recs|
    ensures Readable(events + [e] + [Timeout(timeout, now)])
    ensures Life(me, events + [e] + [Timeout(timeout, now)]).Returns?
    ensures var s, u := Life(me, events).net, Life(me, events + [e] + [Timeout(timeout, now)]).net;
            var heard := if Renewed(s, e, i) then e.now else s.recs[i].node.id;
            var r := s.recs[i].(node := s.recs[i].node.(id := heard));
            if now - heard <= timeout * 1000 then Stays(u, r) else Gone(u, r)
  {
    ReportRenews(me, events, e, i);
    TimeoutDecides(me, events + [e], timeout, now, i);
  }
}
