/**
  How far lives go. In a network where every machine has an address of its own a proxy
  never saves more than its neighbours: the first packet it looks at that has a record of
  another machine is the last. What there is besides are lives with a second machine at one
  address, and on one of them a record loses its socket.
 */
module Neighbours {
  import opened Elements
  import opened Wire
  import opened Membership
  import opened MembershipRuns
  import opened MemberLoop
  import opened Gateways
  import opened Lives

  /** A record with this proxy's address has its MAC, or no MAC yet, as in the packet of a machine that connects. */
  predicate OwnAddress(me: ProxyInfo, p: Node) {
    p.remote.ip == me.ip ==> p.remote.mac == me.mac || IsZero(p.remote.mac)
  }

  /** The records of the packet are looked at. */
  predicate Looked(s: Net, e: Event)
    requires e.Readable()
  {
    e.Packet? && (KeyOf(e.source.mac) in s.fds || IsZero(e.ps[0].remote.mac))
  }

  /** A sender that is to join has an address of its own, and so has every machine in a record that is looked at. */
  ghost predicate Addressed(s: Net, e: Event)
    requires e.Readable()
  {
    && (e.Packet? && KeyOf(e.source.mac) !in s.fds ==> e.source.ip != s.me.ip)
    && (Looked(s, e) ==> forall p :: p in e.ps ==> OwnAddress(s.me, p))
  }

  ghost predicate AddressedLife(me: ProxyInfo, events: seq<Event>)
    requires Readable(events)
  {
    events != [] ==>
      var pre, e := events[..|events| - 1], events[|events| - 1];
      AddressedLife(me, pre) && (Life(me, pre).Returns? ==> Addressed(Life(me, pre).net, e))
  }

  ghost predicate IsNeighbour(s: Net, r: Rec) {
    && r.node.local == s.me && r.node.remote.ip != s.me.ip && r.node.linkweight == 1
    && KeyOf(r.RemoteMac()) in s.fds
  }

  ghost predicate Distinct(recs: seq<Rec>) {
    forall i, j {:trigger recs[i], recs[j]} :: 0 <= i < j < |recs| ==> recs[i].RemoteMac() != recs[j].RemoteMac()
  }

  /** Every record is of a machine one hop away, each has a MAC of its own, and all have sockets. */
  ghost predicate OnlyNeighbours(s: Net) {
    Distinct(s.recs) && forall i {:trigger s.recs[i]} :: 0 <= i < |s.recs| ==> IsNeighbour(s, s.recs[i])
  }

  lemma NeighbourIsWhole(s: Net, i: nat)
    requires Agree(s) && OnlyNeighbours(s) && i < |s.recs|
    ensures ZeroFree(s.recs[i].RemoteMac())
  {
    RecordKeyIsWhole(s.recs, s.recs[i].RemoteMac());
  }

  // ----- reports

  lemma PushedIsElsewhere(s: Net, p: Node)
    requires Agree(s) && Pushes(s, p) && OwnAddress(s.me, p)
    ensures p.remote.ip != s.me.ip
  {
    PushedIsForeign(s, p);
  }

  /** What is pushed has neither the zero MAC nor the proxy's own. */
  lemma PushedIsForeign(s: Net, p: Node)
    requires Agree(s) && Pushes(s, p)
    ensures !IsZero(p.remote.mac) && p.remote.mac != s.me.mac
  {
    ForeignMacsOnly(s, s.me.mac);
    if IsZero(p.remote.mac) { ForeignMacsOnly(s, p.remote.mac); }
  }

  predicate Foreign(me: ProxyInfo, p: Node) {
    !IsZero(p.remote.mac) && p.remote.mac != me.mac
  }

  /** Among neighbours every such record is pushed, whether its MAC is known or not. */
  lemma ForeignIsPushed(s: Net, p: Node)
    requires Agree(s) && OnlyNeighbours(s) && OwnAddress(s.me, p) && Foreign(s.me, p)
    ensures Pushes(s, p)
  {
  }

  lemma ForeignDecides(s: Net, ps: seq<Node>)
    requires Agree(s) && OnlyNeighbours(s) && forall p :: p in ps ==> OwnAddress(s.me, p)
    ensures FirstPushed(s, ps) < |ps| <==> exists p :: p in ps && Foreign(s.me, p)
  {
    var k := FirstPushed(s, ps);
    if k < |ps| {
      PushedIsForeign(s, ps[k]);
      assert ps[k] in ps;
    }
    if p :| p in ps && Foreign(s.me, p) {
      ForeignIsPushed(s, p);
      var i :| 0 <= i < |ps| && ps[i] == p;
    }
  }

  lemma PushedShape(s: Net, p: Node, fd: int, now: U64)
    requires Pushes(s, p)
    ensures var t := Receive(s, p, fd, now);
            && |t.recs| == |s.recs| + 1 && t.recs[1..] == s.recs && t.recs[0].node.remote == p.remote
            && s.fds.Keys <= t.fds.Keys
  {
  }

  lemma NoWayBack(recs: seq<Rec>, localIp: U32, remoteIp: U32)
    requires forall i {:trigger recs[i]} :: 0 <= i < |recs| ==> recs[i].node.remote.ip != localIp
    ensures FindRec(recs, localIp, remoteIp) == |recs|
  {
  }

  /** No record of a neighbour has one the other way round, so with another one in front all would be pushed again. */
  lemma NeighboursRecur(s: Net, p: Node, fd: int, now: U64)
    requires Agree(s) && OnlyNeighbours(s) && s.recs != [] && Pushes(s, p) && OwnAddress(s.me, p)
    ensures Recurs(Receive(s, p, fd, now), 1)
  {
    PushedIsElsewhere(s, p);
    PushedShape(s, p, fd, now);
    FirstRecurs(s, Receive(s, p, fd, now));
  }

  lemma FirstRecurs(s: Net, t: Net)
    requires OnlyNeighbours(s) && s.recs != [] && |t.recs| == |s.recs| + 1 && t.recs[1..] == s.recs
    requires t.recs[0].node.remote.ip != s.me.ip && s.fds.Keys <= t.fds.Keys
    ensures Recurs(t, 1)
  {
    var n := t.recs[1].node;
    assert t.recs[1] == s.recs[0] && KeyOf(n.remote.mac) in s.fds.Keys;
    forall i | 0 <= i < |t.recs| ensures t.recs[i].node.remote.ip != s.me.ip {
      if i > 0 { assert t.recs[i] == s.recs[i - 1]; }
    }
    NoWayBack(t.recs, n.local.ip, n.remote.ip);
    assert Pushes(t, n);
  }

  /** So a packet is the end if and only if it has a record of another machine. */
  lemma ReportNeverEnds(s: Net, ps: seq<Node>, fd: int, now: U64)
    requires Agree(s) && OnlyNeighbours(s) && s.recs != [] && forall p :: p in ps ==> OwnAddress(s.me, p)
    ensures AddMembers(s, ps, fd, now) == Endless <==> exists p :: p in ps && Foreign(s.me, p)
    ensures AddMembers(s, ps, fd, now).Returns? ==> SameButTimes(AddMembers(s, ps, fd, now).net, s)
  {
    AddMembersExact(s, ps, fd, now);
    ForeignDecides(s, ps);
    var k := FirstPushed(s, ps);
    if k < |ps| {
      assert ps[k] in ps;
      NeighboursRecur(s, ps[k], fd, now);
    }
  }

  lemma TimesKeepNeighbours(s: Net, t: Net)
    requires OnlyNeighbours(s) && SameButTimes(t, s)
    ensures OnlyNeighbours(t)
  {
    forall i | 0 <= i < |t.recs| ensures IsNeighbour(t, t.recs[i]) { assert SameBut(t.recs[i], s.recs[i]); }
    forall i, j | 0 <= i < j < |t.recs| ensures t.recs[i].RemoteMac() != t.recs[j].RemoteMac() {
      assert SameBut(t.recs[i], s.recs[i]) && SameBut(t.recs[j], s.recs[j]);
    }
  }

  lemma JoinKeepsNeighbours(s: Net, source: ProxyInfo, fd: int, now: U64)
    requires OnlyNeighbours(s) && KeyOf(source.mac) !in s.fds && source.ip != s.me.ip
    ensures OnlyNeighbours(Hello(s, source, source.mac, fd, now))
  {
    var t := Hello(s, source, source.mac, fd, now);
    forall i | 0 <= i < |t.recs| ensures IsNeighbour(t, t.recs[i]) {
      if i > 0 { assert t.recs[i] == s.recs[i - 1] && IsNeighbour(s, s.recs[i - 1]); }
    }
    forall i, j | 0 <= i < j < |t.recs| ensures t.recs[i].RemoteMac() != t.recs[j].RemoteMac() {
      assert t.recs[j] == s.recs[j - 1] && IsNeighbour(s, s.recs[j - 1]);
      assert i > 0 ==> t.recs[i] == s.recs[i - 1];
    }
  }

  lemma DroppedAt(recs: seq<Rec>, f: nat, i: nat)
    requires f < |recs| && i < |recs| - 1
    ensures (recs[..f] + recs[f + 1..])[i] == recs[if i < f then i else i + 1]
  {
  }

  lemma DistinctDropped(recs: seq<Rec>, f: nat)
    requires f < |recs| && Distinct(recs)
    ensures Distinct(recs[..f] + recs[f + 1..])
  {
    var t := recs[..f] + recs[f + 1..];
    forall i, j | 0 <= i < j < |t| ensures t[i].RemoteMac() != t[j].RemoteMac() {
      DroppedAt(recs, f, i);
      DroppedAt(recs, f, j);
    }
  }

  /** A neighbour with another MAC stays one. */
  lemma NeighbourStays(s: Net, k: nat, mac: Mac)
    requires Agree(s) && OnlyNeighbours(s) && k < |s.recs| && s.recs[k].RemoteMac() != mac
    ensures KeyOf(s.recs[k].RemoteMac()) in s.fds - {KeyOf(mac)}
  {
    NeighbourIsWhole(s, k);
    KeyDecides(s.recs[k].RemoteMac(), mac);
    assert IsNeighbour(s, s.recs[k]);
  }

  /** t is s without its f-th record and that one's key. */
  ghost predicate Dropped(s: Net, f: nat, t: Net)
    requires f < |s.recs|
  {
    && t.me == s.me && t.recs == s.recs[..f] + s.recs[f + 1..]
    && t.fds == s.fds - {KeyOf(s.recs[f].RemoteMac())}
  }

  lemma NeighbourAt(s: Net, f: nat, i: nat, t: Net)
    requires Agree(s) && OnlyNeighbours(s) && f < |s.recs| && i < |s.recs| - 1 && Dropped(s, f, t)
    ensures IsNeighbour(t, t.recs[i])
  {
    var k := if i < f then i else i + 1;
    DroppedAt(s.recs, f, i);
    assert IsNeighbour(s, s.recs[k]);
    assert s.recs[k].RemoteMac() != s.recs[f].RemoteMac();
    NeighbourStays(s, k, s.recs[f].RemoteMac());
  }

  lemma DropKeepsNeighbours(s: Net, f: nat, t: Net)
    requires Agree(s) && OnlyNeighbours(s) && f < |s.recs| && Dropped(s, f, t)
    ensures OnlyNeighbours(t)
  {
    DistinctDropped(s.recs, f);
    forall i | 0 <= i < |t.recs| ensures IsNeighbour(t, t.recs[i]) { NeighbourAt(s, f, i, t); }
  }

  lemma DeleteDrops(s: Net, mac: Mac)
    ensures var f := FirstOf(s.recs, mac); if f < |s.recs| then Dropped(s, f, Delete(s, mac)) else Delete(s, mac) == s
  {
  }

  lemma DeleteKeepsNeighbours(s: Net, mac: Mac, t: Net)
    requires Agree(s) && OnlyNeighbours(s) && t == Delete(s, mac)
    ensures OnlyNeighbours(t)
  {
    DeleteDrops(s, mac);
    if FirstOf(s.recs, mac) < |s.recs| { DropKeepsNeighbours(s, FirstOf(s.recs, mac), t); }
  }

  lemma {:induction false} SweepKeepsNeighbours(s: Net, rest: seq<Rec>, now: U64, timeout: int)
    requires Agree(s) && OnlyNeighbours(s)
    ensures OnlyNeighbours(SweepFrom(s, rest, now, timeout))
    decreases |rest|
  {
    if rest != [] {
      DeleteKeepsNeighbours(s, rest[0].RemoteMac(), Delete(s, rest[0].RemoteMac()));
      DeleteKeepsAgree(s, rest[0].RemoteMac());
      SweepKeepsNeighbours(Visited(s, rest[0], now, timeout), rest[1..], now, timeout);
    }
  }

  /** Records with different whole MACs have different keys. */
  lemma NeighboursTogether(s: Net, now: U64, timeout: int)
    requires Agree(s) && OnlyNeighbours(s)
    ensures ExpireTogether(s.recs, now, timeout)
  {
    forall i, j | 0 <= i < |s.recs| && 0 <= j < |s.recs| && KeyOf(s.recs[i].RemoteMac()) == KeyOf(s.recs[j].RemoteMac())
      ensures i == j
    {
      NeighbourIsWhole(s, i);
      KeyDecides(s.recs[i].RemoteMac(), s.recs[j].RemoteMac());
    }
  }

  lemma OneHop(s: Net, mac: Mac)
    requires OnlyNeighbours(s) && HasRecord(s.recs, mac)
    ensures Lowest(s.recs, mac) == 1
  {
    LowestIsMinimum(s.recs, mac);
    var i :| 0 <= i < |s.recs| && s.recs[i].RemoteMac() == mac;
    var j :| 0 <= j < |s.recs| && s.recs[j].RemoteMac() == mac && s.recs[j].node.linkweight == Lowest(s.recs, mac);
    assert IsNeighbour(s, s.recs[j]);
  }

  lemma NextHop(s: Net, n: Node, fd: int, now: U64)
    requires Pushes(s, n) && Lowest(s.recs, n.local.mac) == 1 && n.linkweight < 0xFFFF_FFFF
    ensures var t := Receive(s, n, fd, now);
            t.recs != [] && t.recs[0] == Rec(Node(n.local, n.remote, n.linkweight + 1, now), fd)
  {
  }

  /** A machine a neighbour reports is saved one hop further than the neighbour has it, whether it has a socket or
      not. */
  lemma HopsAddUp(s: Net, n: Node, fd: int, now: U64)
    requires OnlyNeighbours(s) && HasRecord(s.recs, n.local.mac) && Pushes(s, n) && n.linkweight < 0xFFFF_FFFF
    ensures var t := Receive(s, n, fd, now);
            t.recs != [] && t.recs[0] == Rec(Node(n.local, n.remote, n.linkweight + 1, now), fd)
  {
    OneHop(s, n.local.mac);
    NextHop(s, n, fd, now);
  }

  // ----- lives

  /** The packet has a record of another machine, known or not. */
  ghost predicate Reports(me: ProxyInfo, e: Event) {
    e.Packet? && exists p :: p in e.ps && Foreign(me, p)
  }

  /** Among neighbours the packet alone decides: the proxy never returns from it if and only if its records are looked
      at and one of them is of another machine. */
  lemma EventReports(s: Net, e: Event)
    requires Agree(s) && OnlyNeighbours(s) && e.Readable() && Addressed(s, e) && Introduced(s, e)
    ensures Occur(s, e) == Endless <==> Looked(s, e) && Reports(s.me, e)
    ensures Occur(s, e).Returns? ==> OnlyNeighbours(Occur(s, e).net)
  {
    match e {
      case Timeout(timeout, now) => SweepKeepsNeighbours(s, s.recs, now, timeout);
      case Packet(numNeighbors, source, ps, fd, now) =>
        if KeyOf(source.mac) in s.fds {
          assert s.recs != [];
          ReportNeverEnds(s, ps, fd, now);
          if Occur(s, e).Returns? { TimesKeepNeighbours(s, Occur(s, e).net); }
        } else if IsZero(ps[0].remote.mac) {
          HelloAgrees(s, source, source.mac, fd, now);
          JoinKeepsNeighbours(s, source, fd, now);
          ReportNeverEnds(Joined(s, e), ps, fd, now);
          if Occur(s, e).Returns? { TimesKeepNeighbours(Joined(s, e), Occur(s, e).net); }
        } else if numNeighbors == 1 {
          JoinKeepsNeighbours(s, source, fd, now);
          assert Joined(s, e).recs[..1] == Joined(s, e).recs;
        }
    }
  }

  /** Over every proper life in which machines have addresses of their own: as long as every packet has returned, all
      records are of neighbours, one for each, and have the nearest gateway's socket, whatever has timed out. */
  lemma {:induction false} LivesHaveNeighbours(me: ProxyInfo, events: seq<Event>)
    requires Readable(events) && ProperLife(me, events) && AddressedLife(me, events)
    ensures Life(me, events).Returns? ==>
              var s := Life(me, events).net; s.me == me && Agree(s) && OnlyNeighbours(s) && BestSockets(s)
    decreases |events|
  {
    LivesAgree(me, events);
    if events != [] && Life(me, events).Returns? {
      var pre, e := events[..|events| - 1], events[|events| - 1];
      LivesHaveNeighbours(me, pre);
      LifeKeepsMe(me, events);
      var s := Life(me, pre).net;
      EventReports(s, e);
      match e {
        case Packet(_, _, _, _, _) => PacketKeepsBest(s, e);
        case Timeout(timeout, now) =>
          NeighboursTogether(s, now, timeout);
          SweepKeepsBest(s, now, timeout);
      }
    }
  }

  /** And the next packet of such a life never returns if and only if its records are looked at and one of them is of
      another machine. */
  lemma ReportsEndLives(me: ProxyInfo, events: seq<Event>, e: Event)
    requires Readable(events) && ProperLife(me, events) && AddressedLife(me, events) && Life(me, events).Returns?
    requires e.Readable() && Addressed(Life(me, events).net, e) && Introduced(Life(me, events).net, e)
    ensures Readable(events + [e])
    ensures Life(me, events + [e]) == Endless <==> Looked(Life(me, events).net, e) && Reports(me, e)
  {
    var s := Life(me, events).net;
    LivesHaveNeighbours(me, events);
    EventReports(s, e);
    LifeNext(me, events, e, s);
  }

  // ----- particular lives

  lemma ProperNext(me: ProxyInfo, events: seq<Event>, e: Event)
    requires Readable(events) && e.Readable() && ProperLife(me, events)
    requires Life(me, events).Returns? ==> ProperEvent(Life(me, events).net, e)
    ensures Readable(events + [e]) && ProperLife(me, events + [e])
  {
    assert (events + [e])[..|events|] == events;
  }

  lemma AddressedNext(me: ProxyInfo, events: seq<Event>, e: Event)
    requires Readable(events) && e.Readable() && AddressedLife(me, events)
    requires Life(me, events).Returns? ==> Addressed(Life(me, events).net, e)
    ensures Readable(events + [e]) && AddressedLife(me, events + [e])
  {
    assert (events + [e])[..|events|] == events;
  }

  // ----- neighbours that connect

  /** The packet of connecttohost: one record, from the machine itself to the address it dials, with no MAC yet. */
  function Connecting(a: ProxyInfo, dialled: ProxyInfo, fd: int, now: U64): Event {
    Packet(1, a, [Node(a, dialled, 1, now)], fd, now)
  }

  /** Machines that connect one after the other. */
  function Connects(machines: seq<ProxyInfo>, dialled: ProxyInfo, fd: int, now: U64): (events: seq<Event>)
    ensures |events| == |machines| && Readable(events)
  {
    if machines == [] then []
    else
      var pre, last := machines[..|machines| - 1], machines[|machines| - 1];
      Connects(pre, dialled, fd, now) + [Connecting(last, dialled, fd, now)]
  }

  ghost predicate OtherMachines(me: ProxyInfo, machines: seq<ProxyInfo>) {
    && (forall i {:trigger machines[i]} :: 0 <= i < |machines| ==>
          ZeroFree(machines[i].mac) && machines[i].mac != me.mac && machines[i].ip != me.ip)
    && forall i, j {:trigger machines[i], machines[j]} :: 0 <= i < j < |machines| ==> machines[i].mac != machines[j].mac
  }

  /** One machine more: it joins, and the loop only renews the time of its record. */
  lemma OneConnects(s: Net, a: ProxyInfo, dialled: ProxyInfo, fd: int, now: U64)
    requires Agree(s) && OnlyNeighbours(s) && ZeroFree(a.mac) && a.mac !in s.fds && a.mac != s.me.mac && a.ip != s.me.ip
    requires dialled.ip == s.me.ip && IsZero(dialled.mac)
    ensures var e := Connecting(a, dialled, fd, now);
            && Addressed(s, e) && ProperEvent(s, e) && Occur(s, e).Returns?
            && SameButTimes(Occur(s, e).net, Hello(s, a, a.mac, fd, now))
  {
    var e := Connecting(a, dialled, fd, now);
    var h := Hello(s, a, a.mac, fd, now);
    KeyIsMac(a.mac);
    HelloAgrees(s, a, a.mac, fd, now);
    ForeignMacsOnly(h, dialled.mac);
    AddMembersExact(h, e.ps, fd, now);
    assert FirstPushed(h, e.ps) == 1;
  }

  /** These machines are neighbours now, and no others. */
  ghost predicate AllJoined(me: ProxyInfo, machines: seq<ProxyInfo>, s: Net) {
    && s.me == me && Agree(s) && OnlyNeighbours(s)
    && |s.recs| == |machines| && s.fds.Keys == set a | a in machines :: a.mac
  }

  lemma MacsOfNext(machines: seq<ProxyInfo>, a: ProxyInfo)
    ensures (set b | b in machines + [a] :: b.mac) == (set b | b in machines :: b.mac) + {a.mac}
  {
  }

  lemma NextConnects(me: ProxyInfo, machines: seq<ProxyInfo>, a: ProxyInfo, s: Net,
                     dialled: ProxyInfo, fd: int, now: U64)
    requires OtherMachines(me, machines + [a]) && dialled.ip == me.ip && IsZero(dialled.mac)
    requires AllJoined(me, machines, s)
    ensures var e := Connecting(a, dialled, fd, now);
            && Addressed(s, e) && ProperEvent(s, e) && Occur(s, e).Returns? && Introduced(s, e)
            && AllJoined(me, machines + [a], Occur(s, e).net)
  {
    var e := Connecting(a, dialled, fd, now);
    assert (machines + [a])[|machines|] == a;
    forall b | b in machines ensures b.mac != a.mac {
      var i :| 0 <= i < |machines| && machines[i] == b;
      assert (machines + [a])[i] == b;
    }
    assert a.mac !in s.fds.Keys;
    OneConnects(s, a, dialled, fd, now);
    KeyIsMac(a.mac);
    MacsOfNext(machines, a);
    EventAgrees(s, e);
    EventReports(s, e);
  }

  /** The life is proper, everybody has an address, and at its end these machines are the neighbours. */
  ghost predicate Arrived(me: ProxyInfo, machines: seq<ProxyInfo>, events: seq<Event>)
    requires Readable(events)
  {
    && ProperLife(me, events) && AddressedLife(me, events)
    && Life(me, events).Returns? && AllJoined(me, machines, Life(me, events).net)
  }

  lemma NextArrives(me: ProxyInfo, machines: seq<ProxyInfo>, a: ProxyInfo, events: seq<Event>,
                    dialled: ProxyInfo, fd: int, now: U64)
    requires OtherMachines(me, machines + [a]) && dialled.ip == me.ip && IsZero(dialled.mac)
    requires Readable(events) && Arrived(me, machines, events)
    ensures var e := Connecting(a, dialled, fd, now);
            Readable(events + [e]) && Arrived(me, machines + [a], events + [e])
  {
    var e, s := Connecting(a, dialled, fd, now), Life(me, events).net;
    NextConnects(me, machines, a, s, dialled, fd, now);
    LifeNext(me, events, e, s);
    ProperNext(me, events, e);
    AddressedNext(me, events, e);
  }

  lemma OtherMachinesBefore(me: ProxyInfo, machines: seq<ProxyInfo>)
    requires OtherMachines(me, machines) && machines != []
    ensures OtherMachines(me, machines[..|machines| - 1])
    ensures machines[..|machines| - 1] + [machines[|machines| - 1]] == machines
  {
  }

  /** Any number of machines with addresses and whole MACs of their own may connect, and all become neighbours. */
  lemma {:induction false} AllConnect(me: ProxyInfo, machines: seq<ProxyInfo>, dialled: ProxyInfo, fd: int, now: U64)
    requires OtherMachines(me, machines) && dialled.ip == me.ip && IsZero(dialled.mac)
    ensures Arrived(me, machines, Connects(machines, dialled, fd, now))
    decreases |machines|
  {
    if machines != [] {
      var pre, a := machines[..|machines| - 1], machines[|machines| - 1];
      OtherMachinesBefore(me, machines);
      AllConnect(me, pre, dialled, fd, now);
      NextArrives(me, pre, a, Connects(pre, dialled, fd, now), dialled, fd, now);
    }
  }

  /** What a neighbour leaves that has answered: its own record and its socket. */
  function OneNeighbour(me: ProxyInfo, a: ProxyInfo, fd: int, now: U64): Net {
    Net(me, [Rec(Node(me, a, 1, now), fd)], 1, map[KeyOf(a.mac) := fd])
  }

  lemma FirstPacket(me: ProxyInfo, k: U16, a: ProxyInfo, z: Node, fd: int, now: U64)
    requires a.mac[0] != 0 && IsZero(z.remote.mac)
    ensures Readable([Packet(k, a, [z], fd, now)])
    ensures Life(me, [Packet(k, a, [z], fd, now)]) == Returns(OneNeighbour(me, a, fd, now))
    ensures ZeroFree(a.mac) && a.mac != me.mac ==> ProperLife(me, [Packet(k, a, [z], fd, now)])
  {
    var e := Packet(k, a, [z], fd, now);
    var s := OneNeighbour(me, a, fd, now);
    assert Joined(Start(me), e) == s;
    assert Receive(s, z, fd, now) == s;
    assert AddMembers(s, [z], fd, now) == Returns(s);
    LifeNext(me, [], e, Start(me));
    assert [] + [e] == [e];
    if ZeroFree(a.mac) && a.mac != me.mac { ProperNext(me, [], e); }
  }

  /** A neighbour introduces itself and reports any other machine. The report is pushed, and so, a second time, is the
      record of the neighbour. */
  lemma FirstReportNeverEnds(me: ProxyInfo, k: U16, a: ProxyInfo, z: Node, n: Node, rest: seq<Node>, fd: int, now: U64)
    requires a.mac[0] != 0 && a.ip != me.ip && IsZero(z.remote.mac)
    requires n.remote.ip != me.ip && n.remote.mac != me.mac && !IsZero(n.remote.mac)
    ensures var events := [Packet(k, a, [z], fd, now)];
            && Readable(events + [Packet(k, a, [n] + rest, fd, now)])
            && Life(me, events + [Packet(k, a, [n] + rest, fd, now)]) == Endless
            && (ZeroFree(a.mac) && a.mac != me.mac ==> ProperLife(me, events))
  {
    var s := OneNeighbour(me, a, fd, now);
    FirstPacket(me, k, a, z, fd, now);
    LifeNext(me, [Packet(k, a, [z], fd, now)], Packet(k, a, [n] + rest, fd, now), s);
    assert FindRec(s.recs, n.local.ip, n.remote.ip) == 1;
    PushedShape(s, n, fd, now);
    var t := Receive(s, n, fd, now);
    assert t.recs[1] == s.recs[0] && KeyOf(a.mac) in s.fds.Keys;
    NoWayBack(t.recs, me.ip, a.ip);
    assert Recurs(t, 1);
    RevisitExact(t, 1, fd, now);
    assert ([n] + rest)[0] == n;
  }

  // ----- a packet that is not understood

  lemma FirstPacketAnswered(s: Net, source: ProxyInfo, x: Node, fd: int, now: U64)
    requires KeyOf(source.mac) !in s.fds && !IsZero(x.remote.mac)
    ensures var h := OpHello(source, x.local.mac, fd, now);
            Occur(s, Packet(1, source, [x], fd, now)) == Returns(Step(Step(s, h), OpReply))
    ensures Step(Step(s, OpHello(source, x.local.mac, fd, now)), OpReply).fds == s.fds[KeyOf(source.mac) := fd]
  {
  }

  function TwoHandshakes(a: ProxyInfo, x: Node, b: ProxyInfo, y: Node, fd: int, now: U64): seq<Op> {
    [OpHello(a, x.local.mac, fd, now), OpReply, OpHello(b, y.local.mac, fd, now), OpReply]
  }

  lemma RunTwice(me: ProxyInfo, ops: seq<Op>, g: Op, h: Op, s: Net, t: Net)
    requires s == Step(Run(me, ops), g) && t == Step(s, h)
    ensures Run(me, ops + [g] + [h]) == t
  {
    RunNext(me, ops, g);
    RunNext(me, ops + [g], h);
  }

  /** Two neighbours introduce themselves one after the other and are answered: the record of the first is gone, and
      `size` still counts it. */
  lemma SecondNeighbourCutsOff(me: ProxyInfo, a: ProxyInfo, x: Node, b: ProxyInfo, y: Node, fd: int, now: U64)
    requires !IsZero(x.remote.mac) && !IsZero(y.remote.mac) && KeyOf(a.mac) != KeyOf(b.mac)
    ensures var events := [Packet(1, a, [x], fd, now), Packet(1, b, [y], fd, now)];
            Readable(events) && Life(me, events) == Returns(Run(me, TwoHandshakes(a, x, b, y, fd, now)))
    ensures var s := Run(me, TwoHandshakes(a, x, b, y, fd, now)); s.size == 2 && |s.recs| == 1
  {
    var e, f := Packet(1, a, [x], fd, now), Packet(1, b, [y], fd, now);
    var g, h := OpHello(a, x.local.mac, fd, now), OpHello(b, y.local.mac, fd, now);
    var s := Step(Step(Start(me), g), OpReply);
    FirstPacketAnswered(Start(me), a, x, fd, now);
    FirstPacketAnswered(s, b, y, fd, now);
    LifeOfTwo(me, e, f, s);
    RunTwice(me, [], g, OpReply, Step(Start(me), g), s);
    assert [] + [g] + [OpReply] == [g, OpReply];
    RunTwice(me, [g, OpReply], h, OpReply, Step(s, h), Step(Step(s, h), OpReply));
    assert [g, OpReply] + [h] + [OpReply] == TwoHandshakes(a, x, b, y, fd, now);
    SecondReplyCuts(me, a, x.local.mac, b, y.local.mac, fd, now);
  }

  lemma LifeOfTwo(me: ProxyInfo, e: Event, f: Event, s: Net)
    requires e.Readable() && f.Readable() && Occur(Start(me), e) == Returns(s)
    ensures Readable([e, f]) && Life(me, [e, f]) == Occur(s, f)
  {
    LifeNext(me, [], e, Start(me));
    assert [] + [e] == [e] && [e] + [f] == [e, f];
    LifeNext(me, [e], f, s);
  }

  /** So the packet made of that list, which has one record, is read as one of two, whatever stands behind it. */
  lemma SecondNeighbourMisread(me: ProxyInfo, a: ProxyInfo, x: Node, b: ProxyInfo, y: Node, fd: int, now: U64,
                               s: Net, nodeSize: nat, buf: seq<Byte>)
    requires !IsZero(x.remote.mac) && !IsZero(y.remote.mac) && KeyOf(a.mac) != KeyOf(b.mac)
    requires var events := [Packet(1, a, [x], fd, now), Packet(1, b, [y], fd, now)];
             Readable(events) && Life(me, events) == Returns(s)
    requires (nodeSize == 36 || nodeSize == 40) && Carries(buf, s, nodeSize)
    ensures |LinkOf(s, nodeSize).nodes| == 1
    ensures LengthField(buf) == HeaderLength(nodeSize, s.size) && NumNodes(LengthField(buf)) == 2
    ensures Decode(buf) != LinkOf(s, nodeSize)
  {
    SecondNeighbourCutsOff(me, a, x, b, y, fd, now);
    SecondReplyCuts(me, a, x.local.mac, b, y.local.mac, fd, now);
    Unwrapped(nodeSize, 2);
    AdvertUnderstood(me, TwoHandshakes(a, x, b, y, fd, now), nodeSize, buf);
  }

  /** And the first neighbour, of whom the list has no record any more, keeps its socket through every timeout, as long
      as no packet names its key in a record. */
  lemma SilentNeighbourStays(me: ProxyInfo, a: ProxyInfo, x: Node, b: ProxyInfo, y: Node, fd: int, now: U64,
                             more: seq<Event>)
    requires !IsZero(x.remote.mac) && !IsZero(y.remote.mac) && KeyOf(a.mac) != KeyOf(b.mac)
    requires KeyOf(y.local.mac) != KeyOf(a.mac) && Readable(more) && forall e :: e in more ==> !Names(e, KeyOf(a.mac))
    ensures var events := [Packet(1, a, [x], fd, now), Packet(1, b, [y], fd, now)];
            && Readable(events + more)
            && (Life(me, events + more).Returns? ==> Orphan(Life(me, events + more).net, KeyOf(a.mac), fd))
  {
    var events := [Packet(1, a, [x], fd, now), Packet(1, b, [y], fd, now)];
    SecondNeighbourCutsOff(me, a, x, b, y, fd, now);
    FirstPacketAnswered(Start(me), a, x, fd, now);
    var s := Step(Step(Start(me), OpHello(a, x.local.mac, fd, now)), OpReply);
    FirstPacketAnswered(s, b, y, fd, now);
    LifeOfTwo(me, events[0], events[1], s);
    OrphansStay(me, events, more, KeyOf(a.mac), fd);
  }

  // ----- a record without a socket

  /** Records that all have sockets and records the other way round change nothing when they are visited. */
  lemma {:induction false} NothingAhead(t: Net, i: nat, fd: int, now: U64)
    requires forall j {:trigger t.recs[j]} :: i <= j < |t.recs| ==>
               && KeyOf(t.recs[j].RemoteMac()) in t.fds
               && FindRec(t.recs, t.recs[j].node.local.ip, t.recs[j].node.remote.ip) < |t.recs|
    ensures Revisit(t, i, fd, now) == Returns(t)
    decreases |t.recs| - i
  {
    if i < |t.recs| {
      assert Receive(t, t.recs[i].node, fd, now) == t;
      NothingAhead(t, i + 1, fd, now);
    }
  }

  lemma TakenIn(s: Net, e: Event, p: Node, t: Net)
    requires e.Packet? && e.ps == [p] && KeyOf(e.source.mac) in s.fds && Pushes(s, p)
    requires t == Receive(s, p, e.fd, e.now) && Revisit(t, 1, e.fd, e.now) == Returns(t)
    ensures Occur(s, e) == Returns(t)
  {
  }

  /** A neighbour at a.ip, and a record of a second machine at this proxy's address that it reports. */
  ghost predicate TwoAtOneAddress(s: Net, a: ProxyInfo, p: Node) {
    && |s.recs| == 2 && s.recs[0].node.local == p.local && s.recs[0].node.remote == p.remote
    && s.recs[1].node.local == s.me && s.recs[1].node.remote == a
    && KeyOf(a.mac) in s.fds && KeyOf(p.remote.mac) in s.fds
    && p.local.ip == a.ip && p.remote.ip == s.me.ip && a.ip != s.me.ip
  }

  /** The report comes back to the neighbour's own record, so nothing is pushed twice. */
  lemma SecondAtAddress(me: ProxyInfo, k: U16, a: ProxyInfo, p: Node, fd: int, gd: int, now: U64)
    requires a.ip != me.ip && p.local.ip == a.ip && p.remote.ip == me.ip
    requires !IsZero(p.remote.mac) && p.remote.mac != me.mac && KeyOf(p.remote.mac) != KeyOf(a.mac)
    ensures var s := OneNeighbour(me, a, fd, now); var t := Receive(s, p, gd, now);
            && Occur(s, Packet(k, a, [p], gd, now)) == Returns(t) && Pushes(s, p)
            && TwoAtOneAddress(t, a, p) && t.me == me && t.recs[0].node.id == now && t.recs[1].node.id == now
  {
    var s := OneNeighbour(me, a, fd, now);
    var t := Receive(s, p, gd, now);
    assert t.recs[1] == s.recs[0];
    assert FindRec(t.recs, me.ip, a.ip) == 0;
    NothingAhead(t, 1, gd, now);
    TakenIn(s, Packet(k, a, [p], gd, now), p, t);
  }

  /** A further record with that key, from another gateway, is pushed and again nothing twice. */
  lemma SecondGateway(s: Net, k: U16, a: ProxyInfo, p: Node, q: Node, fd: int, now: U64)
    requires TwoAtOneAddress(s, a, p) && KeyOf(q.remote.mac) == KeyOf(p.remote.mac)
    requires q.remote.ip == s.me.ip && q.local.ip != a.ip && q.local.ip != s.me.ip
    ensures var t := Receive(s, q, fd, now);
            && Occur(s, Packet(k, a, [q], fd, now)) == Returns(t) && AllServed(t)
            && |t.recs| == 3 && t.recs[1] == s.recs[0] && t.recs[0].node.id == now && t.recs[0].node.remote == q.remote
  {
    var t := Receive(s, q, fd, now);
    assert FindRec(s.recs, q.local.ip, q.remote.ip) == 2;
    assert t.recs[1] == s.recs[0] && t.recs[2] == s.recs[1];
    assert FindRec(t.recs, s.me.ip, a.ip) == 1;
    assert FindRec(t.recs, a.ip, s.me.ip) == 2;
    NothingAhead(t, 1, fd, now);
    TakenIn(s, Packet(k, a, [q], fd, now), q, t);
  }

  /** Two records with one key, of which one expires: the other is left without a socket. */
  lemma ExpiryLosesSocket(t: Net, now: U64, timeout: int)
    requires AllServed(t) && |t.recs| == 3 && KeyOf(t.recs[0].RemoteMac()) == KeyOf(t.recs[1].RemoteMac())
    requires t.recs[0].node.id == now && timeout >= 0 && now - t.recs[1].node.id > timeout * 1000
    ensures !AllServed(Sweep(t, now, timeout))
  {
    SweepServes(t, now, timeout);
    assert Expired(t.recs[1], now, timeout) && !Expired(t.recs[0], now, timeout);
  }

  /** A life at whose end a saved record has no socket: a neighbour introduces itself, reports a second machine at this
      proxy's address, later reports a machine with the same key behind another gateway, and the first report expires.
      The two may be one machine, all MACs may be whole, and every event proper. */
  lemma LifeLosesSocket(me: ProxyInfo, k: U16, a: ProxyInfo, z: Node, p: Node, q: Node, fd: int, t0: U64, t1: U64,
                        timeout: int)
    requires a.mac[0] != 0 && a.ip != me.ip && IsZero(z.remote.mac)
    requires p.local.ip == a.ip && p.remote.ip == me.ip && !IsZero(p.remote.mac) && p.remote.mac != me.mac
    requires q.remote.ip == me.ip && q.local.ip != a.ip && q.local.ip != me.ip
    requires KeyOf(q.remote.mac) == KeyOf(p.remote.mac) != KeyOf(a.mac)
    requires timeout >= 0 && t1 - t0 > timeout * 1000
    ensures var events := [Packet(k, a, [z], fd, t0), Packet(k, a, [p], fd, t0), Packet(k, a, [q], fd, t1)];
            && Readable(events + [Timeout(timeout, t1)])
            && Readable(events) && Life(me, events).Returns? && AllServed(Life(me, events).net)
            && Life(me, events + [Timeout(timeout, t1)]).Returns?
            && !AllServed(Life(me, events + [Timeout(timeout, t1)]).net)
            && (ZeroFree(a.mac) && a.mac != me.mac && ZeroFree(p.remote.mac) ==>
                  ProperLife(me, events + [Timeout(timeout, t1)]))
  {
    var e, f, g := Packet(k, a, [z], fd, t0), Packet(k, a, [p], fd, t0), Packet(k, a, [q], fd, t1);
    var h := Timeout(timeout, t1);
    var s := OneNeighbour(me, a, fd, t0);
    FirstPacket(me, k, a, z, fd, t0);
    SecondAtAddress(me, k, a, p, fd, fd, t0);
    LifeNext(me, [e], f, s);
    var t := Receive(s, p, fd, t0);
    SecondGateway(t, k, a, p, q, fd, t1);
    assert [e] + [f] == [e, f];
    LifeNext(me, [e, f], g, t);
    var u := Receive(t, q, fd, t1);
    assert [e, f] + [g] == [e, f, g];
    LifeNext(me, [e, f, g], h, u);
    ExpiryLosesSocket(u, t1, timeout);
    if ZeroFree(a.mac) && a.mac != me.mac && ZeroFree(p.remote.mac) {
      ProperNext(me, [e], f);
      ProperNext(me, [e, f], g);
      ProperNext(me, [e, f, g], h);
    }
  }
}
