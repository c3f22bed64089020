/**
  Lives of a proxy: sequences of whole packets and timeouts, as its threads handle them.
  When list and table agree all through a life, when every MAC keeps the socket of a
  nearest gateway, and what becomes of a socket whose records are gone.
 */
module Lives {
  import opened Elements
  import opened Wire
  import opened Membership
  import opened MembershipRuns
  import opened MemberLoop
  import opened Gateways
  import opened PacketRuns

  datatype Event =
    | Packet(numNeighbors: U16, source: ProxyInfo, ps: seq<Node>, fd: int, now: U64)
    | Timeout(timeout: int, now: U64)
  {
    /** A packet has a record; for one without, the code reads a list pointer that was never set. */
    predicate Readable() { Packet? ==> ps != [] }
  }

  predicate Readable(events: seq<Event>) {
    forall e :: e in events ==> e.Readable()
  }

  function Occur(s: Net, e: Event): Outcome
    requires e.Readable()
  {
    match e
    case Packet(numNeighbors, source, ps, fd, now) => Handle(s, numNeighbors, source, ps, fd, now)
    case Timeout(timeout, now) => Returns(Sweep(s, now, timeout))
  }

  function Life(me: ProxyInfo, events: seq<Event>): Outcome
    requires Readable(events)
  {
    if events == [] then Returns(Start(me))
    else
      match Life(me, events[..|events| - 1])
      case Endless => Endless
      case Returns(s) => Occur(s, events[|events| - 1])
  }

  lemma LifeNext(me: ProxyInfo, events: seq<Event>, e: Event, s: Net)
    requires Readable(events) && e.Readable() && Life(me, events) == Returns(s)
    ensures Readable(events + [e]) && Life(me, events + [e]) == Occur(s, e)
  {
    assert (events + [e])[..|events|] == events;
  }

  lemma AddMembersKeeps(s: Net, ps: seq<Node>, fd: int, now: U64)
    requires AddMembers(s, ps, fd, now).Returns?
    ensures AddMembers(s, ps, fd, now).net.me == s.me && s.fds.Keys <= AddMembers(s, ps, fd, now).net.fds.Keys
  {
    AddMembersExact(s, ps, fd, now);
  }

  lemma OccurKeepsMe(s: Net, e: Event)
    requires e.Readable() && Occur(s, e).Returns?
    ensures Occur(s, e).net.me == s.me
  {
    match e {
      case Packet(_, source, ps, fd, now) =>
        if KeyOf(source.mac) in s.fds {
          AddMembersKeeps(s, ps, fd, now);
        } else if IsZero(ps[0].remote.mac) {
          AddMembersKeeps(Hello(s, source, source.mac, fd, now), ps, fd, now);
        }
      case Timeout(timeout, now) => SweepKeepsGap(s, s.recs, now, timeout);
    }
  }

  lemma {:induction false} LifeKeepsMe(me: ProxyInfo, events: seq<Event>)
    requires Readable(events) && Life(me, events).Returns?
    ensures Life(me, events).net.me == me
    decreases |events|
  {
    if events != [] {
      var pre, e := events[..|events| - 1], events[|events| - 1];
      LifeKeepsMe(me, pre);
      OccurKeepsMe(Life(me, pre).net, e);
    }
  }

  // ----- list and table

  /** The state after the handshake that a packet which comes back begins with. */
  function Joined(s: Net, e: Event): Net
    requires e.Packet?
  {
    Hello(s, e.source, e.source.mac, e.fd, e.now)
  }

  /** A sender without a socket has a whole MAC, not the proxy's own; if it is answered, the list was empty, and its
      record has that MAC too. */
  ghost predicate Introduced(s: Net, e: Event)
    requires e.Readable()
  {
    e.Packet? && KeyOf(e.source.mac) !in s.fds && (IsZero(e.ps[0].remote.mac) || e.numNeighbors == 1) ==>
      && ZeroFree(e.source.mac) && e.source.mac != s.me.mac
      && (!IsZero(e.ps[0].remote.mac) ==> s.recs == [] && e.source.mac == e.ps[0].local.mac)
  }

  /** Of a packet whose records are looked at, the first that is pushed is proper too. */
  ghost predicate ProperEvent(s: Net, e: Event)
    requires e.Readable()
  {
    && Introduced(s, e)
    && (e.Packet? && KeyOf(e.source.mac) in s.fds ==> PushProper(s, e.ps, e.fd, e.now))
    && (e.Packet? && KeyOf(e.source.mac) !in s.fds && IsZero(e.ps[0].remote.mac) ==>
          PushProper(Joined(s, e), e.ps, e.fd, e.now))
  }

  lemma BackAgrees(s: Net, e: Event)
    requires Agree(s) && e.Packet? && e.Readable() && KeyOf(e.source.mac) !in s.fds && IsZero(e.ps[0].remote.mac)
    requires Occur(s, e).Returns?
    ensures Agree(Occur(s, e).net) <==> ProperEvent(s, e)
  {
    var h := Joined(s, e);
    HelloAgrees(s, e.source, e.source.mac, e.fd, e.now);
    if Agree(h) {
      AddMembersAgrees(h, e.ps, e.fd, e.now);
    } else if Agree(Occur(s, e).net) {
      AddMembersKeeps(h, e.ps, e.fd, e.now);
      assert KeyOf(e.source.mac) in h.fds.Keys;
      RecordKeyIsWhole(Occur(s, e).net.recs, e.source.mac);
      assert false;
    }
  }

  lemma FirstAgrees(s: Net, e: Event)
    requires Agree(s) && e.Packet? && e.Readable() && KeyOf(e.source.mac) !in s.fds && !IsZero(e.ps[0].remote.mac)
    requires e.numNeighbors == 1
    ensures Agree(Occur(s, e).net) <==> ProperEvent(s, e)
  {
    var h := Hello(s, e.source, e.ps[0].local.mac, e.fd, e.now);
    HelloAgrees(s, e.source, e.ps[0].local.mac, e.fd, e.now);
    if s.recs == [] { assert h.recs[..1] == h.recs; }
  }

  /** Each event from which the proxy returns keeps the agreement if and only if it is proper. */
  lemma EventAgrees(s: Net, e: Event)
    requires Agree(s) && e.Readable() && Occur(s, e).Returns?
    ensures Agree(Occur(s, e).net) <==> ProperEvent(s, e)
  {
    match e {
      case Timeout(timeout, now) => SweepKeepsAgree(s, s.recs, now, timeout);
      case Packet(numNeighbors, source, ps, fd, now) =>
        if KeyOf(source.mac) in s.fds {
          AddMembersAgrees(s, ps, fd, now);
        } else if IsZero(ps[0].remote.mac) {
          BackAgrees(s, e);
        } else if numNeighbors == 1 {
          FirstAgrees(s, e);
        }
    }
  }

  ghost predicate ProperLife(me: ProxyInfo, events: seq<Event>)
    requires Readable(events)
  {
    events != [] ==>
      var pre, e := events[..|events| - 1], events[|events| - 1];
      ProperLife(me, pre) && (Life(me, events).Returns? ==> ProperEvent(Life(me, pre).net, e))
  }

  ghost predicate AgreesInLife(me: ProxyInfo, events: seq<Event>)
    requires Readable(events)
  {
    && (events != [] ==> AgreesInLife(me, events[..|events| - 1]))
    && (Life(me, events).Returns? ==> Agree(Life(me, events).net))
  }

  /** As far as a life goes, list and table agree all through it if and only if every event of it is proper. */
  lemma {:induction false} LivesAgree(me: ProxyInfo, events: seq<Event>)
    requires Readable(events)
    ensures AgreesInLife(me, events) <==> ProperLife(me, events)
    decreases |events|
  {
    if events != [] {
      var pre, e := events[..|events| - 1], events[|events| - 1];
      LivesAgree(me, pre);
      if AgreesInLife(me, pre) && Life(me, events).Returns? { EventAgrees(Life(me, pre).net, e); }
    }
  }

  // ----- nearest gateways

  /** What a push needs to keep the nearest gateways follows from its being proper. */
  lemma ProperPushIsWhole(s: Net, ps: seq<Node>, fd: int, now: U64)
    requires Agree(s) && PushProper(s, ps, fd, now)
    ensures var k := FirstPushed(s, ps); k < |ps| ==> ZeroFree(ps[k].remote.mac)
  {
    var k := FirstPushed(s, ps);
    if k < |ps| && KeyOf(ps[k].remote.mac) in s.fds { RecordKeyIsWhole(s.recs, ps[k].remote.mac); }
  }

  lemma PacketKeepsBest(s: Net, e: Event)
    requires Agree(s) && BestSockets(s) && e.Packet? && e.Readable() && ProperEvent(s, e) && Occur(s, e).Returns?
    ensures BestSockets(Occur(s, e).net)
  {
    if KeyOf(e.source.mac) in s.fds {
      ProperPushIsWhole(s, e.ps, e.fd, e.now);
      AddMembersKeepsBest(s, e.ps, e.fd, e.now);
    } else if IsZero(e.ps[0].remote.mac) {
      HelloAgrees(s, e.source, e.source.mac, e.fd, e.now);
      HelloKeepsBest(s, e.source, e.source.mac, e.fd, e.now);
      ProperPushIsWhole(Joined(s, e), e.ps, e.fd, e.now);
      AddMembersKeepsBest(Joined(s, e), e.ps, e.fd, e.now);
    } else if e.numNeighbors == 1 {
      HelloKeepsBest(s, e.source, e.source.mac, e.fd, e.now);
      assert Joined(s, e).recs[..1] == Joined(s, e).recs;
    }
  }

  ghost predicate TogetherLife(me: ProxyInfo, events: seq<Event>)
    requires Readable(events)
  {
    events != [] ==>
      var pre, e := events[..|events| - 1], events[|events| - 1];
      && TogetherLife(me, pre)
      && (e.Timeout? && Life(me, pre).Returns? ==> ExpireTogether(Life(me, pre).net.recs, e.now, e.timeout))
  }

  ghost predicate BestInLife(me: ProxyInfo, events: seq<Event>)
    requires Readable(events)
  {
    && (events != [] ==> BestInLife(me, events[..|events| - 1]))
    && (Life(me, events).Returns? ==> BestSockets(Life(me, events).net))
  }

  /** As far as a proper life goes, every MAC has the socket of a nearest gateway all through it if and only if each
      timeout finds records that expire together with those of their key. */
  lemma {:induction false} LivesStayBest(me: ProxyInfo, events: seq<Event>)
    requires Readable(events) && ProperLife(me, events)
    ensures BestInLife(me, events) <==> TogetherLife(me, events)
    decreases |events|
  {
    if events != [] {
      var pre, e := events[..|events| - 1], events[|events| - 1];
      LivesStayBest(me, pre);
      LivesAgree(me, pre);
      if BestInLife(me, pre) && Life(me, events).Returns? {
        var s := Life(me, pre).net;
        match e {
          case Packet(_, _, _, _, _) => PacketKeepsBest(s, e);
          case Timeout(timeout, now) => SweepKeepsBest(s, now, timeout);
        }
      }
    }
  }

  // ----- sockets without records

  /** The key has this socket and no record. */
  ghost predicate Orphan(s: Net, key: Key, fd: int) {
    && key in s.fds && s.fds[key] == fd
    && forall i {:trigger s.recs[i]} :: 0 <= i < |s.recs| ==> KeyOf(s.recs[i].RemoteMac()) != key
  }

  /** Some record of the packet has the key at one of its ends. */
  predicate Names(e: Event, key: Key) {
    e.Packet? && exists p :: p in e.ps && (KeyOf(p.local.mac) == key || KeyOf(p.remote.mac) == key)
  }

  lemma TimesKeepOrphan(s: Net, t: Net, key: Key, fd: int)
    requires Orphan(s, key, fd) && SameButTimes(t, s)
    ensures Orphan(t, key, fd)
  {
    forall i | 0 <= i < |t.recs| ensures KeyOf(t.recs[i].RemoteMac()) != key { assert SameBut(t.recs[i], s.recs[i]); }
  }

  lemma PushKeepsOrphan(s: Net, t: Net, key: Key, fd: int)
    requires Orphan(s, key, fd) && |t.recs| == |s.recs| + 1 && t.recs[1..] == s.recs
    requires KeyOf(t.recs[0].RemoteMac()) != key && key in t.fds && t.fds[key] == s.fds[key]
    ensures Orphan(t, key, fd)
  {
    forall i | 0 <= i < |t.recs| ensures KeyOf(t.recs[i].RemoteMac()) != key {
      if i > 0 { assert t.recs[i] == s.recs[i - 1]; }
    }
  }

  lemma AddMembersKeepsOrphan(s: Net, ps: seq<Node>, fd: int, now: U64, key: Key, gd: int)
    requires Orphan(s, key, gd) && AddMembers(s, ps, fd, now).Returns?
    requires forall p :: p in ps ==> KeyOf(p.remote.mac) != key
    ensures Orphan(AddMembers(s, ps, fd, now).net, key, gd)
  {
    AddMembersExact(s, ps, fd, now);
    var k, t := FirstPushed(s, ps), AddMembers(s, ps, fd, now).net;
    if k == |ps| {
      TimesKeepOrphan(s, t, key, gd);
    } else {
      assert ps[k] in ps;
      PushKeepsOrphan(s, Receive(s, ps[k], fd, now), key, gd);
      TimesKeepOrphan(Receive(s, ps[k], fd, now), t, key, gd);
    }
  }

  lemma DeleteKeepsOrphan(s: Net, mac: Mac, key: Key, fd: int)
    requires Orphan(s, key, fd) && KeyOf(mac) != key
    ensures Orphan(Delete(s, mac), key, fd)
  {
  }

  lemma {:induction false} SweepKeepsOrphan(s: Net, rest: seq<Rec>, now: U64, timeout: int, key: Key, fd: int)
    requires Orphan(s, key, fd)
    requires forall i {:trigger rest[i]} :: 0 <= i < |rest| ==> KeyOf(rest[i].RemoteMac()) != key
    ensures Orphan(SweepFrom(s, rest, now, timeout), key, fd)
    decreases |rest|
  {
    if rest != [] {
      DeleteKeepsOrphan(s, rest[0].RemoteMac(), key, fd);
      SweepKeepsOrphan(Visited(s, rest[0], now, timeout), rest[1..], now, timeout, key, fd);
    }
  }

  lemma EventKeepsOrphan(s: Net, e: Event, key: Key, fd: int)
    requires Orphan(s, key, fd) && e.Readable() && Occur(s, e).Returns? && !Names(e, key)
    ensures Orphan(Occur(s, e).net, key, fd)
  {
    match e {
      case Timeout(timeout, now) => SweepKeepsOrphan(s, s.recs, now, timeout, key, fd);
      case Packet(numNeighbors, source, ps, gd, now) =>
        assert ps[0] in ps;
        if KeyOf(source.mac) in s.fds {
          AddMembersKeepsOrphan(s, ps, gd, now, key, fd);
        } else if IsZero(ps[0].remote.mac) {
          PushKeepsOrphan(s, Joined(s, e), key, fd);
          AddMembersKeepsOrphan(Joined(s, e), ps, gd, now, key, fd);
        } else if numNeighbors == 1 {
          PushKeepsOrphan(s, Hello(s, source, ps[0].local.mac, gd, now), key, fd);
        }
    }
  }

  /** A socket without a record outlives every sweep: it stays as it is until a packet names its key in a record. */
  lemma {:induction false} OrphansStay(me: ProxyInfo, events: seq<Event>, more: seq<Event>, key: Key, fd: int)
    requires Readable(events) && Readable(events + more)
    requires Life(me, events).Returns? && Orphan(Life(me, events).net, key, fd)
    requires forall e :: e in more ==> !Names(e, key)
    ensures Life(me, events + more).Returns? ==> Orphan(Life(me, events + more).net, key, fd)
    decreases |more|
  {
    if more == [] {
      assert events + more == events;
    } else {
      var rest, e := more[..|more| - 1], more[|more| - 1];
      assert (events + more)[..|events + more| - 1] == events + rest && e in more;
      assert forall d :: d in events + rest ==> d in events + more;
      OrphansStay(me, events, rest, key, fd);
      if Life(me, events + more).Returns? { EventKeepsOrphan(Life(me, events + rest).net, e, key, fd); }
    }
  }
}
