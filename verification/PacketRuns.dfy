/**
  Whole packets: what TCPHandle makes of one is a run of steps if it returns at all, what
  the loop of add_members then keeps, and when it does not return.
 */
module PacketRuns {
  import opened Wire
  import opened Membership
  import opened MembershipRuns
  import opened MemberLoop
  import opened Gateways

  // ----- a packet as steps

  /** The records of the list that are visited again. */
  function RevisitOps(s: Net, i: nat, fd: int, now: U64): seq<Op>
    decreases |s.recs| - i
  {
    if i >= |s.recs| || Pushes(s, s.recs[i].node) then []
    else
      ReceiveLength(s, s.recs[i].node, fd, now);
      [OpReceive(s.recs[i].node, fd, now)] + RevisitOps(Receive(s, s.recs[i].node, fd, now), i + 1, fd, now)
  }

  /** The records of a packet that are seen, and those of the list after one has been pushed. */
  function SeenOps(s: Net, ps: seq<Node>, fd: int, now: U64): seq<Op>
    decreases |ps|
  {
    if ps == [] then []
    else
      var t := Receive(s, ps[0], fd, now);
      [OpReceive(ps[0], fd, now)] + if Pushes(s, ps[0]) then RevisitOps(t, 1, fd, now) else SeenOps(t, ps[1..], fd, now)
  }

  function PacketOps(s: Net, numNeighbors: U16, source: ProxyInfo, ps: seq<Node>, fd: int, now: U64): seq<Op>
    requires ps != []
  {
    if KeyOf(source.mac) in s.fds then SeenOps(s, ps, fd, now)
    else if IsZero(ps[0].remote.mac) then
      [OpHello(source, source.mac, fd, now)] + SeenOps(Hello(s, source, source.mac, fd, now), ps, fd, now)
    else if numNeighbors == 1 then [OpHello(source, ps[0].local.mac, fd, now), OpReply]
    else []
  }

  lemma {:induction false} RevisitSteps(s: Net, i: nat, fd: int, now: U64)
    requires Revisit(s, i, fd, now).Returns?
    ensures RunFrom(s, RevisitOps(s, i, fd, now)) == Revisit(s, i, fd, now).net
    decreases |s.recs| - i
  {
    if i < |s.recs| {
      var n := s.recs[i].node;
      var t := Receive(s, n, fd, now);
      ReceiveLength(s, n, fd, now);
      RevisitSteps(t, i + 1, fd, now);
      RunFromNext(s, OpReceive(n, fd, now), RevisitOps(t, i + 1, fd, now), t);
    }
  }

  lemma {:induction false} SeenSteps(s: Net, ps: seq<Node>, fd: int, now: U64)
    requires AddMembers(s, ps, fd, now).Returns?
    ensures RunFrom(s, SeenOps(s, ps, fd, now)) == AddMembers(s, ps, fd, now).net
    decreases |ps|
  {
    if ps != [] {
      var t := Receive(s, ps[0], fd, now);
      if Pushes(s, ps[0]) {
        RevisitSteps(t, 1, fd, now);
        RunFromNext(s, OpReceive(ps[0], fd, now), RevisitOps(t, 1, fd, now), t);
      } else {
        SeenSteps(t, ps[1..], fd, now);
        RunFromNext(s, OpReceive(ps[0], fd, now), SeenOps(t, ps[1..], fd, now), t);
      }
    }
  }

  /** What TCPHandle does with a packet, if it returns, is a run of steps: the records seen, one receive each, among
      them those of the list that the loop of add_members strays into. */
  lemma HandleIsSteps(me: ProxyInfo, ops: seq<Op>, numNeighbors: U16, source: ProxyInfo, ps: seq<Node>,
                      fd: int, now: U64)
    requires ps != [] && Handle(Run(me, ops), numNeighbors, source, ps, fd, now).Returns?
    ensures var s := Run(me, ops);
            var steps := PacketOps(s, numNeighbors, source, ps, fd, now);
            Run(me, ops + steps) == Handle(s, numNeighbors, source, ps, fd, now).net
  {
    var s := Run(me, ops);
    RunOn(me, ops, PacketOps(s, numNeighbors, source, ps, fd, now));
    if KeyOf(source.mac) in s.fds {
      SeenSteps(s, ps, fd, now);
    } else if IsZero(ps[0].remote.mac) {
      var h := Hello(s, source, source.mac, fd, now);
      SeenSteps(h, ps, fd, now);
      RunFromNext(s, OpHello(source, source.mac, fd, now), SeenOps(h, ps, fd, now), h);
    } else if numNeighbors == 1 {
      var h := Hello(s, source, ps[0].local.mac, fd, now);
      RunFromNext(s, OpHello(source, ps[0].local.mac, fd, now), [OpReply], h);
      RunFromNext(h, OpReply, [], Reply(h));
      assert [OpReply] + [] == [OpReply];
    }
  }

  // ----- what a packet keeps

  lemma AgreeTimes(s: Net, t: Net)
    requires SameButTimes(s, t) && Agree(s)
    ensures Agree(t)
  {
    forall k | k in t.fds ensures HasRecord(t.recs, k) {
      var i :| 0 <= i < |s.recs| && s.recs[i].RemoteMac() == k;
      assert SameBut(s.recs[i], t.recs[i]);
      assert t.recs[i].RemoteMac() == k;
    }
  }

  lemma BestTimes(s: Net, t: Net)
    requires SameButTimes(s, t) && BestSockets(s)
    ensures BestSockets(t)
  {
    forall i | 0 <= i < |t.recs| ensures t.recs[i].RemoteMac() in t.fds { assert SameBut(s.recs[i], t.recs[i]); }
    forall k | k in t.fds ensures Nearest(t.recs, k, t.fds[k]) {
      var i :| 0 <= i < |s.recs| && s.recs[i].RemoteMac() == k && s.recs[i].via == s.fds[k]
        && s.recs[i].node.linkweight == Lowest(s.recs, s.recs[i].RemoteMac());
      assert SameBut(s.recs[i], t.recs[i]);
      LowestTimes(s.recs, t.recs, s.recs[i].RemoteMac());
      assert t.recs[i].RemoteMac() == k;
    }
  }

  /** The first record that is pushed, if there is one, keeps the agreement of list and table. */
  ghost predicate PushProper(s: Net, ps: seq<Node>, fd: int, now: U64) {
    var k := FirstPushed(s, ps);
    k < |ps| ==> Proper(s, OpReceive(ps[k], fd, now))
  }

  /** A packet that returns keeps the agreement if and only if its first pushed record does. */
  lemma AddMembersAgrees(s: Net, ps: seq<Node>, fd: int, now: U64)
    requires Agree(s) && AddMembers(s, ps, fd, now).Returns?
    ensures Agree(AddMembers(s, ps, fd, now).net) <==> PushProper(s, ps, fd, now)
  {
    AddMembersExact(s, ps, fd, now);
    var k, t := FirstPushed(s, ps), AddMembers(s, ps, fd, now).net;
    if k == |ps| {
      TimesBack(t, s);
      AgreeTimes(s, t);
    } else {
      var r := Receive(s, ps[k], fd, now);
      ReceiveAgrees(s, ps[k], fd, now);
      TimesBack(t, r);
      if Agree(r) { AgreeTimes(r, t); }
      if Agree(t) { AgreeTimes(t, r); }
    }
  }

  lemma TimesBack(s: Net, t: Net)
    requires SameButTimes(s, t)
    ensures SameButTimes(t, s)
  {
  }

  lemma AddMembersKeepsBest(s: Net, ps: seq<Node>, fd: int, now: U64)
    requires BestSockets(s) && AddMembers(s, ps, fd, now).Returns?
    requires var k := FirstPushed(s, ps); k < |ps| ==> ZeroFree(ps[k].remote.mac)
    ensures BestSockets(AddMembers(s, ps, fd, now).net)
  {
    AddMembersExact(s, ps, fd, now);
    var k, t := FirstPushed(s, ps), AddMembers(s, ps, fd, now).net;
    if k == |ps| {
      TimesBack(t, s);
      BestTimes(s, t);
    } else {
      ReceiveKeepsBest(s, ps[k], fd, now);
      TimesBack(t, Receive(s, ps[k], fd, now));
      BestTimes(Receive(s, ps[k], fd, now), t);
    }
  }

  // ----- when it never returns

  /** In a state where every record has a socket, add_members returns after a push if and only if every record of the
      list has one the other way round. */
  lemma ServedListNeedsPairs(s: Net, ps: seq<Node>, fd: int, now: U64)
    requires AllServed(s) && FirstPushed(s, ps) < |ps|
    ensures var t := Receive(s, ps[FirstPushed(s, ps)], fd, now);
            AddMembers(s, ps, fd, now) == Endless <==>
              exists j {:trigger t.recs[j]} :: 1 <= j < |t.recs|
                && FindRec(t.recs, t.recs[j].node.local.ip, t.recs[j].node.remote.ip) == |t.recs|
  {
    AddMembersExact(s, ps, fd, now);
    StillServed(s, ps[FirstPushed(s, ps)], fd, now);
  }

  lemma StillServed(s: Net, n: Node, fd: int, now: U64)
    requires AllServed(s) && Pushes(s, n)
    ensures var t := Receive(s, n, fd, now);
            forall j {:trigger t.recs[j]} :: 1 <= j < |t.recs| ==> KeyOf(t.recs[j].RemoteMac()) in t.fds
  {
    var t := Receive(s, n, fd, now);
    forall j | 1 <= j < |t.recs| ensures KeyOf(t.recs[j].RemoteMac()) in t.fds { assert t.recs[j] == s.recs[j - 1]; }
  }
}
