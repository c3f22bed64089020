/**
  The loop of add_members, exactly. It follows `next` after add_member_connect has
  overwritten it, so once a record of the packet has been pushed the loop goes on through
  the membership list; when it ends, and with what, is decided here.
 */
module MemberLoop {
  import opened Wire
  import opened Membership

  /** Two records with the same contents but for the time. */
  predicate SameBut(r: Rec, t: Rec) {
    r.via == t.via && r.node.(id := 0) == t.node.(id := 0)
  }

  /** The same list and table but for the times of the records. */
  ghost predicate SameButTimes(s: Net, t: Net) {
    && s.me == t.me && s.size == t.size && s.fds == t.fds && |s.recs| == |t.recs|
    && forall i {:trigger s.recs[i]} {:trigger t.recs[i]} :: 0 <= i < |s.recs| ==> SameBut(s.recs[i], t.recs[i])
  }

  lemma {:induction false} FindRecTimes(r: seq<Rec>, t: seq<Rec>, localIp: U32, remoteIp: U32)
    requires |r| == |t| && forall i :: 0 <= i < |r| ==> SameBut(r[i], t[i])
    ensures FindRec(r, localIp, remoteIp) == FindRec(t, localIp, remoteIp)
  {
    if r != [] {
      assert SameBut(r[0], t[0]);
      FindRecTimes(r[1..], t[1..], localIp, remoteIp);
    }
  }

  lemma {:induction false} LowestTimes(r: seq<Rec>, t: seq<Rec>, mac: Mac)
    requires |r| == |t| && forall i :: 0 <= i < |r| ==> SameBut(r[i], t[i])
    ensures Lowest(r, mac) == Lowest(t, mac)
  {
    if r != [] { LowestTimes(r[1..], t[1..], mac); }
  }

  /** Whether a record is pushed does not depend on times. */
  lemma PushesTimes(s: Net, t: Net, n: Node, m: Node)
    requires SameButTimes(s, t) && n.local == m.local && n.remote == m.remote
    ensures Pushes(s, n) <==> Pushes(t, m)
  {
    FindRecTimes(s.recs, t.recs, n.local.ip, n.remote.ip);
  }

  /** A record that is not pushed changes nothing but a time. */
  lemma NoPush(s: Net, n: Node, fd: int, now: U64)
    requires !Pushes(s, n)
    ensures SameButTimes(Receive(s, n, fd, now), s)
  {
  }

  lemma ReceiveTimes(s: Net, t: Net, n: Node, fd: int, now: U64)
    requires SameButTimes(s, t) && Pushes(s, n)
    ensures SameButTimes(Receive(s, n, fd, now), Receive(t, n, fd, now))
  {
    FindRecTimes(s.recs, t.recs, n.local.ip, n.remote.ip);
    LowestTimes(s.recs, t.recs, n.local.mac);
    LowestTimes(s.recs, t.recs, n.remote.mac);
    var a, b := Receive(s, n, fd, now), Receive(t, n, fd, now);
    forall i | 0 <= i < |a.recs| ensures SameBut(a.recs[i], b.recs[i]) {
      if i > 0 { assert a.recs[i] == s.recs[i - 1] && b.recs[i] == t.recs[i - 1]; }
    }
  }

  // ----- the walk through the list

  /** Some record from the i-th on would be pushed a second time. */
  ghost predicate Recurs(s: Net, i: nat) {
    exists j {:trigger s.recs[j]} :: i <= j < |s.recs| && Pushes(s, s.recs[j].node)
  }

  lemma RecursTimes(s: Net, t: Net, i: nat)
    requires SameButTimes(s, t) && Recurs(s, i)
    ensures Recurs(t, i)
  {
    var j :| i <= j < |s.recs| && Pushes(s, s.recs[j].node);
    assert SameBut(s.recs[j], t.recs[j]);
    PushesTimes(s, t, s.recs[j].node, t.recs[j].node);
  }

  lemma RecursNext(s: Net, i: nat, fd: int, now: U64)
    requires i < |s.recs| && !Pushes(s, s.recs[i].node)
    ensures var t := Receive(s, s.recs[i].node, fd, now); SameButTimes(t, s) && (Recurs(t, i + 1) <==> Recurs(s, i))
  {
    var t := Receive(s, s.recs[i].node, fd, now);
    NoPush(s, s.recs[i].node, fd, now);
    if Recurs(t, i + 1) { RecursTimes(t, s, i + 1); }
    if Recurs(s, i) { RecursTimes(s, t, i + 1); }
  }

  /** It comes to the end if and only if no record ahead would be pushed, and then only times have changed. */
  lemma {:induction false} RevisitExact(s: Net, i: nat, fd: int, now: U64)
    ensures Revisit(s, i, fd, now) == Endless <==> Recurs(s, i)
    ensures Revisit(s, i, fd, now).Returns? ==> SameButTimes(Revisit(s, i, fd, now).net, s)
    decreases |s.recs| - i
  {
    if i < |s.recs| && !Pushes(s, s.recs[i].node) {
      RecursNext(s, i, fd, now);
      RevisitExact(Receive(s, s.recs[i].node, fd, now), i + 1, fd, now);
    }
  }

  // ----- the packet

  /** The first record of the packet that is pushed. */
  function FirstPushed(s: Net, ps: seq<Node>): (k: nat)
    ensures k <= |ps|
    ensures k < |ps| ==> Pushes(s, ps[k])
    ensures forall i :: 0 <= i < k ==> !Pushes(s, ps[i])
  {
    if ps == [] || Pushes(s, ps[0]) then 0 else 1 + FirstPushed(s, ps[1..])
  }

  lemma {:induction false} FirstPushedTimes(s: Net, t: Net, ps: seq<Node>)
    requires SameButTimes(s, t)
    ensures FirstPushed(s, ps) == FirstPushed(t, ps)
  {
    if ps != [] {
      PushesTimes(s, t, ps[0], ps[0]);
      FirstPushedTimes(s, t, ps[1..]);
    }
  }

  /** What add_members comes to when p is the first record that is pushed, in a state that is s but for times: it
      returns if and only if no record of the list would be pushed in the state that p leaves. */
  ghost predicate Decided(s: Net, p: Node, fd: int, now: U64, o: Outcome) {
    var t := Receive(s, p, fd, now);
    (o == Endless <==> Recurs(t, 1)) && (o.Returns? ==> SameButTimes(o.net, t))
  }

  lemma DecidedTimes(s: Net, t: Net, p: Node, fd: int, now: U64, o: Outcome)
    requires SameButTimes(s, t) && Pushes(t, p) && Decided(s, p, fd, now, o)
    ensures Decided(t, p, fd, now, o)
  {
    PushesTimes(s, t, p, p);
    ReceiveTimes(s, t, p, fd, now);
    ReceiveTimes(t, s, p, fd, now);
    var a, b := Receive(s, p, fd, now), Receive(t, p, fd, now);
    if Recurs(a, 1) { RecursTimes(a, b, 1); }
    if Recurs(b, 1) { RecursTimes(b, a, 1); }
  }

  /** The exact effect of add_members. If no record of the packet is pushed it returns, with at most times changed. If
      p is the first that is, it returns if and only if no record of the list would be pushed in the state that p
      leaves, and then leaves that state but for times; otherwise it closes the list to a ring and never returns. */
  lemma {:induction false} AddMembersExact(s: Net, ps: seq<Node>, fd: int, now: U64)
    ensures var k, o := FirstPushed(s, ps), AddMembers(s, ps, fd, now);
            if k == |ps| then o.Returns? && SameButTimes(o.net, s) else Decided(s, ps[k], fd, now, o)
    decreases |ps|
  {
    if ps != [] {
      var t := Receive(s, ps[0], fd, now);
      if Pushes(s, ps[0]) {
        RevisitExact(t, 1, fd, now);
      } else {
        NoPush(s, ps[0], fd, now);
        FirstPushedTimes(s, t, ps[1..]);
        AddMembersExact(t, ps[1..], fd, now);
        var k := FirstPushed(s, ps);
        if k < |ps| {
          assert ps[k] == ps[1..][k - 1];
          DecidedTimes(t, s, ps[k], fd, now, AddMembers(t, ps[1..], fd, now));
        }
      }
    }
  }

  /** What stands behind the first pushed record in the packet is never seen. */
  lemma {:induction false} RestUnseen(s: Net, ps: seq<Node>, fd: int, now: U64)
    requires FirstPushed(s, ps) < |ps|
    ensures AddMembers(s, ps, fd, now) == AddMembers(s, ps[..FirstPushed(s, ps) + 1], fd, now)
    decreases |ps|
  {
    var k := FirstPushed(s, ps);
    if k > 0 {
      var t := Receive(s, ps[0], fd, now);
      NoPush(s, ps[0], fd, now);
      FirstPushedTimes(s, t, ps[1..]);
      RestUnseen(t, ps[1..], fd, now);
      assert ps[..k + 1][1..] == ps[1..][..k];
    }
  }

  // ----- times

  /** "But it was me": a record whose MAC has no socket renews the first one the other way round. */
  predicate Renews(s: Net, n: Node, i: nat) {
    KeyOf(n.remote.mac) !in s.fds && FindRec(s.recs, n.local.ip, n.remote.ip) == i
  }

  /** Of the records of the list the one that is renewed gets the time, and all others keep theirs. */
  lemma ReceiveRenews(s: Net, n: Node, fd: int, now: U64, i: nat)
    requires !Pushes(s, n) && i < |s.recs|
    ensures var t := Receive(s, n, fd, now);
            && |t.recs| == |s.recs| && t.fds == s.fds && t.recs[i].via == s.recs[i].via
            && t.recs[i].node == s.recs[i].node.(id := if Renews(s, n, i) then now else s.recs[i].node.id)
  {
  }

  /** A packet of which nothing is pushed renews exactly these. */
  lemma {:induction false} PacketRenews(s: Net, ps: seq<Node>, fd: int, now: U64, i: nat)
    requires FirstPushed(s, ps) == |ps| && i < |s.recs|
    ensures AddMembers(s, ps, fd, now).Returns?
    ensures var t := AddMembers(s, ps, fd, now).net;
            && |t.recs| == |s.recs| && t.fds == s.fds && t.recs[i].via == s.recs[i].via
            && t.recs[i].node
               == s.recs[i].node.(id := if exists p :: p in ps && Renews(s, p, i) then now else s.recs[i].node.id)
    decreases |ps|
  {
    if ps != [] {
      var t := Receive(s, ps[0], fd, now);
      ReceiveRenews(s, ps[0], fd, now, i);
      NoPush(s, ps[0], fd, now);
      FirstPushedTimes(s, t, ps[1..]);
      PacketRenews(t, ps[1..], fd, now, i);
      forall p ensures Renews(t, p, i) <==> Renews(s, p, i) {
        FindRecTimes(t.recs, s.recs, p.local.ip, p.remote.ip);
      }
      assert forall p :: p in ps <==> p == ps[0] || p in ps[1..];
    }
  }
}
