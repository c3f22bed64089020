/**
  Which sockets the forwarding table has for the saved records: the nearest gateway's while
  records only come, and exactly when a deletion or a sweep leaves a record without one.
 */
module Gateways {
  import opened Elements
  import opened Wire
  import opened Membership
  import opened MembershipRuns
  import opened Expiry

  // ----- the socket of the nearest gateway

  /** Some record of the MAC came in on that socket, and none of the MAC has a smaller weight. */
  ghost predicate Nearest(recs: seq<Rec>, key: Key, fd: int) {
    exists i {:trigger recs[i]} :: 0 <= i < |recs| && recs[i].RemoteMac() == key && recs[i].via == fd
      && recs[i].node.linkweight == Lowest(recs, recs[i].RemoteMac())
  }

  /** Every saved MAC has a key, and every key the socket of a nearest gateway. */
  ghost predicate BestSockets(s: Net) {
    && (forall i :: 0 <= i < |s.recs| ==> s.recs[i].RemoteMac() in s.fds)
    && (forall k {:trigger k in s.fds} :: k in s.fds ==> ZeroFree(k) && Nearest(s.recs, k, s.fds[k]))
  }

  /** A step that brings a record, of a whole MAC if it is pushed, or a peer that a find has missed and that introduces
      itself by its whole MAC. */
  ghost predicate Insertion(s: Net, op: Op) {
    match op
    case OpReceive(n, fd, now) => Pushes(s, n) ==> ZeroFree(n.remote.mac)
    case OpHello(source, mac, fd, now) => ZeroFree(mac) && source.mac == mac && KeyOf(mac) !in s.fds
    case _ => false
  }

  ghost predicate Insertions(me: ProxyInfo, ops: seq<Op>) {
    ops != [] ==> Insertions(me, ops[..|ops| - 1]) && Insertion(Run(me, ops[..|ops| - 1]), ops[|ops| - 1])
  }

  lemma {:induction false} LowestTouched(recs: seq<Rec>, j: nat, now: U64, mac: Mac)
    requires j < |recs|
    ensures Lowest(recs[j := Touch(recs[j], now)], mac) == Lowest(recs, mac)
  {
    var t := recs[j := Touch(recs[j], now)];
    if j == 0 {
      assert t[1..] == recs[1..];
    } else {
      assert t[1..] == recs[1..][j - 1 := Touch(recs[1..][j - 1], now)];
      LowestTouched(recs[1..], j - 1, now, mac);
    }
  }

  lemma TouchKeepsNearest(recs: seq<Rec>, j: nat, now: U64, key: Key, fd: int)
    requires j < |recs| && Nearest(recs, key, fd)
    ensures Nearest(recs[j := Touch(recs[j], now)], key, fd)
  {
    var t := recs[j := Touch(recs[j], now)];
    var i :| 0 <= i < |recs| && recs[i].RemoteMac() == key && recs[i].via == fd
      && recs[i].node.linkweight == Lowest(recs, recs[i].RemoteMac());
    LowestTouched(recs, j, now, recs[i].RemoteMac());
    assert t[i].RemoteMac() == key;
  }

  /** A record that is not nearer than the nearest, or is of another MAC, changes nothing for the key. */
  lemma PushKeepsNearest(recs: seq<Rec>, r: Rec, key: Key, fd: int)
    requires Nearest(recs, key, fd) && (r.RemoteMac() == key ==> r.node.linkweight >= Lowest(recs, r.RemoteMac()))
    ensures Nearest([r] + recs, key, fd)
  {
    var i :| 0 <= i < |recs| && recs[i].RemoteMac() == key && recs[i].via == fd
      && recs[i].node.linkweight == Lowest(recs, recs[i].RemoteMac());
    assert ([r] + recs)[i + 1] == recs[i];
    assert ([r] + recs)[1..] == recs;
  }

  /** A nearer one becomes the nearest. */
  lemma PushNearer(recs: seq<Rec>, r: Rec)
    requires r.node.linkweight < Lowest(recs, r.RemoteMac()) || FirstOf(recs, r.RemoteMac()) == |recs|
    ensures Nearest([r] + recs, r.RemoteMac(), r.via)
  {
    LowestIsMinimum(recs, r.RemoteMac());
    assert ([r] + recs)[0] == r && ([r] + recs)[1..] == recs;
  }

  /** A new record in front, which takes over the key of its MAC exactly when it is nearer than all before. */
  lemma PushKeepsBest(s: Net, r: Rec, t: Net)
    requires BestSockets(s) && ZeroFree(r.RemoteMac()) && t.recs == [r] + s.recs
    requires if r.RemoteMac() in s.fds && r.node.linkweight >= Lowest(s.recs, r.RemoteMac()) then t.fds == s.fds
             else t.fds == s.fds[r.RemoteMac() := r.via]
    ensures BestSockets(t)
  {
    forall k | k in t.fds ensures ZeroFree(k) && Nearest(t.recs, k, t.fds[k]) {
      if k == r.RemoteMac() && (k !in s.fds || r.node.linkweight < Lowest(s.recs, k)) {
        PushNearer(s.recs, r);
      } else {
        PushKeepsNearest(s.recs, r, k, s.fds[k]);
      }
    }
    forall i | 0 <= i < |t.recs| ensures t.recs[i].RemoteMac() in t.fds {
      assert i > 0 ==> t.recs[i] == s.recs[i - 1];
    }
  }

  lemma TouchKeepsBest(s: Net, j: nat, now: U64)
    requires BestSockets(s) && j < |s.recs|
    ensures BestSockets(s.(recs := s.recs[j := Touch(s.recs[j], now)]))
  {
    forall k | k in s.fds ensures Nearest(s.recs[j := Touch(s.recs[j], now)], k, s.fds[k]) {
      TouchKeepsNearest(s.recs, j, now, k, s.fds[k]);
    }
  }

  lemma ReceiveKeepsBest(s: Net, n: Node, fd: int, now: U64)
    requires BestSockets(s) && (Pushes(s, n) ==> ZeroFree(n.remote.mac))
    ensures BestSockets(Receive(s, n, fd, now))
  {
    KeyIsMac(n.remote.mac);
    var t := Receive(s, n, fd, now);
    if |t.recs| > |s.recs| {
      PushKeepsBest(s, t.recs[0], t);
    } else if t != s {
      TouchKeepsBest(s, FindRec(s.recs, n.local.ip, n.remote.ip), now);
    }
  }

  lemma HelloKeepsBest(s: Net, source: ProxyInfo, mac: Mac, fd: int, now: U64)
    requires BestSockets(s) && ZeroFree(mac) && source.mac == mac && KeyOf(mac) !in s.fds
    ensures BestSockets(Hello(s, source, mac, fd, now))
  {
    KeyIsMac(mac);
    var t := Hello(s, source, mac, fd, now);
    PushKeepsBest(s, t.recs[0], t);
  }

  /** Over every run of insertions, the socket stored for a MAC is the gateway of a saved record of that MAC whose
      weight is the smallest, as an unsigned number, of all saved records of the MAC. */
  lemma {:induction false} SocketsAreNearest(me: ProxyInfo, ops: seq<Op>)
    requires Insertions(me, ops)
    ensures BestSockets(Run(me, ops))
    decreases |ops|
  {
    if ops != [] {
      var pre := ops[..|ops| - 1];
      SocketsAreNearest(me, pre);
      InsertionKeepsBest(Run(me, pre), ops[|ops| - 1]);
    }
  }

  lemma InsertionKeepsBest(s: Net, op: Op)
    requires BestSockets(s) && Insertion(s, op)
    ensures BestSockets(Step(s, op))
  {
    match op
    case OpReceive(n, fd, now) => ReceiveKeepsBest(s, n, fd, now);
    case OpHello(source, mac, fd, now) => HelloKeepsBest(s, source, mac, fd, now);
  }

  // ----- records without a socket

  /** Every saved record has a socket. */
  ghost predicate AllServed(s: Net) {
    forall i {:trigger s.recs[i]} :: 0 <= i < |s.recs| ==> KeyOf(s.recs[i].RemoteMac()) in s.fds
  }

  /** No record but the f-th has the key. */
  ghost predicate OnlyKey(recs: seq<Rec>, f: nat, key: Key) {
    forall i {:trigger recs[i]} :: 0 <= i < |recs| && i != f ==> KeyOf(recs[i].RemoteMac()) != key
  }

  ghost predicate Served(recs: seq<Rec>, fds: map<Key, int>) {
    forall r {:trigger r in recs} :: r in recs ==> KeyOf(r.RemoteMac()) in fds
  }

  ghost predicate NoneHas(recs: seq<Rec>, key: Key) {
    forall r {:trigger r in recs} :: r in recs ==> KeyOf(r.RemoteMac()) != key
  }

  lemma OnlyKeyDropped(recs: seq<Rec>, f: nat, key: Key)
    requires f < |recs|
    ensures OnlyKey(recs, f, key) <==> NoneHas(recs[..f] + recs[f + 1..], key)
  {
    var t := recs[..f] + recs[f + 1..];
    if NoneHas(t, key) {
      forall i | 0 <= i < |recs| && i != f ensures KeyOf(recs[i].RemoteMac()) != key {
        assert t[if i < f then i else i - 1] == recs[i];
        assert recs[i] in t;
      }
    }
  }

  lemma ServedByKeys(s: Net)
    ensures AllServed(s) <==> Served(s.recs, s.fds)
  {
    if Served(s.recs, s.fds) {
      forall i | 0 <= i < |s.recs| ensures KeyOf(s.recs[i].RemoteMac()) in s.fds { assert s.recs[i] in s.recs; }
    }
  }

  lemma ServedWithout(recs: seq<Rec>, fds: map<Key, int>, f: nat)
    requires f < |recs| && Served(recs, fds)
    ensures Served(recs[..f] + recs[f + 1..], fds)
  {
    forall r | r in recs[..f] + recs[f + 1..] ensures KeyOf(r.RemoteMac()) in fds { assert r in recs; }
  }

  lemma KeyTaken(recs: seq<Rec>, fds: map<Key, int>, key: Key)
    requires Served(recs, fds)
    ensures Served(recs, fds - {key}) <==> NoneHas(recs, key)
  {
  }

  /** A deletion takes the key with the first record of the MAC, so it leaves the others served if and only if none of
      them has that key. */
  lemma DeleteServes(s: Net, mac: Mac)
    requires AllServed(s) && FirstOf(s.recs, mac) < |s.recs|
    ensures AllServed(Delete(s, mac)) <==> OnlyKey(s.recs, FirstOf(s.recs, mac), KeyOf(mac))
  {
    var f := FirstOf(s.recs, mac);
    ServedByKeys(s);
    ServedByKeys(Delete(s, mac));
    ServedWithout(s.recs, s.fds, f);
    KeyTaken(s.recs[..f] + s.recs[f + 1..], s.fds, KeyOf(mac));
    OnlyKeyDropped(s.recs, f, KeyOf(mac));
  }

  /** Records with one key expire together. */
  ghost predicate ExpireTogether(recs: seq<Rec>, now: U64, timeout: int) {
    forall i, j {:trigger recs[i], recs[j]} :: 0 <= i < |recs| && 0 <= j < |recs|
      && KeyOf(recs[i].RemoteMac()) == KeyOf(recs[j].RemoteMac()) && Expired(recs[i], now, timeout)
      ==> Expired(recs[j], now, timeout)
  }

  /** Of a MAC with a live record some record survives. */
  lemma {:induction false} LastOf(recs: seq<Rec>, i: nat) returns (l: nat)
    requires i < |recs|
    ensures l < |recs| && recs[l].RemoteMac() == recs[i].RemoteMac()
    ensures CountOf(recs[..l], recs[i].RemoteMac()) + 1 == CountOf(recs, recs[i].RemoteMac())
    decreases |recs|
  {
    var pre, m := recs[..|recs| - 1], recs[i].RemoteMac();
    if recs[|recs| - 1].RemoteMac() == m {
      l := |recs| - 1;
    } else {
      l := LastOf(pre, i);
      assert pre[..l] == recs[..l];
    }
  }

  lemma LiveMacSurvives(recs: seq<Rec>, i: nat, now: U64, timeout: int) returns (l: nat)
    requires i < |recs| && !Expired(recs[i], now, timeout)
    ensures l < |recs| && recs[l].RemoteMac() == recs[i].RemoteMac()
    ensures recs[l] in Survivors([], recs, recs, now, timeout)
  {
    l := LastOf(recs, i);
    LiveAmong(recs, i, now, timeout);
    Survives(recs, 0, l, now, timeout);
    assert recs[..0] == [] && recs[0..] == recs;
  }

  /** Where a survivor stood. */
  lemma {:induction false} SurvivorAt(recs: seq<Rec>, i: nat, r: Rec, now: U64, timeout: int) returns (l: nat)
    requires i <= |recs| && r in Survivors(recs[..i], recs[i..], recs, now, timeout)
    ensures i <= l < |recs| && recs[l] == r
    ensures CountOf(recs[..l], r.RemoteMac()) >= ExpiredOf(recs, r.RemoteMac(), now, timeout)
    decreases |recs| - i
  {
    assert recs[i..] != [] && recs[i..][0] == recs[i] && recs[i..][1..] == recs[i + 1..];
    assert recs[..i] + [recs[i]] == recs[..i + 1];
    if r in Survivors(recs[..i + 1], recs[i + 1..], recs, now, timeout) {
      l := SurvivorAt(recs, i + 1, r, now, timeout);
    } else {
      l := i;
    }
  }

  /** Of a MAC whose records have all expired none survives. */
  lemma DeadMacGone(recs: seq<Rec>, r: Rec, now: U64, timeout: int)
    requires r in Survivors([], recs, recs, now, timeout)
    ensures exists j :: 0 <= j < |recs| && recs[j].RemoteMac() == r.RemoteMac() && !Expired(recs[j], now, timeout)
  {
    var m := r.RemoteMac();
    assert recs[..0] == [] && recs[0..] == recs;
    var l := SurvivorAt(recs, 0, r, now, timeout);
    if forall j :: 0 <= j < |recs| && recs[j].RemoteMac() == m ==> Expired(recs[j], now, timeout) {
      CountSplit(recs, |recs|, m, now, timeout);
      assert recs[..|recs|] == recs && recs[..l + 1] == recs[..l] + [recs[l]];
      CountNext(recs[..l], recs[l], m);
      CountPrefix(recs, l + 1, m);
      assert false;
    }
  }

  /** The sweep leaves every record served if and only if records with one key expire together. */
  lemma SweepServes(s: Net, now: U64, timeout: int)
    requires AllServed(s)
    ensures AllServed(Sweep(s, now, timeout)) <==> ExpireTogether(s.recs, now, timeout)
  {
    SweepEffect(s, now, timeout);
    var t := Sweep(s, now, timeout);
    if ExpireTogether(s.recs, now, timeout) {
      forall i | 0 <= i < |t.recs| ensures KeyOf(t.recs[i].RemoteMac()) in t.fds {
        SurvivorServed(s, t.recs[i], now, timeout);
      }
    } else {
      var i, j :| 0 <= i < |s.recs| && 0 <= j < |s.recs| && KeyOf(s.recs[i].RemoteMac()) == KeyOf(s.recs[j].RemoteMac())
        && Expired(s.recs[i], now, timeout) && !Expired(s.recs[j], now, timeout);
      var l := LiveMacSurvives(s.recs, j, now, timeout);
      var k :| 0 <= k < |t.recs| && t.recs[k] == s.recs[l];
      assert s.recs[i] in s.recs;
      assert KeyOf(t.recs[k].RemoteMac()) !in t.fds;
    }
  }

  lemma SurvivorServed(s: Net, r: Rec, now: U64, timeout: int)
    requires AllServed(s) && ExpireTogether(s.recs, now, timeout) && r in Survivors([], s.recs, s.recs, now, timeout)
    ensures KeyOf(r.RemoteMac()) in s.fds && KeyOf(r.RemoteMac()) !in ExpiredKeys(s.recs, now, timeout)
  {
    DeadMacGone(s.recs, r, now, timeout);
    var j :| 0 <= j < |s.recs| && s.recs[j].RemoteMac() == r.RemoteMac() && !Expired(s.recs[j], now, timeout);
    assert KeyOf(s.recs[j].RemoteMac()) in s.fds;
  }

  // ----- sweeps and the nearest gateway

  lemma {:induction false} LowestAlive(recs: seq<Rec>, mac: Mac, now: U64, timeout: int)
    requires forall i {:trigger recs[i]} ::
               0 <= i < |recs| && recs[i].RemoteMac() == mac ==> !Expired(recs[i], now, timeout)
    ensures Lowest(Alive(recs, now, timeout), mac) == Lowest(recs, mac)
  {
    if recs != [] {
      LowestAlive(recs[1..], mac, now, timeout);
      var tail := Alive(recs[1..], now, timeout);
      assert ([recs[0]] + tail)[1..] == tail;
    }
  }

  /** Where every record has its whole MAC as a key, all are served. */
  lemma BestIsServed(s: Net)
    requires BestSockets(s)
    ensures AllServed(s)
  {
    forall i | 0 <= i < |s.recs| ensures KeyOf(s.recs[i].RemoteMac()) in s.fds { KeyIsMac(s.recs[i].RemoteMac()); }
  }

  lemma TogetherIsFirst(recs: seq<Rec>, now: U64, timeout: int)
    requires ExpireTogether(recs, now, timeout)
    ensures ExpiredFirst(recs, now, timeout)
    ensures Survivors([], recs, recs, now, timeout) == Alive(recs, now, timeout)
  {
    SweepIsFilter(recs, now, timeout);
  }

  /** A nearest gateway whose key the sweep leaves has not expired, and is nearest still. */
  lemma NearestAlive(recs: seq<Rec>, key: Key, fd: int, now: U64, timeout: int)
    requires Nearest(recs, key, fd) && ZeroFree(key) && key !in ExpiredKeys(recs, now, timeout)
    ensures Nearest(Alive(recs, now, timeout), key, fd)
  {
    var t := Alive(recs, now, timeout);
    var i :| 0 <= i < |recs| && recs[i].RemoteMac() == key && recs[i].via == fd
      && recs[i].node.linkweight == Lowest(recs, recs[i].RemoteMac());
    var m := recs[i].RemoteMac();
    KeyIsMac(m);
    assert recs[i] in recs;
    forall j | 0 <= j < |recs| && recs[j].RemoteMac() == m ensures !Expired(recs[j], now, timeout) {
      assert recs[j] in recs;
    }
    LowestAlive(recs, m, now, timeout);
    AliveAreAlive(recs, now, timeout);
    assert recs[i] in t;
    var l :| 0 <= l < |t| && t[l] == recs[i];
  }

  lemma AliveServed(s: Net, r: Rec, now: U64, timeout: int)
    requires BestSockets(s) && ExpireTogether(s.recs, now, timeout) && r in Alive(s.recs, now, timeout)
    ensures r.RemoteMac() in s.fds && r.RemoteMac() !in ExpiredKeys(s.recs, now, timeout)
  {
    AliveAreAlive(s.recs, now, timeout);
    var i :| 0 <= i < |s.recs| && s.recs[i] == r;
    KeyIsMac(r.RemoteMac());
  }

  lemma AliveBest(s: Net, t: Net, now: U64, timeout: int)
    requires BestSockets(s) && ExpireTogether(s.recs, now, timeout)
    requires t.recs == Alive(s.recs, now, timeout) && t.fds == s.fds - ExpiredKeys(s.recs, now, timeout)
    ensures BestSockets(t)
  {
    forall i | 0 <= i < |t.recs| ensures t.recs[i].RemoteMac() in t.fds { AliveServed(s, t.recs[i], now, timeout); }
    forall k | k in t.fds ensures ZeroFree(k) && Nearest(t.recs, k, t.fds[k]) {
      NearestAlive(s.recs, k, s.fds[k], now, timeout);
    }
  }

  /** A sweep leaves every MAC with the socket of a nearest gateway if and only if records with one key expire
      together. */
  lemma SweepKeepsBest(s: Net, now: U64, timeout: int)
    requires BestSockets(s)
    ensures BestSockets(Sweep(s, now, timeout)) <==> ExpireTogether(s.recs, now, timeout)
  {
    var t := Sweep(s, now, timeout);
    BestIsServed(s);
    SweepServes(s, now, timeout);
    if ExpireTogether(s.recs, now, timeout) {
      SweepEffect(s, now, timeout);
      TogetherIsFirst(s.recs, now, timeout);
      AliveBest(s, t, now, timeout);
    } else if BestSockets(t) {
      BestIsServed(t);
    }
  }

  // ----- weights and sockets of received records

  /** A further record of a MAC that has a socket, from a near end no record is saved for: adding the -1 that stands for
      no distance takes one off its weight. */
  lemma UnsavedNearEnd(s: Net, n: Node, fd: int, now: U64)
    requires Pushes(s, n) && KeyOf(n.remote.mac) in s.fds && FirstOf(s.recs, n.local.mac) == |s.recs|
    ensures Receive(s, n, fd, now).recs[0].node.linkweight
         == if n.linkweight == 0 then 0xFFFF_FFFF else n.linkweight - 1
  {
    LowestIsMinimum(s.recs, n.local.mac);
  }

  /** It takes over the socket if and only if it is strictly nearer than every saved one of its MAC and than the largest
      weight there is. */
  lemma SocketMoves(s: Net, n: Node, fd: int, now: U64)
    requires Pushes(s, n) && KeyOf(n.remote.mac) in s.fds
    ensures var t := Receive(s, n, fd, now); var w := t.recs[0].node.linkweight;
            var nearer := forall r :: r in s.recs && r.RemoteMac() == n.remote.mac ==> w < r.node.linkweight;
            t.fds == if w < 0xFFFF_FFFF && nearer then s.fds[KeyOf(n.remote.mac) := fd] else s.fds
  {
    LowestIsMinimum(s.recs, n.remote.mac);
    var w := Receive(s, n, fd, now).recs[0].node.linkweight;
    if forall r :: r in s.recs && r.RemoteMac() == n.remote.mac ==> w < r.node.linkweight {
      assert forall i :: 0 <= i < |s.recs| ==> s.recs[i] in s.recs;
    }
  }
}
