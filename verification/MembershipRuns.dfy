/**
  What whole runs of the membership steps keep: how list and `size` drift apart, which
  keys the forwarding table can have, and whose socket it hands out.
 */
module MembershipRuns {
  import opened Elements
  import opened Wire
  import opened Membership

  datatype Op =
    | OpReceive(n: Node, fd: int, now: U64)
    | OpHello(source: ProxyInfo, mac: Mac, fd: int, now: U64)
    | OpReply
    | OpDelete(mac: Mac)
    | OpSweep(now: U64, timeout: int)

  function Step(s: Net, op: Op): Net {
    match op
    case OpReceive(n, fd, now) => Receive(s, n, fd, now)
    case OpHello(source, mac, fd, now) => Hello(s, source, mac, fd, now)
    case OpReply => Reply(s)
    case OpDelete(mac) => Delete(s, mac)
    case OpSweep(now, timeout) => Sweep(s, now, timeout)
  }

  function Start(me: ProxyInfo): Net {
    Net(me, [], 0, map[])
  }

  function Run(me: ProxyInfo, ops: seq<Op>): (s: Net) {
    if ops == [] then Start(me) else Step(Run(me, ops[..|ops| - 1]), ops[|ops| - 1])
  }

  lemma RunNext(me: ProxyInfo, ops: seq<Op>, op: Op)
    ensures Run(me, ops + [op]) == Step(Run(me, ops), op)
  {
    assert (ops + [op])[..|ops|] == ops;
  }

  /** The steps of a run from a given state on. */
  function RunFrom(s: Net, ops: seq<Op>): Net
    decreases |ops|
  {
    if ops == [] then s else RunFrom(Step(s, ops[0]), ops[1..])
  }

  lemma RunFromNext(s: Net, op: Op, more: seq<Op>, t: Net)
    requires t == Step(s, op)
    ensures RunFrom(s, [op] + more) == RunFrom(t, more)
  {
    assert ([op] + more)[1..] == more;
  }

  lemma Regroup<T>(s: seq<T>, t: seq<T>)
    requires t != []
    ensures s + [t[0]] + t[1..] == s + t && [t[0]] + t[1..] == t
  {
  }

  lemma RunOnNext(me: ProxyInfo, ops: seq<Op>, op: Op, rest: seq<Op>)
    ensures RunFrom(Run(me, ops + [op]), rest) == RunFrom(Run(me, ops), [op] + rest)
  {
    RunNext(me, ops, op);
    RunFromNext(Run(me, ops), op, rest, Run(me, ops + [op]));
  }

  lemma {:induction false} RunOn(me: ProxyInfo, ops: seq<Op>, more: seq<Op>)
    ensures Run(me, ops + more) == RunFrom(Run(me, ops), more)
    decreases |more|
  {
    if more == [] {
      assert ops + more == ops;
    } else {
      Regroup(ops, more);
      RunOn(me, ops + [more[0]], more[1..]);
      RunOnNext(me, ops, more[0], more[1..]);
    }
  }

  // ----- size against length

  /** How many records the replies of a run have cut off. */
  function CutOff(me: ProxyInfo, ops: seq<Op>): nat {
    if ops == [] then 0
    else
      var s := Run(me, ops[..|ops| - 1]);
      CutOff(me, ops[..|ops| - 1]) + if ops[|ops| - 1].OpReply? && s.recs != [] then |s.recs| - 1 else 0
  }

  lemma {:induction false} SweepKeepsGap(s: Net, rest: seq<Rec>, now: U64, timeout: int)
    ensures var t := SweepFrom(s, rest, now, timeout); t.size - |t.recs| == s.size - |s.recs| && t.me == s.me
    decreases |rest|
  {
    if rest != [] {
      SweepKeepsGap(Visited(s, rest[0], now, timeout), rest[1..], now, timeout);
    }
  }

  /** Conservation, over every run: `size` is the length of the list and what replies have cut off it, so the two
      agree as long as, and only as long as, no reply has cut anything off. */
  lemma {:induction false} SizeCountsCutOff(me: ProxyInfo, ops: seq<Op>)
    ensures Run(me, ops).size == |Run(me, ops).recs| + CutOff(me, ops) && Run(me, ops).me == me
    ensures Run(me, ops).size == |Run(me, ops).recs| <==> CutOff(me, ops) == 0
    decreases |ops|
  {
    if ops != [] {
      var pre := ops[..|ops| - 1];
      SizeCountsCutOff(me, pre);
      match ops[|ops| - 1] {
        case OpSweep(now, timeout) => SweepKeepsGap(Run(me, pre), Run(me, pre).recs, now, timeout);
        case _ =>
      }
    }
  }

  lemma CutOffNext(me: ProxyInfo, ops: seq<Op>, op: Op)
    ensures CutOff(me, ops + [op])
         == CutOff(me, ops) + if op.OpReply? && Run(me, ops).recs != [] then |Run(me, ops).recs| - 1 else 0
  {
    assert (ops + [op])[..|ops|] == ops;
  }

  /** The second peer to introduce itself cuts off the record of the first: `size` is two, the list has one record. */
  lemma SecondReplyCuts(me: ProxyInfo, a: ProxyInfo, m: Mac, b: ProxyInfo, n: Mac, fd: int, now: U64)
    ensures var ops := [OpHello(a, m, fd, now), OpReply, OpHello(b, n, fd, now), OpReply];
            CutOff(me, ops) == 1 && Run(me, ops).size == 2 && |Run(me, ops).recs| == 1
  {
    var h, g := OpHello(a, m, fd, now), OpHello(b, n, fd, now);
    var p: seq<Op>, q, r := [], [h], [h] + [OpReply];
    var t := r + [g];
    RunNext(me, p, h);
    CutOffNext(me, p, h);
    assert p + [h] == q;
    RunNext(me, q, OpReply);
    CutOffNext(me, q, OpReply);
    RunNext(me, r, g);
    CutOffNext(me, r, g);
    RunNext(me, t, OpReply);
    CutOffNext(me, t, OpReply);
    assert t + [OpReply] == [h, OpReply, g, OpReply];
  }

  // ----- the packet made of the list

  /** b starts with the packet made of s, and is long enough for the nodes its length field stands for. */
  predicate Carries(b: seq<Byte>, s: Net, nodeSize: nat) {
    && s.size >= 0
    && var l := LinkOf(s, nodeSize);
       |Encode(l)| <= |b| && b[..|Encode(l)|] == Encode(l) && 18 + 36 * NumNodes(l.head.length) <= |b|
  }

  /** The packet made after a run comes back if and only if its length stands for the records that no reply has cut
      off: unless that length wraps, with records of 36 bytes if nothing was cut off, with 40 if also there are at most
      eight. */
  lemma AdvertUnderstood(me: ProxyInfo, ops: seq<Op>, nodeSize: nat, b: seq<Byte>)
    requires Carries(b, Run(me, ops), nodeSize)
    ensures LengthField(b) == HeaderLength(nodeSize, Run(me, ops).size)
    ensures var s := Run(me, ops);
            Decode(b) == LinkOf(s, nodeSize) <==> NumNodes(HeaderLength(nodeSize, s.size)) + CutOff(me, ops) == s.size
    ensures var s := Run(me, ops); nodeSize == 36 && 14 + 36 * s.size < 0x1_0000 ==>
              (Decode(b) == LinkOf(s, nodeSize) <==> CutOff(me, ops) == 0)
    ensures var s := Run(me, ops); nodeSize == 40 && 14 + 40 * s.size < 0x1_0000 ==>
              (Decode(b) == LinkOf(s, nodeSize) <==> CutOff(me, ops) == 0 && |s.recs| <= 8)
  {
    var s := Run(me, ops);
    SizeCountsCutOff(me, ops);
    LinkRoundTrip(LinkOf(s, nodeSize), b);
    UnpaddedCount(s.size);
    PaddedCount(s.size);
  }

  /** What sendPackets hands to send, header included, unless the length wraps: the packet, and behind it whatever is in
      the buffer, 36 or 40 bytes for each record cut off and, with 40, four for each record there is. */
  lemma BytesSent(me: ProxyInfo, ops: seq<Op>)
    ensures var s := Run(me, ops);
            && s.size >= 0
            && (14 + 36 * s.size < 0x1_0000 ==>
                  HeaderLength(36, s.size) + 4 == |Encode(LinkOf(s, 36))| + 36 * CutOff(me, ops))
            && (14 + 40 * s.size < 0x1_0000 ==>
                  HeaderLength(40, s.size) + 4 == |Encode(LinkOf(s, 40))| + 4 * |s.recs| + 40 * CutOff(me, ops))
  {
    var s := Run(me, ops);
    SizeCountsCutOff(me, ops);
    if 14 + 36 * s.size < 0x1_0000 { Unwrapped(36, s.size); }
    if 14 + 40 * s.size < 0x1_0000 { Unwrapped(40, s.size); }
    EncodedLength(LinkOf(s, 36), |s.recs|);
    EncodedLength(LinkOf(s, 40), |s.recs|);
  }

  lemma EncodedLength(l: Link, n: nat)
    requires |l.nodes| == n
    ensures |Encode(l)| == 18 + 36 * n
  {
  }

  // ----- the keys of the table

  ghost predicate HasRecord(recs: seq<Rec>, key: Key) {
    exists i {:trigger recs[i]} :: 0 <= i < |recs| && recs[i].RemoteMac() == key
  }

  /** List and table agree: the size is right, and every key is the whole MAC of a record and of another machine. */
  ghost predicate Agree(s: Net) {
    && s.size == |s.recs|
    && forall k {:trigger k in s.fds} :: k in s.fds ==> ZeroFree(k) && k != s.me.mac && HasRecord(s.recs, k)
  }

  /** The steps that keep this: a record whose MAC, if it is to become a key, is whole; a peer that introduces itself by
      a whole MAC, not the proxy's own, which some record has; a reply that cuts nothing off; any deletion or sweep. */
  ghost predicate Proper(s: Net, op: Op) {
    match op
    case OpReceive(n, fd, now) =>
      KeyOf(n.remote.mac) in s.fds || IsZero(n.remote.mac) || n.remote.mac == s.me.mac || ZeroFree(n.remote.mac)
    case OpHello(source, mac, fd, now) =>
      ZeroFree(source.mac) && source.mac != s.me.mac && (source.mac == mac || HasRecord(s.recs, source.mac))
    case OpReply => |s.recs| <= 1
    case OpDelete(mac) => true
    case OpSweep(now, timeout) => true
  }

  ghost predicate ProperRun(me: ProxyInfo, ops: seq<Op>) {
    ops != [] ==> ProperRun(me, ops[..|ops| - 1]) && Proper(Run(me, ops[..|ops| - 1]), ops[|ops| - 1])
  }

  ghost predicate AgreesThroughout(me: ProxyInfo, ops: seq<Op>) {
    Agree(Run(me, ops)) && (ops != [] ==> AgreesThroughout(me, ops[..|ops| - 1]))
  }

  lemma RecordPushed(recs: seq<Rec>, r: Rec, key: Key)
    ensures HasRecord([r] + recs, key) <==> HasRecord(recs, key) || r.RemoteMac() == key
  {
    var t := [r] + recs;
    assert t[0] == r && forall i :: 0 <= i < |recs| ==> t[i + 1] == recs[i];
    if HasRecord(recs, key) {
      var i :| 0 <= i < |recs| && recs[i].RemoteMac() == key;
      assert t[i + 1].RemoteMac() == key;
    }
    if HasRecord(t, key) && r.RemoteMac() != key {
      var i :| 0 <= i < |t| && t[i].RemoteMac() == key;
      assert recs[i - 1] == t[i];
    }
  }

  /** A key that a record has as its whole MAC is the key of no other MAC. */
  lemma RecordKeyIsWhole(recs: seq<Rec>, mac: Mac)
    requires HasRecord(recs, KeyOf(mac))
    ensures ZeroFree(mac) && KeyOf(mac) == mac
  {
    KeyIsPrefix(mac);
    KeyIsMac(mac);
  }

  lemma TouchKeepsRecords(recs: seq<Rec>, j: nat, now: U64, key: Key)
    requires j < |recs| && HasRecord(recs, key)
    ensures HasRecord(recs[j := Touch(recs[j], now)], key)
  {
    var i :| 0 <= i < |recs| && recs[i].RemoteMac() == key;
    assert recs[j := Touch(recs[j], now)][i].RemoteMac() == key;
  }

  lemma DropKeepsRecords(recs: seq<Rec>, j: nat, key: Key)
    requires j < |recs| && HasRecord(recs, key) && recs[j].RemoteMac() != key
    ensures HasRecord(recs[..j] + recs[j + 1..], key)
  {
    var i :| 0 <= i < |recs| && recs[i].RemoteMac() == key;
    var r := recs[..j] + recs[j + 1..];
    assert r[if i < j then i else i - 1] == recs[i];
  }

  lemma PushAgrees(s: Net, r: Rec, key: Key, t: Net)
    requires Agree(s) && t.me == s.me && t.recs == [r] + s.recs && t.size == s.size + 1
    requires t.fds.Keys == s.fds.Keys + {key}
    ensures Agree(t) <==> ZeroFree(key) && key != s.me.mac && (r.RemoteMac() == key || HasRecord(s.recs, key))
  {
    forall k ensures HasRecord(t.recs, k) <==> HasRecord(s.recs, k) || r.RemoteMac() == k {
      RecordPushed(s.recs, r, k);
    }
    assert key in t.fds;
    assert forall k :: k in s.fds ==> k in t.fds;
  }

  lemma ReceiveAgrees(s: Net, n: Node, fd: int, now: U64)
    requires Agree(s)
    ensures Agree(Receive(s, n, fd, now)) <==> Proper(s, OpReceive(n, fd, now))
  {
    var t, key := Receive(s, n, fd, now), KeyOf(n.remote.mac);
    KeyIsMac(n.remote.mac);
    if |t.recs| > |s.recs| {
      PushAgrees(s, t.recs[0], key, t);
      if HasRecord(s.recs, key) { RecordKeyIsWhole(s.recs, n.remote.mac); }
    } else if t != s {
      forall k | k in t.fds ensures HasRecord(t.recs, k) {
        TouchKeepsRecords(s.recs, FindRec(s.recs, n.local.ip, n.remote.ip), now, k);
      }
    }
  }

  lemma HelloAgrees(s: Net, source: ProxyInfo, mac: Mac, fd: int, now: U64)
    requires Agree(s)
    ensures Agree(Hello(s, source, mac, fd, now)) <==> Proper(s, OpHello(source, mac, fd, now))
  {
    var t := Hello(s, source, mac, fd, now);
    KeyIsMac(source.mac);
    PushAgrees(s, t.recs[0], KeyOf(source.mac), t);
    if HasRecord(t.recs, KeyOf(source.mac)) { RecordKeyIsWhole(t.recs, source.mac); }
    RecordPushed(s.recs, t.recs[0], KeyOf(source.mac));
  }

  lemma ReplyAgrees(s: Net)
    requires Agree(s)
    ensures Agree(Reply(s)) <==> Proper(s, OpReply)
  {
    if |s.recs| == 1 { assert s.recs[..1] == s.recs; }
  }

  lemma DeleteKeepsAgree(s: Net, mac: Mac)
    requires Agree(s)
    ensures Agree(Delete(s, mac))
  {
    var i := FirstOf(s.recs, mac);
    var t := Delete(s, mac);
    if i < |s.recs| {
      forall k | k in t.fds ensures HasRecord(t.recs, k) {
        if k == mac { KeyIsMac(mac); }
        DropKeepsRecords(s.recs, i, k);
      }
    }
  }

  lemma {:induction false} SweepKeepsAgree(s: Net, rest: seq<Rec>, now: U64, timeout: int)
    requires Agree(s)
    ensures Agree(SweepFrom(s, rest, now, timeout))
    decreases |rest|
  {
    if rest != [] {
      DeleteKeepsAgree(s, rest[0].RemoteMac());
      SweepKeepsAgree(Visited(s, rest[0], now, timeout), rest[1..], now, timeout);
    }
  }

  /** Each step, exactly: it keeps the agreement if and only if it is proper. */
  lemma StepAgrees(s: Net, op: Op)
    requires Agree(s)
    ensures Agree(Step(s, op)) <==> Proper(s, op)
    ensures Step(s, op).me == s.me
  {
    match op {
      case OpReceive(n, fd, now) => ReceiveAgrees(s, n, fd, now);
      case OpHello(source, mac, fd, now) => HelloAgrees(s, source, mac, fd, now);
      case OpReply => ReplyAgrees(s);
      case OpDelete(mac) => DeleteKeepsAgree(s, mac);
      case OpSweep(now, timeout) =>
        SweepKeepsAgree(s, s.recs, now, timeout);
        SweepKeepsGap(s, s.recs, now, timeout);
    }
  }

  /** List and table agree all through a run if and only if each of its steps is proper. */
  lemma {:induction false} RunsAgree(me: ProxyInfo, ops: seq<Op>)
    ensures AgreesThroughout(me, ops) <==> ProperRun(me, ops)
    ensures Run(me, ops).me == me
    decreases |ops|
  {
    SizeCountsCutOff(me, ops);
    if ops != [] {
      var pre := ops[..|ops| - 1];
      RunsAgree(me, pre);
      if AgreesThroughout(me, pre) { StepAgrees(Run(me, pre), ops[|ops| - 1]); }
    }
  }

  lemma NoEmptyMac(recs: seq<Rec>)
    ensures !HasRecord(recs, [])
  {
  }

  /** As long as they agree, neither the proxy's own MAC nor the zero MAC can be found. */
  lemma ForeignMacsOnly(s: Net, m: Mac)
    requires Agree(s) && (m == s.me.mac || IsZero(m))
    ensures KeyOf(m) !in s.fds
  {
    if IsZero(m) {
      NoEmptyMac(s.recs);
    } else if KeyOf(m) in s.fds {
      RecordKeyIsWhole(s.recs, m);
    }
  }

  // ----- where a key comes from

  lemma {:induction false} SweepLosesKeys(s: Net, rest: seq<Rec>, now: U64, timeout: int)
    ensures SweepFrom(s, rest, now, timeout).fds.Keys <= s.fds.Keys
    decreases |rest|
  {
    if rest != [] { SweepLosesKeys(Visited(s, rest[0], now, timeout), rest[1..], now, timeout); }
  }

  /** A key appears with a received record that is neither of the proxy nor zero, or with a peer that introduces itself,
      and in no other way; a handshake puts no question to the MAC. */
  lemma KeyAppears(s: Net, op: Op, key: Key)
    requires key !in s.fds
    ensures key in Step(s, op).fds <==>
              || (op.OpReceive? && KeyOf(op.n.remote.mac) == key
                  && !IsZero(op.n.remote.mac) && op.n.remote.mac != s.me.mac)
              || (op.OpHello? && KeyOf(op.source.mac) == key)
  {
    match op {
      case OpSweep(now, timeout) => SweepLosesKeys(s, s.recs, now, timeout);
      case _ =>
    }
  }
}
