/**
  packets.c and htonll of helper.c: the encoders write into the caller's buffer, offset by
  offset; the decoders build heap structures from it.
 */
module Packets {
  import opened Elements
  import opened Wire

  class LinkNode {
    var local: ProxyInfo
    var remote: ProxyInfo
    var linkweight: U32
    var id: U64
    var next: LinkNode?

    constructor (value: Node, next: LinkNode?)
      ensures Value() == value && this.next == next
    {
      local, remote, linkweight, id := value.local, value.remote, value.linkweight, value.id;
      this.next := next;
    }

    function Value(): Node
      reads this
    {
      Node(local, remote, linkweight, id)
    }
  }

  class LinkPacket {
    var head: Header
    var numNeighbors: U16
    var source: ProxyInfo
    var list: LinkNode?

    constructor (head: Header, numNeighbors: U16, source: ProxyInfo, list: LinkNode?)
      ensures this.head == head && this.numNeighbors == numNeighbors && this.source == source && this.list == list
    {
      this.head, this.numNeighbors, this.source, this.list := head, numNeighbors, source, list;
    }
  }

  /** ns are the nodes from list on, one after the other, up to end. */
  ghost predicate Nodes(list: LinkNode?, ns: seq<LinkNode>, end: LinkNode?)
    reads set n | n in ns
  {
    && list == (if ns == [] then end else ns[0])
    && forall i {:trigger ns[i].next} :: 0 <= i < |ns| ==> ns[i].next == if i + 1 < |ns| then ns[i + 1] else end
  }

  ghost function Values(ns: seq<LinkNode>): (r: seq<Node>)
    reads set n | n in ns
    ensures |r| == |ns|
  {
    seq(|ns|, i requires 0 <= i < |ns| reads (set n | n in ns) => ns[i].Value())
  }

  const TYP_INIT: nat := 0
  const TYP_SMLE: nat := 1
  const TYP_BIGE: nat := 2

  lemma {:induction false} LittleOfZero(n: nat)
    ensures forall k :: 0 <= k < n ==> LittleEndian(0, n)[k] == 0
  {
    if n > 0 { LittleOfZero(n - 1); }
  }

  lemma BytesOfOne(n: nat)
    requires n > 1
    ensures LittleEndian(1, n)[0] == 1 && LittleEndian(1, n)[n - 1] == 0
  {
    LittleOfZero(n - 1);
    assert LittleEndian(1, n) == [1] + LittleEndian(0, n - 1);
  }

  /** What `x.c[7] == 0x01` tells after `x.ull = 0x01`. */
  lemma Probe(big: bool)
    ensures Memory(1, 8, big)[7] == 1 <==> big
  {
    BytesOfOne(8);
  }

  /** The machine: its byte order, and the flag in which htonll remembers it. */
  class Host {
    const big: bool
    var typ: nat

    ghost predicate Valid()
      reads this
    {
      typ == TYP_INIT || typ == if big then TYP_BIGE else TYP_SMLE
    }

    constructor (big: bool)
      ensures Valid() && this.big == big
    {
      this.big, typ := big, TYP_INIT;
    }

    /** htonll; it also serves as the way back. */
    method Htonll(src: U64) returns (r: U64)
      requires Valid()
      modifies this`typ
      ensures Valid() && r == NetworkOrder(src, 8, big)
    {
      if typ == TYP_INIT {
        Probe(big);
        typ := if Memory(1, 8, big)[7] == 1 then TYP_BIGE else TYP_SMLE;
      }
      if typ == TYP_BIGE { return src; }
      r := SwapBytes(src);
    }
  }

  /** The four exchanges of htonll on a little-endian host. */
  method SwapBytes(src: U64) returns (r: U64)
    ensures r == NetworkOrder(src, 8, false)
  {
    var m := Memory(src, 8, false);
    var x := new Byte[8](i requires 0 <= i < 8 => m[i]);
    var c := x[0]; x[0] := x[7]; x[7] := c;
    c := x[1]; x[1] := x[6]; x[6] := c;
    c := x[2]; x[2] := x[5]; x[5] := c;
    c := x[3]; x[3] := x[4]; x[4] := c;
    assert x[..] == Reverse(m);
    Widths();
    r := FromMemory(x[..], false);
  }

  // ----- encoding

  /** memcpy into the buffer. */
  method Copy(buffer: array<Byte>, o: nat, w: seq<Byte>)
    requires o + |w| <= buffer.Length
    modifies buffer
    ensures buffer[..] == Overwrite(old(buffer[..]), o, w)
  {
    forall k | 0 <= k < |w| { buffer[o + k] := w[k]; }
  }

  /** htons or htonl, and the memcpy of the result. */
  method Put(buffer: array<Byte>, o: nat, x: nat, n: nat, big: bool)
    requires o + n <= buffer.Length
    modifies buffer
    ensures buffer[..] == Overwrite(old(buffer[..]), o, BigEndian(x, n))
  {
    WireIsBigEndian(x, n, big);
    Copy(buffer, o, Memory(NetworkOrder(x, n, big), n, big));
  }

  /** The same with htonll. */
  method PutLong(buffer: array<Byte>, o: nat, x: U64, host: Host)
    requires o + 8 <= buffer.Length && host.Valid()
    modifies buffer, host`typ
    ensures host.Valid() && buffer[..] == Overwrite(old(buffer[..]), o, BigEndian(x, 8))
  {
    WireIsBigEndian(x, 8, host.big);
    var id := host.Htonll(x);
    Copy(buffer, o, Memory(id, 8, host.big));
  }

  method HtonHeader(head: Header, buffer: array<Byte>, big: bool)
    requires buffer.Length >= 4
    modifies buffer
    ensures buffer[..] == Overwrite(old(buffer[..]), 0, EncodeHeader(head))
  {
    OverwriteNext(buffer[..], 0, BigEndian(head.kind, 2), BigEndian(head.length, 2));
    Put(buffer, 0, head.kind, 2, big);
    Put(buffer, 2, head.length, 2, big);
  }

  method HtonProxyInfo(proxy: ProxyInfo, buffer: array<Byte>, o: nat, big: bool)
    requires o + 12 <= buffer.Length
    modifies buffer
    ensures buffer[..] == Overwrite(old(buffer[..]), o, EncodeProxy(proxy))
  {
    var ip, port := BigEndian(proxy.ip, 4), BigEndian(proxy.portno, 2);
    OverwriteNext(buffer[..], o, ip, port);
    OverwriteNext(buffer[..], o, ip + port, proxy.mac);
    Put(buffer, o, proxy.ip, 4, big);
    Put(buffer, o + 4, proxy.portno, 2, big);
    Copy(buffer, o + 6, proxy.mac);
  }

  /** The body of the loop in htonLinkstate. */
  method HtonNode(node: LinkNode, buffer: array<Byte>, o: nat, host: Host)
    requires o + 36 <= buffer.Length && host.Valid()
    modifies buffer, host`typ
    ensures host.Valid() && buffer[..] == Overwrite(old(buffer[..]), o, EncodeNode(node.Value()))
  {
    ghost var b := buffer[..];
    ghost var local, remote := EncodeProxy(node.local), EncodeProxy(node.remote);
    ghost var weight, id := BigEndian(node.linkweight, 4), BigEndian(node.id, 8);
    OverwriteNext(b, o, local, remote);
    OverwriteNext(b, o, local + remote, weight);
    OverwriteNext(b, o, local + remote + weight, id);
    HtonProxyInfo(node.local, buffer, o, host.big);
    HtonProxyInfo(node.remote, buffer, o + 12, host.big);
    Put(buffer, o + 24, node.linkweight, 4, host.big);
    PutLong(buffer, o + 28, node.id, host);
  }

  method HtonFront(pkt: LinkPacket, buffer: array<Byte>, big: bool, ghost l: Link)
    requires buffer.Length >= 18
    requires pkt.head == l.head && pkt.numNeighbors == l.numNeighbors && pkt.source == l.source
    modifies buffer
    ensures buffer[..] == Overwrite(old(buffer[..]), 0, EncodeFront(l))
  {
    ghost var head, n := EncodeHeader(l.head), BigEndian(l.numNeighbors, 2);
    OverwriteNext(buffer[..], 0, head, n);
    OverwriteNext(buffer[..], 0, head + n, EncodeProxy(l.source));
    HtonHeader(pkt.head, buffer, big);
    Put(buffer, 4, pkt.numNeighbors, 2, big);
    HtonProxyInfo(pkt.source, buffer, 6, big);
  }

  /** The packet in the buffer has one node more. */
  method HtonNext(list: LinkNode, buffer: array<Byte>, i: nat, host: Host, ghost l: Link, ghost b: seq<Byte>)
    requires i < |l.nodes| && 18 + 36 * |l.nodes| <= buffer.Length == |b| && host.Valid()
    requires list.Value() == l.nodes[i] && buffer[..] == Overwrite(b, 0, Encode(Prefix(l, i)))
    modifies buffer, host`typ
    ensures host.Valid() && buffer[..] == Overwrite(b, 0, Encode(Prefix(l, i + 1)))
  {
    EncodeNext(l, i);
    OverwriteNext(b, 0, Encode(Prefix(l, i)), EncodeNode(l.nodes[i]));
    HtonNode(list, buffer, 18 + 36 * i, host);
  }

  /** The loop of htonLinkstate stands before the i-th of the nodes, and those in front of it are in the buffer. */
  ghost predicate Writing(list: LinkNode?, i: nat, buffer: array<Byte>, host: Host, ns: seq<LinkNode>,
                          l: Link, b: seq<Byte>)
    reads buffer, host, set n | n in ns
  {
    && i <= |ns| && list == (if i < |ns| then ns[i] else null) && Nodes(if ns == [] then null else ns[0], ns, null)
    && host.Valid() && l.nodes == Values(ns) && 18 + 36 * |ns| <= buffer.Length == |b|
    && buffer[..] == Overwrite(b, 0, Encode(Prefix(l, i)))
  }

  /** One turn of that loop. */
  method HtonTurn(list: LinkNode, buffer: array<Byte>, i: nat, host: Host, ghost ns: seq<LinkNode>,
                  ghost l: Link, ghost b: seq<Byte>)
    returns (next: LinkNode?)
    requires i < |ns| && Writing(list, i, buffer, host, ns, l, b)
    modifies buffer, host`typ
    ensures Writing(next, i + 1, buffer, host, ns, l, b)
  {
    HtonNext(list, buffer, i, host, l, b);
    assert ns[i].next == if i + 1 < |ns| then ns[i + 1] else null;
    next := list.next;
  }

  /** The loop of htonLinkstate. */
  method HtonNodes(list0: LinkNode?, buffer: array<Byte>, host: Host, ghost ns: seq<LinkNode>,
                   ghost l: Link, ghost b: seq<Byte>)
    requires Writing(list0, 0, buffer, host, ns, l, b)
    modifies buffer, host`typ
    ensures Writing(null, |ns|, buffer, host, ns, l, b)
  {
    var list, i := list0, 0;
    while list != null
      invariant 0 <= i <= |ns| && Writing(list, i, buffer, host, ns, l, b)
      decreases |ns| - i
    {
      list := HtonTurn(list, buffer, i, host, ns, l, b);
      i := i + 1;
    }
  }

  /** htonLinkstate: the bytes from 0 to 18 + 36n hold the packet, the rest of the buffer is as it was. */
  method HtonLinkstate(pkt: LinkPacket, buffer: array<Byte>, host: Host, ghost ns: seq<LinkNode>)
    returns (ghost l: Link)
    requires Nodes(pkt.list, ns, null) && host.Valid() && buffer.Length >= 18 + 36 * |ns|
    modifies buffer, host`typ
    ensures l == Link(pkt.head, pkt.numNeighbors, pkt.source, Values(ns))
    ensures host.Valid() && buffer[..] == Overwrite(old(buffer[..]), 0, Encode(l))
  {
    l := Link(pkt.head, pkt.numNeighbors, pkt.source, Values(ns));
    ghost var b := buffer[..];
    EncodeNone(l);
    PrefixWhole(l);
    HtonFront(pkt, buffer, host.big, l);
    HtonNodes(pkt.list, buffer, host, ns, l, b);
  }

  // ----- decoding

  /** Reading an unsigned integer where it lies in the buffer, and ntohs or ntohl of it. */
  function Get(b: seq<Byte>, big: bool): (x: nat)
    ensures x == FromBig(b)
  {
    HostReadsBigEndian(b, big);
    NetworkOrder(FromMemory(b, big), |b|, big)
  }

  lemma Part(b: seq<Byte>, o: nat, n: nat, i: nat, j: nat)
    requires i <= j <= n && o + n <= |b|
    ensures b[o..o + n][i..j] == b[o + i..o + j]
  {
    var c := b[o..o + n];
    forall k | 0 <= k < j - i ensures c[i..j][k] == b[o + i..o + j][k] { assert c[i + k] == b[o + i + k]; }
  }

  method NtohHeader(buffer: array<Byte>, big: bool) returns (head: Header)
    requires buffer.Length >= 4
    ensures head == DecodeHeader(buffer[..4])
  {
    Widths();
    assert buffer[..4][..2] == buffer[..2] && buffer[..4][2..] == buffer[2..4];
    head := Header(Get(buffer[..2], big), Get(buffer[2..4], big));
  }

  method NtohProxyInfo(buffer: array<Byte>, o: nat, big: bool) returns (proxy: ProxyInfo)
    requires o + 12 <= buffer.Length
    ensures proxy == DecodeProxy(buffer[o..o + 12])
  {
    Widths();
    var mac := [];
    for j := 0 to 6
      invariant mac == buffer[o + 6..o + 6 + j]
    {
      mac := mac + [buffer[o + 6 + j]];
    }
    Part(buffer[..], o, 12, 0, 4);
    Part(buffer[..], o, 12, 4, 6);
    Part(buffer[..], o, 12, 6, 12);
    proxy := ProxyInfo(Get(buffer[o..o + 4], big), Get(buffer[o + 4..o + 6], big), mac);
  }

  /** Eight bytes of the buffer through htonll. */
  method GetLong(buffer: array<Byte>, o: nat, host: Host) returns (x: U64)
    requires o + 8 <= buffer.Length && host.Valid()
    modifies host`typ
    ensures host.Valid() && x == Read64(buffer[o..o + 8])
  {
    Widths();
    HostReadsBigEndian(buffer[o..o + 8], host.big);
    x := host.Htonll(FromMemory(buffer[o..o + 8], host.big));
  }

  /** The node at o; its `next` is what malloc left there. */
  method NtohNode(buffer: array<Byte>, o: nat, host: Host, leftNext: LinkNode?) returns (curr: LinkNode)
    requires o + 36 <= buffer.Length && host.Valid()
    modifies host`typ
    ensures host.Valid() && fresh(curr) && curr.next == leftNext
    ensures curr.Value() == DecodeNode(buffer[o..o + 36])
  {
    ghost var b := buffer[..];
    Widths();
    Part(b, o, 36, 0, 12);
    Part(b, o, 36, 12, 24);
    Part(b, o, 36, 24, 28);
    Part(b, o, 36, 28, 36);
    var local := NtohProxyInfo(buffer, o, host.big);
    var remote := NtohProxyInfo(buffer, o + 12, host.big);
    var linkweight := Get(buffer[o + 24..o + 28], host.big);
    var id := GetLong(buffer, o + 28, host);
    curr := new LinkNode(Node(local, remote, linkweight, id), leftNext);
  }

  /** What ends a decoded list: its only node is given a null `next`, a later one is given none. */
  function EndOf(n: nat, leftNext: LinkNode?): LinkNode? {
    if n == 1 then null else leftNext
  }

  /** The list as far as the loop has built it. */
  ghost predicate Built(list: LinkNode?, lsptr: LinkNode?, ns: seq<LinkNode>, vals: seq<Node>, leftNext: LinkNode?)
    reads set n | n in ns
  {
    && |ns| == |vals| && NoDup(ns)
    && (forall i {:trigger ns[i].Value()} :: 0 <= i < |ns| ==> ns[i].Value() == vals[i])
    && (ns != [] ==> Nodes(list, ns, EndOf(|ns|, leftNext)) && lsptr == ns[|ns| - 1])
  }

  /** The linking of a node that has been filled. */
  method LinkNext(curr: LinkNode, list: LinkNode?, lsptr: LinkNode?, leftNext: LinkNode?,
                  ghost ns: seq<LinkNode>, ghost vals: seq<Node>)
    returns (list': LinkNode)
    requires Built(list, lsptr, ns, vals, leftNext) && curr !in ns && curr.next == leftNext
    requires lsptr == null <==> ns == []
    modifies {curr}`next, (if lsptr == null then {} else {lsptr})`next
    ensures Built(list', curr, ns + [curr], vals + [old(curr.Value())], leftNext)
    ensures ns == [] || list' == list
  {
    if lsptr == null {
      curr.next := null;
      list' := curr;
    } else {
      lsptr.next := curr;
      list' := list;
    }
    AppendNoDup(ns, curr);
    forall i | 0 <= i < |ns| ensures ns[i].Value() == vals[i] { assert old(ns[i].Value()) == vals[i]; }
  }

  /** One turn of the loop in ntohLinkstate. */
  method NtohNext(buffer: array<Byte>, host: Host, i: nat, list: LinkNode?, lsptr: LinkNode?, leftNext: LinkNode?,
                  ghost ns: seq<LinkNode>, ghost vals: seq<Node>)
    returns (list': LinkNode, curr: LinkNode)
    requires i < |vals| && 54 + 36 * i <= buffer.Length && host.Valid()
    requires vals[i] == DecodeNode(buffer[18 + 36 * i..54 + 36 * i])
    requires Built(list, lsptr, ns, vals[..i], leftNext) && (lsptr == null <==> ns == [])
    modifies host`typ, (if lsptr == null then {} else {lsptr})`next
    ensures host.Valid() && fresh(curr) && Built(list', curr, ns + [curr], vals[..i + 1], leftNext)
  {
    curr := NtohNode(buffer, 18 + 36 * i, host, leftNext);
    list' := LinkNext(curr, list, lsptr, leftNext, ns, vals[..i]);
    assert vals[..i + 1] == vals[..i] + [vals[i]];
  }

  /** The loop of ntohLinkstate. */
  method NtohNodes(buffer: array<Byte>, host: Host, n: nat, leftList: LinkNode?, leftNext: LinkNode?,
                   ghost vals: seq<Node>)
    returns (list: LinkNode?, ghost ns: seq<LinkNode>)
    requires buffer.Length >= 18 + 36 * n && host.Valid() && |vals| == n
    requires forall i :: 0 <= i < n ==> vals[i] == DecodeNode(buffer[18 + 36 * i..54 + 36 * i])
    modifies host`typ
    ensures host.Valid() && fresh(set n | n in ns) && NoDup(ns) && Values(ns) == vals
    ensures if ns == [] then list == leftList else Nodes(list, ns, EndOf(|ns|, leftNext))
  {
    var lsptr: LinkNode? := null;
    list, ns := leftList, [];
    for i := 0 to n
      invariant |ns| == i && fresh(set n | n in ns) && host.Valid()
      invariant Built(list, lsptr, ns, vals[..i], leftNext) && (lsptr == null <==> ns == [])
      invariant ns == [] ==> list == leftList
    {
      list, lsptr := NtohNext(buffer, host, i, list, lsptr, leftNext, ns, vals);
      ns := ns + [lsptr];
    }
    assert vals[..n] == vals;
  }

  /** ntohLinkstate. `leftList` and `leftNext` are what malloc leaves in `pkt->list` and in the `next` of a node. */
  method NtohLinkstate(buffer: array<Byte>, host: Host, leftList: LinkNode?, leftNext: LinkNode?)
    returns (pkt: LinkPacket, ghost ns: seq<LinkNode>)
    requires buffer.Length >= 18 && buffer.Length >= 18 + 36 * NumNodes(LengthField(buffer[..])) && host.Valid()
    modifies host`typ
    ensures host.Valid() && fresh(pkt) && fresh(set n | n in ns) && NoDup(ns)
    ensures Link(pkt.head, pkt.numNeighbors, pkt.source, Values(ns)) == Decode(buffer[..])
    ensures if ns == [] then pkt.list == leftList else Nodes(pkt.list, ns, EndOf(|ns|, leftNext))
  {
    ghost var l := Decode(buffer[..]);
    Widths();
    var length: U16 := Get(buffer[2..4], host.big);
    var numNodes := NumNodes(length);
    var head := NtohHeader(buffer, host.big);
    var numNeighbors: U16 := Get(buffer[4..6], host.big);
    var source := NtohProxyInfo(buffer, 6, host.big);
    var list;
    list, ns := NtohNodes(buffer, host, numNodes, leftList, leftNext, l.nodes);
    pkt := new LinkPacket(head, numNeighbors, source, list);
  }

  // ----- leave and quit packets

  /** htonLeave; htonQuit has the same body. */
  method HtonNotice(pkt: Notice, buffer: array<Byte>, host: Host)
    requires buffer.Length >= 24 && host.Valid()
    modifies buffer, host`typ
    ensures host.Valid() && buffer[..] == Overwrite(old(buffer[..]), 0, EncodeNotice(pkt))
  {
    ghost var head, local := EncodeHeader(pkt.head), EncodeProxy(pkt.local);
    OverwriteNext(buffer[..], 0, head, local);
    OverwriteNext(buffer[..], 0, head + local, BigEndian(pkt.id, 8));
    HtonHeader(pkt.head, buffer, host.big);
    HtonProxyInfo(pkt.local, buffer, 4, host.big);
    PutLong(buffer, 16, pkt.id, host);
  }

  /** ntohLeave and ntohQuit. */
  method NtohNotice(buffer: array<Byte>, host: Host) returns (pkt: Notice)
    requires buffer.Length >= 24 && host.Valid()
    modifies host`typ
    ensures host.Valid() && pkt == DecodeNotice(buffer[..24])
  {
    ghost var b := buffer[..24];
    assert b[..4] == buffer[..4] && b[4..16] == buffer[4..16] && b[16..] == buffer[16..24];
    var head := NtohHeader(buffer, host.big);
    var local := NtohProxyInfo(buffer, 4, host.big);
    var id := GetLong(buffer, 16, host);
    pkt := Notice(head, local, id);
  }
}
