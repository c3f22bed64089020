/**
  The link-state wire format of packets.c on values: which byte of the buffer holds what,
  how a packet comes back from the bytes, and how many nodes the length field stands for.
 */
module Wire {
  import opened Elements

  // ----- integers as bytes

  function Pow256(n: nat): (p: nat)
    ensures p > 0
  {
    if n == 0 then 1 else 256 * Pow256(n - 1)
  }

  /** The n bytes of x, least significant first. */
  function LittleEndian(x: nat, n: nat): (b: seq<Byte>)
    ensures |b| == n
    decreases n, x
  {
    if n == 0 then [] else [x % 256] + LittleEndian(x / 256, n - 1)
  }

  function FromLittle(b: seq<Byte>): (x: nat)
    ensures x < Pow256(|b|)
  {
    if b == [] then 0 else b[0] + 256 * FromLittle(b[1..])
  }

  /** Network order. */
  function BigEndian(x: nat, n: nat): (b: seq<Byte>)
    ensures |b| == n
  {
    Reverse(LittleEndian(x, n))
  }

  function FromBig(b: seq<Byte>): (x: nat)
    ensures x < Pow256(|b|)
  {
    FromLittle(Reverse(b))
  }

  lemma {:induction false} LittleRoundTrip(x: nat, n: nat)
    requires x < Pow256(n)
    ensures FromLittle(LittleEndian(x, n)) == x
    decreases n
  {
    if n > 0 {
      LittleRoundTrip(x / 256, n - 1);
      assert LittleEndian(x, n)[1..] == LittleEndian(x / 256, n - 1);
    }
  }

  lemma {:induction false} LittleRoundTripBack(b: seq<Byte>)
    ensures LittleEndian(FromLittle(b), |b|) == b
  {
    if b != [] {
      LittleRoundTripBack(b[1..]);
      var r := FromLittle(b[1..]);
      assert (b[0] + 256 * r) % 256 == b[0] && (b[0] + 256 * r) / 256 == r;
      assert b == [b[0]] + b[1..];
    }
  }

  lemma ReverseTwice(b: seq<Byte>)
    ensures Reverse(Reverse(b)) == b
  {
  }

  lemma BigRoundTrip(x: nat, n: nat)
    requires x < Pow256(n)
    ensures FromBig(BigEndian(x, n)) == x
  {
    ReverseTwice(LittleEndian(x, n));
    LittleRoundTrip(x, n);
  }

  lemma BigRoundTripBack(b: seq<Byte>)
    ensures BigEndian(FromBig(b), |b|) == b
  {
    LittleRoundTripBack(Reverse(b));
    ReverseTwice(b);
  }

  // ----- host order

  /** The bytes an n-byte unsigned integer occupies in the memory of a big- or little-endian host. */
  function Memory(x: nat, n: nat, big: bool): (b: seq<Byte>)
    ensures |b| == n
  {
    if big then BigEndian(x, n) else LittleEndian(x, n)
  }

  function FromMemory(b: seq<Byte>, big: bool): (x: nat)
    ensures x < Pow256(|b|)
  {
    if big then FromBig(b) else FromLittle(b)
  }

  /** htons, htonl and htonll, and the same way back: on a little-endian host the bytes are turned round. */
  function NetworkOrder(x: nat, n: nat, big: bool): (r: nat)
    ensures big || r < Pow256(n)
  {
    if big then x else FromLittle(BigEndian(x, n))
  }

  /** Whatever the host, the bytes in its memory are then those of network order. */
  lemma WireIsBigEndian(x: nat, n: nat, big: bool)
    ensures Memory(NetworkOrder(x, n, big), n, big) == BigEndian(x, n)
  {
    if !big { LittleRoundTripBack(BigEndian(x, n)); }
  }

  /** Reading them back and converting again gives the integer of the bytes in network order. */
  lemma HostReadsBigEndian(b: seq<Byte>, big: bool)
    ensures NetworkOrder(FromMemory(b, big), |b|, big) == FromBig(b)
  {
    if !big { LittleRoundTripBack(b); }
  }

  lemma NetworkOrderTwice(x: nat, n: nat, big: bool)
    requires x < Pow256(n)
    ensures NetworkOrder(NetworkOrder(x, n, big), n, big) == x
  {
    WireIsBigEndian(x, n, big);
    if !big {
      LittleRoundTripBack(BigEndian(x, n));
      BigRoundTrip(x, n);
    }
  }

  // ----- packets

  type U16 = x: int | 0 <= x < 0x1_0000
  type U32 = x: int | 0 <= x < 0x1_0000_0000
  type U64 = x: int | 0 <= x < 0x1_0000_0000_0000_0000
  type Mac = m: seq<Byte> | |m| == 6 witness [0, 0, 0, 0, 0, 0]

  const PKT_LINKSTATE: U16 := 0xABAC
  const MAX_PKT_LEN: nat := 2052

  datatype Header = Header(kind: U16, length: U16)
  datatype ProxyInfo = ProxyInfo(ip: U32, portno: U16, mac: Mac)
  datatype Node = Node(local: ProxyInfo, remote: ProxyInfo, linkweight: U32, id: U64)
  datatype Link = Link(head: Header, numNeighbors: U16, source: ProxyInfo, nodes: seq<Node>)

  lemma Widths()
    ensures Pow256(2) == 0x1_0000 && Pow256(4) == 0x1_0000_0000 && Pow256(8) == 0x1_0000_0000_0000_0000
  {
    assert Pow256(4) == 0x1_0000 * Pow256(2);
    assert Pow256(6) == 0x1_0000 * Pow256(4);
    assert Pow256(8) == 0x1_0000 * Pow256(6);
  }

  /** ntohs of two bytes. */
  function Read16(b: seq<Byte>): U16
    requires |b| == 2
  {
    Widths();
    FromBig(b)
  }

  function Read32(b: seq<Byte>): U32
    requires |b| == 4
  {
    Widths();
    FromBig(b)
  }

  function Read64(b: seq<Byte>): U64
    requires |b| == 8
  {
    Widths();
    FromBig(b)
  }

  function EncodeHeader(h: Header): (b: seq<Byte>)
    ensures |b| == 4
  {
    BigEndian(h.kind, 2) + BigEndian(h.length, 2)
  }

  function DecodeHeader(b: seq<Byte>): Header
    requires |b| == 4
  {
    Header(Read16(b[..2]), Read16(b[2..]))
  }

  function EncodeProxy(p: ProxyInfo): (b: seq<Byte>)
    ensures |b| == 12
  {
    BigEndian(p.ip, 4) + BigEndian(p.portno, 2) + p.mac
  }

  function DecodeProxy(b: seq<Byte>): ProxyInfo
    requires |b| == 12
  {
    ProxyInfo(Read32(b[..4]), Read16(b[4..6]), b[6..])
  }

  function EncodeNode(n: Node): (b: seq<Byte>)
    ensures |b| == 36
  {
    EncodeProxy(n.local) + EncodeProxy(n.remote) + BigEndian(n.linkweight, 4) + BigEndian(n.id, 8)
  }

  function DecodeNode(b: seq<Byte>): Node
    requires |b| == 36
  {
    Node(DecodeProxy(b[..12]), DecodeProxy(b[12..24]), Read32(b[24..28]), Read64(b[28..]))
  }

  /** Everything before the nodes. */
  function EncodeFront(l: Link): (b: seq<Byte>)
    ensures |b| == 18
  {
    EncodeHeader(l.head) + BigEndian(l.numNeighbors, 2) + EncodeProxy(l.source)
  }

  /** The packet: the front, then node after node. */
  function Encode(l: Link): (b: seq<Byte>)
    ensures |b| == 18 + 36 * |l.nodes|
    decreases |l.nodes|
  {
    if l.nodes == [] then EncodeFront(l)
    else Encode(l.(nodes := l.nodes[..|l.nodes| - 1])) + EncodeNode(l.nodes[|l.nodes| - 1])
  }

  /** `(length-14)/36`, an int division that truncates towards zero, stored in a uint16_t. */
  function NumNodes(length: U16): (n: nat)
    ensures n <= 1820
  {
    if length < 14 then 0 else (length - 14) / 36
  }

  /** The bytes at buffer + 2. */
  function LengthField(b: seq<Byte>): U16
    requires |b| >= 4
  {
    Read16(b[2..4])
  }

  /** The link-state packet at the front of a buffer, with as many nodes as its length field stands for. */
  function Decode(b: seq<Byte>): (l: Link)
    requires |b| >= 18 && |b| >= 18 + 36 * NumNodes(LengthField(b))
    ensures |l.nodes| == NumNodes(LengthField(b))
    ensures forall i :: 0 <= i < |l.nodes| ==> l.nodes[i] == DecodeNode(b[18 + 36 * i..54 + 36 * i])
  {
    var n := NumNodes(LengthField(b));
    Link(DecodeHeader(b[..4]), Read16(b[4..6]), DecodeProxy(b[6..18]),
         seq(n, i requires 0 <= i < n => DecodeNode(b[18 + 36 * i..54 + 36 * i])))
  }

  // ----- round trips

  lemma HeaderRoundTrip(h: Header)
    ensures DecodeHeader(EncodeHeader(h)) == h
  {
    Widths();
    BigRoundTrip(h.kind, 2);
    BigRoundTrip(h.length, 2);
    var b := EncodeHeader(h);
    assert b[..2] == BigEndian(h.kind, 2) && b[2..] == BigEndian(h.length, 2);
  }

  lemma HeaderRoundTripBack(b: seq<Byte>)
    requires |b| == 4
    ensures EncodeHeader(DecodeHeader(b)) == b
  {
    BigRoundTripBack(b[..2]);
    BigRoundTripBack(b[2..]);
  }

  lemma ProxyRoundTrip(p: ProxyInfo)
    ensures DecodeProxy(EncodeProxy(p)) == p
  {
    Widths();
    BigRoundTrip(p.ip, 4);
    BigRoundTrip(p.portno, 2);
    var b := EncodeProxy(p);
    assert b[..4] == BigEndian(p.ip, 4) && b[4..6] == BigEndian(p.portno, 2) && b[6..] == p.mac;
  }

  lemma ProxyRoundTripBack(b: seq<Byte>)
    requires |b| == 12
    ensures EncodeProxy(DecodeProxy(b)) == b
  {
    BigRoundTripBack(b[..4]);
    BigRoundTripBack(b[4..6]);
  }

  lemma NodeRoundTrip(n: Node)
    ensures DecodeNode(EncodeNode(n)) == n
  {
    Widths();
    ProxyRoundTrip(n.local);
    ProxyRoundTrip(n.remote);
    BigRoundTrip(n.linkweight, 4);
    BigRoundTrip(n.id, 8);
    var b := EncodeNode(n);
    assert b[..12] == EncodeProxy(n.local) && b[12..24] == EncodeProxy(n.remote);
    assert b[24..28] == BigEndian(n.linkweight, 4) && b[28..] == BigEndian(n.id, 8);
  }

  lemma NodeRoundTripBack(b: seq<Byte>)
    requires |b| == 36
    ensures EncodeNode(DecodeNode(b)) == b
  {
    ProxyRoundTripBack(b[..12]);
    ProxyRoundTripBack(b[12..24]);
    BigRoundTripBack(b[24..28]);
    BigRoundTripBack(b[28..]);
  }

  lemma SliceOfPrefix(b: seq<Byte>, e: seq<Byte>, i: nat, j: nat)
    requires i <= j <= |e| <= |b| && b[..|e|] == e
    ensures b[i..j] == e[i..j]
  {
    assert forall k :: i <= k < j ==> b[k] == b[..|e|][k] == e[k];
  }

  lemma FrontRoundTrip(l: Link, b: seq<Byte>)
    requires |b| >= 18 && b[..18] == EncodeFront(l)
    ensures DecodeHeader(b[..4]) == l.head && LengthField(b) == l.head.length
    ensures Read16(b[4..6]) == l.numNeighbors && DecodeProxy(b[6..18]) == l.source
  {
    Widths();
    HeaderRoundTrip(l.head);
    BigRoundTrip(l.numNeighbors, 2);
    ProxyRoundTrip(l.source);
    var f := EncodeFront(l);
    SliceOfPrefix(b, f, 0, 4);
    SliceOfPrefix(b, f, 4, 6);
    SliceOfPrefix(b, f, 6, 18);
    assert f[..4] == EncodeHeader(l.head) && f[4..6] == BigEndian(l.numNeighbors, 2) && f[6..] == EncodeProxy(l.source);
    assert b[..4][2..] == b[2..4];
  }

  lemma {:induction false} FrontBytes(l: Link)
    ensures Encode(l)[..18] == EncodeFront(l)
    decreases |l.nodes|
  {
    if l.nodes != [] {
      var p := l.(nodes := l.nodes[..|l.nodes| - 1]);
      FrontBytes(p);
      assert Encode(l)[..18] == Encode(p)[..18];
    }
  }

  lemma {:induction false} NodeBytes(l: Link, j: nat)
    requires j < |l.nodes|
    ensures Encode(l)[18 + 36 * j..54 + 36 * j] == EncodeNode(l.nodes[j])
    decreases |l.nodes|
  {
    var p := l.(nodes := l.nodes[..|l.nodes| - 1]);
    if j < |l.nodes| - 1 {
      NodeBytes(p, j);
      assert Encode(l)[18 + 36 * j..54 + 36 * j] == Encode(p)[18 + 36 * j..54 + 36 * j];
    }
  }

  lemma FrontByte(l: Link, k: nat)
    requires k < 18
    ensures Encode(l)[k] == EncodeFront(l)[k]
  {
    FrontBytes(l);
    assert Encode(l)[k] == Encode(l)[..18][k];
  }

  lemma NodeByte(l: Link, j: nat, m: nat, k: nat)
    requires j < |l.nodes| && m < 36 && k == 18 + 36 * j + m
    ensures Encode(l)[k] == EncodeNode(l.nodes[j])[m]
  {
    NodeBytes(l, j);
    assert Encode(l)[18 + 36 * j..54 + 36 * j][m] == Encode(l)[k];
  }

  /** The tiling: byte k past the front belongs to node (k - 18) / 36, and to no other. */
  lemma Tiles(l: Link, k: nat)
    requires k < |Encode(l)|
    ensures Encode(l)[k] == if k < 18 then EncodeFront(l)[k] else EncodeNode(l.nodes[(k - 18) / 36])[(k - 18) % 36]
  {
    if k < 18 { FrontByte(l, k); } else { NodeByte(l, (k - 18) / 36, (k - 18) % 36, k); }
  }

  lemma EncodedNode(l: Link, b: seq<Byte>, j: nat)
    requires j < |l.nodes| && |b| >= 18 + 36 * |l.nodes| && b[..18 + 36 * |l.nodes|] == Encode(l)
    ensures DecodeNode(b[18 + 36 * j..54 + 36 * j]) == l.nodes[j]
  {
    SliceOfPrefix(b, Encode(l), 18 + 36 * j, 54 + 36 * j);
    NodeBytes(l, j);
    NodeRoundTrip(l.nodes[j]);
  }

  lemma EncodedFront(l: Link, b: seq<Byte>)
    requires |b| >= 18 + 36 * |l.nodes| && b[..18 + 36 * |l.nodes|] == Encode(l)
    ensures DecodeHeader(b[..4]) == l.head && LengthField(b) == l.head.length
    ensures Read16(b[4..6]) == l.numNeighbors && DecodeProxy(b[6..18]) == l.source
  {
    SliceOfPrefix(b, Encode(l), 0, 18);
    FrontBytes(l);
    FrontRoundTrip(l, b);
  }

  /** The sequences agree as far as both go. */
  ghost predicate Common<T>(s: seq<T>, t: seq<T>) {
    forall j :: 0 <= j < |s| && j < |t| ==> s[j] == t[j]
  }

  /** What a receiver reads from a buffer that starts with the encoding of l: the front is always right, and so are
      the nodes, as far as there are any; how many are read is for the length field to say. */
  lemma DecodeEncoded(l: Link, b: seq<Byte>)
    requires |b| >= 18 + 36 * |l.nodes| && b[..18 + 36 * |l.nodes|] == Encode(l)
    requires |b| >= 18 + 36 * NumNodes(l.head.length)
    ensures LengthField(b) == l.head.length
    ensures var r := Decode(b);
            && r.head == l.head && r.numNeighbors == l.numNeighbors && r.source == l.source
            && |r.nodes| == NumNodes(l.head.length) && Common(r.nodes, l.nodes)
  {
    EncodedFront(l, b);
    forall j | 0 <= j < NumNodes(l.head.length) && j < |l.nodes| ensures Decode(b).nodes[j] == l.nodes[j] {
      EncodedNode(l, b, j);
    }
  }

  lemma SamePrefix<T>(s: seq<T>, t: seq<T>)
    requires Common(s, t)
    ensures |t| <= |s| ==> s[..|t|] == t
    ensures |t| == |s| ==> s == t
  {
  }

  /** The packet comes back if and only if its length field stands for the nodes it has. */
  lemma LinkRoundTrip(l: Link, b: seq<Byte>)
    requires |b| >= 18 + 36 * |l.nodes| && b[..18 + 36 * |l.nodes|] == Encode(l)
    requires |b| >= 18 + 36 * NumNodes(l.head.length)
    ensures LengthField(b) == l.head.length
    ensures Decode(b) == l <==> NumNodes(l.head.length) == |l.nodes|
  {
    DecodeEncoded(l, b);
    SamePrefix(Decode(b).nodes, l.nodes);
  }

  lemma FrontRoundTripBack(b: seq<Byte>)
    requires |b| >= 18 && |b| >= 18 + 36 * NumNodes(LengthField(b))
    ensures EncodeFront(Decode(b)) == b[..18]
  {
    HeaderRoundTripBack(b[..4]);
    BigRoundTripBack(b[4..6]);
    ProxyRoundTripBack(b[6..18]);
    assert b[..18] == b[..4] + b[4..6] + b[6..18];
  }

  /** Sequences that agree up to i, and from there to j, agree up to j. */
  lemma AgreeOn<T>(b: seq<T>, c: seq<T>, i: nat, j: nat)
    requires i <= j <= |b| && j <= |c| && b[..i] == c[..i] && b[i..j] == c[i..j]
    ensures b[..j] == c[..j]
  {
    assert b[..j] == b[..i] + b[i..j] && c[..j] == c[..i] + c[i..j];
  }

  lemma AgreeWholly<T>(b: seq<T>, c: seq<T>)
    requires |b| == |c| && b[..|c|] == c[..|c|]
    ensures b == c
  {
    assert b[..|c|] == b && c[..|c|] == c;
  }

  /** l holds what b says, piece by piece. */
  ghost predicate ReadFrom(l: Link, b: seq<Byte>) {
    && |b| == 18 + 36 * |l.nodes| && EncodeFront(l) == b[..18]
    && forall i {:trigger l.nodes[i]} :: 0 <= i < |l.nodes| ==> l.nodes[i] == DecodeNode(b[18 + 36 * i..54 + 36 * i])
  }

  lemma NodeBack(l: Link, b: seq<Byte>, j: nat)
    requires ReadFrom(l, b) && j < |l.nodes|
    ensures Encode(l)[18 + 36 * j..54 + 36 * j] == b[18 + 36 * j..54 + 36 * j]
  {
    NodeBytes(l, j);
    NodeRoundTripBack(b[18 + 36 * j..54 + 36 * j]);
  }

  lemma {:induction false} NodesBack(l: Link, b: seq<Byte>, n: nat)
    requires ReadFrom(l, b) && n <= |l.nodes|
    ensures Encode(l)[..18 + 36 * n] == b[..18 + 36 * n]
  {
    if n == 0 {
      FrontBytes(l);
    } else {
      NodesBack(l, b, n - 1);
      NextNodeBack(l, b, n - 1, 18 + 36 * (n - 1));
    }
  }

  lemma NextNodeBack(l: Link, b: seq<Byte>, j: nat, o: nat)
    requires ReadFrom(l, b) && j < |l.nodes| && o == 18 + 36 * j && Encode(l)[..o] == b[..o]
    ensures Encode(l)[..o + 36] == b[..o + 36]
  {
    NodeBack(l, b, j);
    AgreeOn(Encode(l), b, o, o + 36);
  }

  lemma DecodedIsRead(b: seq<Byte>)
    requires |b| >= 18 && |b| == 18 + 36 * NumNodes(LengthField(b))
    ensures ReadFrom(Decode(b), b)
  {
    FrontRoundTripBack(b);
  }

  lemma EncodedBack(l: Link, b: seq<Byte>)
    requires ReadFrom(l, b)
    ensures Encode(l) == b
  {
    NodesBack(l, b, |l.nodes|);
    AgreeWholly(Encode(l), b);
  }

  /** Encoding what was decoded gives the bytes again. */
  lemma LinkRoundTripBack(b: seq<Byte>)
    requires |b| >= 18 && |b| == 18 + 36 * NumNodes(LengthField(b))
    ensures Encode(Decode(b)) == b
  {
    DecodedIsRead(b);
    EncodedBack(Decode(b), b);
  }

  // ----- the length field

  /** The length that create_link_packet writes for n nodes: each counts with its size in memory without the `next`
      pointer, and the sum is cut to 16 bits. */
  function HeaderLength(nodeSize: nat, n: nat): U16 {
    (2 + 12 + nodeSize * n) % 0x1_0000
  }

  lemma Unwrapped(nodeSize: nat, n: nat)
    requires 14 + nodeSize * n < 0x1_0000
    ensures HeaderLength(nodeSize, n) == 14 + nodeSize * n
  {
  }

  /** Where a node takes 36 bytes in memory the receiver counts right as long as the length fits its field. */
  lemma UnpaddedCount(n: nat)
    ensures NumNodes(HeaderLength(36, n)) == n <==> 14 + 36 * n < 0x1_0000
  {
  }

  /** Where it takes 40, because `ID` is aligned to eight bytes, it counts one too many for every nine, and right for
      at most eight. */
  lemma PaddedCount(n: nat)
    ensures 14 + 40 * n < 0x1_0000 ==> NumNodes(HeaderLength(40, n)) == n + n / 9
    ensures NumNodes(HeaderLength(40, n)) == n <==> n <= 8
  {
  }

  /** A receiver that reads too many nodes has those that were sent in front. */
  lemma FirstNodesRight(l: Link, b: seq<Byte>)
    requires |b| >= 18 + 36 * |l.nodes| && b[..18 + 36 * |l.nodes|] == Encode(l)
    requires |b| >= 18 + 36 * NumNodes(l.head.length)
    ensures LengthField(b) == l.head.length
    ensures NumNodes(l.head.length) >= |l.nodes| ==> Decode(b).nodes[..|l.nodes|] == l.nodes
  {
    DecodeEncoded(l, b);
    SamePrefix(Decode(b).nodes, l.nodes);
  }

  /** So a receiver with aligned nodes understands exactly the packets of at most eight nodes. */
  lemma PaddedRoundTrip(l: Link, b: seq<Byte>)
    requires l.head.length == HeaderLength(40, |l.nodes|)
    requires |b| >= 18 + 36 * |l.nodes| && b[..18 + 36 * |l.nodes|] == Encode(l)
    requires |b| >= 18 + 36 * NumNodes(l.head.length)
    ensures LengthField(b) == l.head.length
    ensures Decode(b) == l <==> |l.nodes| <= 8
    ensures 9 <= |l.nodes| && 14 + 40 * |l.nodes| < 0x1_0000 ==> Decode(b).nodes[..|l.nodes|] == l.nodes
  {
    PaddedCount(|l.nodes|);
    LinkRoundTrip(l, b);
    FirstNodesRight(l, b);
  }

  /** The buffer of sendPackets takes a packet of at most 56 nodes. */
  lemma FitsBuffer(l: Link)
    ensures |Encode(l)| <= MAX_PKT_LEN <==> |l.nodes| <= 56
    ensures MAX_PKT_LEN == 2052
  {
    assert |Encode(l)| == 18 + 36 * |l.nodes|;
  }

  // ----- writing piece after piece

  /** b with w in place of the bytes from o on. */
  function Overwrite(b: seq<Byte>, o: nat, w: seq<Byte>): (r: seq<Byte>)
    requires o + |w| <= |b|
    ensures |r| == |b|
  {
    b[..o] + w + b[o + |w|..]
  }

  /** Two pieces side by side, neither on top of the other, are one longer piece. */
  lemma OverwriteNext(b: seq<Byte>, o: nat, v: seq<Byte>, w: seq<Byte>)
    requires o + |v| + |w| <= |b|
    ensures Overwrite(Overwrite(b, o, v), o + |v|, w) == Overwrite(b, o, v + w)
  {
  }

  /** l without its nodes from the i-th on. */
  function Prefix(l: Link, i: nat): Link
    requires i <= |l.nodes|
  {
    l.(nodes := l.nodes[..i])
  }

  lemma EncodeNone(l: Link)
    ensures Encode(Prefix(l, 0)) == EncodeFront(l)
  {
  }

  lemma PrefixWhole(l: Link)
    ensures Prefix(l, |l.nodes|) == l
  {
    assert l.nodes[..|l.nodes|] == l.nodes;
  }

  /** One node more is 36 bytes more at the end. */
  lemma EncodeNext(l: Link, i: nat)
    requires i < |l.nodes|
    ensures Encode(Prefix(l, i + 1)) == Encode(Prefix(l, i)) + EncodeNode(l.nodes[i])
  {
    assert l.nodes[..i + 1][..i] == l.nodes[..i];
  }

  // ----- where each field lies

  /** A digit of x to base 256. */
  function Digit(x: nat, k: nat): Byte {
    if k == 0 then x % 256 else Digit(x / 256, k - 1)
  }

  lemma {:induction false} LittleDigit(x: nat, n: nat, k: nat)
    requires k < n
    ensures LittleEndian(x, n)[k] == Digit(x, k)
    decreases k
  {
    if k > 0 { LittleDigit(x / 256, n - 1, k - 1); }
  }

  /** Network order: the most significant digit comes first. */
  lemma BigDigit(x: nat, n: nat, k: nat)
    requires k < n
    ensures BigEndian(x, n)[k] == Digit(x, n - 1 - k)
  {
    LittleDigit(x, n, n - 1 - k);
  }

  /** pkt_header: the type, then the length. */
  lemma HeaderLayout(h: Header)
    ensures var b := EncodeHeader(h); b[0..2] == BigEndian(h.kind, 2) && b[2..4] == BigEndian(h.length, 2)
  {
  }

  /** proxy_info: the IP address, the port, the MAC byte by byte. */
  lemma ProxyLayout(p: ProxyInfo)
    ensures var b := EncodeProxy(p);
            b[0..4] == BigEndian(p.ip, 4) && b[4..6] == BigEndian(p.portno, 2) && b[6..12] == p.mac
  {
  }

  /** linkstate_node: the near end, the far end, the weight, the time. */
  lemma NodeLayout(n: Node)
    ensures var b := EncodeNode(n);
            && b[0..12] == EncodeProxy(n.local) && b[12..24] == EncodeProxy(n.remote)
            && b[24..28] == BigEndian(n.linkweight, 4) && b[28..36] == BigEndian(n.id, 8)
  {
  }

  /** linkstate_pkt: the header, the neighbour count, the source, the nodes. */
  lemma LinkLayout(l: Link)
    ensures var b := Encode(l);
            && b[0..4] == EncodeHeader(l.head) && b[4..6] == BigEndian(l.numNeighbors, 2)
            && b[6..18] == EncodeProxy(l.source)
  {
    FrontBytes(l);
    var f := EncodeFront(l);
    SliceOfPrefix(Encode(l), f, 0, 4);
    SliceOfPrefix(Encode(l), f, 4, 6);
    SliceOfPrefix(Encode(l), f, 6, 18);
  }

  /** The decoder takes one node for every 36 bytes of the length beyond 14, and none for less. */
  lemma NodeCount(length: U16)
    ensures length >= 14 ==> 14 + 36 * NumNodes(length) <= length < 50 + 36 * NumNodes(length)
    ensures length < 14 ==> NumNodes(length) == 0
  {
  }

  // ----- leave and quit packets

  /** Both have the same fields and the same layout. */
  datatype Notice = Notice(head: Header, local: ProxyInfo, id: U64)

  function EncodeNotice(p: Notice): (b: seq<Byte>)
    ensures |b| == 24
  {
    EncodeHeader(p.head) + EncodeProxy(p.local) + BigEndian(p.id, 8)
  }

  function DecodeNotice(b: seq<Byte>): Notice
    requires |b| == 24
  {
    Notice(DecodeHeader(b[..4]), DecodeProxy(b[4..16]), Read64(b[16..]))
  }

  lemma NoticeRoundTrip(p: Notice)
    ensures DecodeNotice(EncodeNotice(p)) == p
  {
    Widths();
    HeaderRoundTrip(p.head);
    ProxyRoundTrip(p.local);
    BigRoundTrip(p.id, 8);
    var b := EncodeNotice(p);
    assert b[..4] == EncodeHeader(p.head) && b[4..16] == EncodeProxy(p.local) && b[16..] == BigEndian(p.id, 8);
  }

  lemma NoticeRoundTripBack(b: seq<Byte>)
    requires |b| == 24
    ensures EncodeNotice(DecodeNotice(b)) == b
  {
    HeaderRoundTripBack(b[..4]);
    ProxyRoundTripBack(b[4..16]);
    BigRoundTripBack(b[16..]);
  }

  /** leave_pkt and quit_pkt: the header, the machine, the time. */
  lemma NoticeLayout(p: Notice)
    ensures var b := EncodeNotice(p);
            b[0..4] == EncodeHeader(p.head) && b[4..16] == EncodeProxy(p.local) && b[16..24] == BigEndian(p.id, 8)
  {
  }
}
