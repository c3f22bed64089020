/**
  HASH_JEN, the default hash function of uthash.h, on 32-bit words: what its mixer keeps,
  and how each byte of the key enters the words.
 */
module Jenkins {
  import opened Arith
  import opened Elements

  const TWO_TO_THE_32: nat := 0x1_0000_0000
  type Word = w: int | 0 <= w < TWO_TO_THE_32

  /** The three running words _hj_i, _hj_j and hashv. */
  datatype Words = Words(i: Word, j: Word, h: Word)

  const START: Words := Words(0x9e3779b9, 0x9e3779b9, 0xfeedbeef)

  // ----- the operators of `unsigned`

  function Plus(x: Word, y: Word): Word {
    if x + y < TWO_TO_THE_32 then x + y else x + y - TWO_TO_THE_32
  }

  function Minus(x: Word, y: Word): Word {
    if x >= y then x - y else x - y + TWO_TO_THE_32
  }

  /** `x ^ y` on e bits. */
  function XorBits(x: nat, y: nat, e: nat): (r: nat)
    ensures r < Pow2(e)
  {
    if e == 0 then 0 else (if x % 2 == y % 2 then 0 else 1) + 2 * XorBits(x / 2, y / 2, e - 1)
  }

  lemma {:induction false} XorBack(x: nat, y: nat, e: nat)
    requires x < Pow2(e)
    ensures XorBits(XorBits(x, y, e), y, e) == x
    decreases e
  {
    if e > 0 {
      XorBack(x / 2, y / 2, e - 1);
      var r := XorBits(x, y, e);
      assert r / 2 == XorBits(x / 2, y / 2, e - 1);
    }
  }

  lemma Pow2At32()
    ensures Pow2(32) == TWO_TO_THE_32
  {
    assert Pow2(8) == 256;
    assert Pow2(16) == 256 * Pow2(8);
    assert Pow2(24) == 256 * Pow2(16);
    assert Pow2(32) == 256 * Pow2(24);
  }

  function Xor(x: Word, y: Word): Word {
    Pow2At32();
    XorBits(x, y, 32)
  }

  lemma XorXor(x: Word, y: Word)
    ensures Xor(Xor(x, y), y) == x
  {
    Pow2At32();
    XorBack(x, y, 32);
  }

  function Right(x: Word, e: nat): Word {
    ShrIsDiv(x, e);
    Shr(x, e)
  }

  /** `x << e`: the bits pushed out on the left are lost. */
  function Left(x: Word, e: nat): Word {
    x * Pow2(e) % TWO_TO_THE_32
  }

  // ----- the mixer

  /** One line of HASH_JEN_MIX: a word loses the other two and is xored with a mask. */
  function Line(x: Word, y: Word, z: Word, mask: Word): Word {
    Xor(Minus(Minus(x, y), z), mask)
  }

  function Unline(x: Word, y: Word, z: Word, mask: Word): Word {
    Plus(Plus(Xor(x, mask), z), y)
  }

  lemma LineInverse(x: Word, y: Word, z: Word, mask: Word)
    ensures Unline(Line(x, y, z, mask), y, z, mask) == x
    ensures Line(Unline(x, y, z, mask), y, z, mask) == x
  {
    XorXor(Minus(Minus(x, y), z), mask);
    XorXor(x, mask);
  }

  datatype Shift = ToRight(e: nat) | ToLeft(e: nat)

  function Shifted(w: Word, sh: Shift): Word {
    match sh
    case ToRight(e) => Right(w, e)
    case ToLeft(e) => Left(w, e)
  }

  /** Every line is the same step on the three words, turned by one place: the first is changed by the other two. */
  function Turn(s: Words, sh: Shift): Words {
    Words(s.j, s.h, Line(s.i, s.j, s.h, Shifted(s.h, sh)))
  }

  function Unturn(s: Words, sh: Shift): Words {
    Words(Unline(s.h, s.i, s.j, Shifted(s.j, sh)), s.i, s.j)
  }

  function Turns(s: Words, shifts: seq<Shift>): Words
    decreases |shifts|, s
  {
    if shifts == [] then s else Turns(Turn(s, shifts[0]), shifts[1..])
  }

  function Unturns(s: Words, shifts: seq<Shift>): Words
    decreases |shifts|, s
  {
    if shifts == [] then s else Unturn(Unturns(s, shifts[1..]), shifts[0])
  }

  const SHIFTS: seq<Shift> := [ToRight(13), ToLeft(8), ToRight(13), ToRight(12), ToLeft(16), ToRight(5),
                               ToRight(3), ToLeft(10), ToRight(15)]

  /** HASH_JEN_MIX: nine lines, after which each word is back in its place. */
  function Mix(s: Words): Words {
    Turns(s, SHIFTS)
  }

  function Unmix(s: Words): Words {
    Unturns(s, SHIFTS)
  }

  lemma TurnInverse(s: Words, sh: Shift)
    ensures Unturn(Turn(s, sh), sh) == s
    ensures Turn(Unturn(s, sh), sh) == s
  {
    LineInverse(s.i, s.j, s.h, Shifted(s.h, sh));
    LineInverse(s.h, s.i, s.j, Shifted(s.j, sh));
  }

  lemma {:induction false} TurnsInverse(s: Words, shifts: seq<Shift>)
    ensures Unturns(Turns(s, shifts), shifts) == s
    ensures Turns(Unturns(s, shifts), shifts) == s
    decreases |shifts|
  {
    if shifts != [] {
      TurnInverse(s, shifts[0]);
      TurnsInverse(Turn(s, shifts[0]), shifts[1..]);
      TurnInverse(Unturns(s, shifts[1..]), shifts[0]);
      TurnsInverse(s, shifts[1..]);
    }
  }

  /** The mixer is a bijection on triples of words: nothing that entered them is lost in it. */
  lemma MixIsBijective(s: Words)
    ensures Unmix(Mix(s)) == s
    ensures Mix(Unmix(s)) == s
  {
    TurnsInverse(s, SHIFTS);
  }

  lemma {:induction false} TurnsConcat(s: Words, p: seq<Shift>, q: seq<Shift>)
    ensures Turns(s, p + q) == Turns(Turns(s, p), q)
    decreases |p|
  {
    if p == [] {
      assert p + q == q;
    } else {
      assert (p + q)[1..] == p[1..] + q;
      TurnsConcat(Turn(s, p[0]), p[1..], q);
    }
  }

  /** Three lines of HASH_JEN_MIX. */
  method ThreeLines(s: Words, p: nat, q: nat, r: nat) returns (t: Words)
    ensures t == Turns(s, [ToRight(p), ToLeft(q), ToRight(r)])
  {
    var a, b, c := s.i, s.j, s.h;
    a := Line(a, b, c, Right(c, p));
    b := Line(b, c, a, Left(a, q));
    c := Line(c, a, b, Right(b, r));
    t := Words(a, b, c);
    ghost var s1 := Turn(s, ToRight(p));
    ghost var s2 := Turn(s1, ToLeft(q));
    assert t == Turn(s2, ToRight(r));
    assert Turns(s2, [ToRight(r)]) == Turns(t, []);
    assert [ToLeft(q), ToRight(r)][1..] == [ToRight(r)];
    assert [ToRight(p), ToLeft(q), ToRight(r)][1..] == [ToLeft(q), ToRight(r)];
    assert Turns(s1, [ToLeft(q), ToRight(r)]) == t;
  }

  /** HASH_JEN_MIX. */
  method JenMix(s: Words) returns (t: Words)
    ensures t == Mix(s)
  {
    ghost var p, q, r := [ToRight(13), ToLeft(8), ToRight(13)], [ToRight(12), ToLeft(16), ToRight(5)],
                         [ToRight(3), ToLeft(10), ToRight(15)];
    TurnsConcat(s, p + q, r);
    TurnsConcat(s, p, q);
    assert p + q + r == SHIFTS;
    t := ThreeLines(s, 13, 8, 13);
    t := ThreeLines(t, 12, 16, 5);
    t := ThreeLines(t, 3, 10, 15);
  }

  // ----- the key

  /** The byte at position n; zero past the end. */
  function At(key: Key, n: nat): Byte {
    if n < |key| then key[n] else 0
  }

  /** Four bytes, least significant first. */
  function Bytes4(a: Byte, b: Byte, c: Byte, d: Byte): Word {
    a + 0x100 * (b + 0x100 * (c + 0x100 * d))
  }

  /** The word at position n. */
  function Quad(key: Key, n: nat): Word {
    Bytes4(At(key, n), At(key, n + 1), At(key, n + 2), At(key, n + 3))
  }

  /** A whole block of twelve bytes from position o. */
  function Absorb(s: Words, key: Key, o: nat): Words {
    Words(Plus(s.i, Quad(key, o)), Plus(s.j, Quad(key, o + 4)), Plus(s.h, Quad(key, o + 8)))
  }

  /** The last word of the last block: its lowest byte is left to the length. */
  function LastQuad(key: Key, o: nat): Word {
    Bytes4(0, At(key, o + 8), At(key, o + 9), At(key, o + 10))
  }

  /** The length and the last, at most eleven bytes. */
  function AbsorbTail(s: Words, key: Key, o: nat): Words
    requires |key| < TWO_TO_THE_32
  {
    Words(Plus(s.i, Quad(key, o)), Plus(s.j, Quad(key, o + 4)), Plus(Plus(s.h, |key|), LastQuad(key, o)))
  }

  /** HASH_JEN from position o on. */
  function JenFrom(s: Words, key: Key, o: nat): Words
    requires o <= |key| < TWO_TO_THE_32
    decreases |key| - o
  {
    if |key| - o >= 12 then JenFrom(Mix(Absorb(s, key, o)), key, o + 12)
    else Mix(AbsorbTail(s, key, o))
  }

  /** All three words at the end of HASH_JEN. */
  function Jen(key: Key): Words
    requires |key| < TWO_TO_THE_32
  {
    JenFrom(START, key, 0)
  }

  /** The hash a table uses. A key length is an `unsigned`, so only that many bytes are looked at. */
  function JenHash(key: Key): nat {
    Jen(if |key| < TWO_TO_THE_32 then key else key[..|key| % TWO_TO_THE_32]).h
  }

  // ----- the code

  lemma ByteShifts(b: Byte)
    ensures Left(b, 8) == 0x100 * b && Left(b, 16) == 0x1_0000 * b && Left(b, 24) == 0x100_0000 * b
  {
    assert Pow2(8) == 0x100;
    assert Pow2(16) == Pow2(8) * 0x100;
    assert Pow2(24) == Pow2(16) * 0x100;
  }

  /** `(unsigned)_hj_key[n] << e`. */
  function ByteAt(key: Key, n: nat, e: nat): (w: Word)
    requires n < |key| && e in {8, 16, 24}
    ensures w == (if e == 8 then 0x100 else if e == 16 then 0x1_0000 else 0x100_0000) * At(key, n)
  {
    ByteShifts(key[n]);
    Left(key[n], e)
  }

  /** Cases 11 to 9 of the switch and what they fall through. */
  method SwitchHigh(h: Word, key: Key, o: nat) returns (r: Word)
    requires o <= |key| < o + 12
    ensures r == Plus(h, LastQuad(key, o))
  {
    r := h;
    if |key| - o >= 11 { r := Plus(r, ByteAt(key, o + 10, 24)); }
    if |key| - o >= 10 { r := Plus(r, ByteAt(key, o + 9, 16)); }
    if |key| - o >= 9 { r := Plus(r, ByteAt(key, o + 8, 8)); }
  }

  /** Cases 8 to 5, with n = o + 4, and cases 4 to 1, with n = o. */
  method SwitchLow(w: Word, key: Key, n: nat) returns (r: Word)
    ensures r == Plus(w, Quad(key, n))
  {
    r := w;
    if |key| - n >= 4 { r := Plus(r, ByteAt(key, n + 3, 24)); }
    if |key| - n >= 3 { r := Plus(r, ByteAt(key, n + 2, 16)); }
    if |key| - n >= 2 { r := Plus(r, ByteAt(key, n + 1, 8)); }
    if |key| - n >= 1 { r := Plus(r, key[n]); }
  }

  /** `_hj_key[0] + (_hj_key[1] << 8) + (_hj_key[2] << 16) + (_hj_key[3] << 24)` from position n. */
  method Gather(key: Key, n: nat) returns (w: Word)
    requires n + 4 <= |key|
    ensures w == Quad(key, n)
  {
    w := key[n] + ByteAt(key, n + 1, 8) + ByteAt(key, n + 2, 16) + ByteAt(key, n + 3, 24);
  }

  /** The body of the while loop. */
  method Block(s: Words, key: Key, o: nat) returns (t: Words)
    requires o + 12 <= |key|
    ensures t == Mix(Absorb(s, key, o))
  {
    var a := Gather(key, o);
    var b := Gather(key, o + 4);
    var c := Gather(key, o + 8);
    t := JenMix(Words(Plus(s.i, a), Plus(s.j, b), Plus(s.h, c)));
  }

  /** The length and the switch. */
  method Tail(s: Words, key: Key, o: nat) returns (t: Words)
    requires o <= |key| < o + 12 && |key| < TWO_TO_THE_32
    ensures t == Mix(AbsorbTail(s, key, o))
  {
    var h := SwitchHigh(Plus(s.h, |key|), key, o);
    var j := SwitchLow(s.j, key, o + 4);
    var i := SwitchLow(s.i, key, o);
    t := JenMix(Words(i, j, h));
  }

  /** The three words of HASH_JEN. */
  method HashWords(key: Key) returns (s: Words)
    requires |key| < TWO_TO_THE_32
    ensures s == Jen(key)
  {
    s := START;
    var o, k := 0, |key|;
    while k >= 12
      invariant o + k == |key| && k >= 0
      invariant JenFrom(s, key, o) == Jen(key)
    {
      s := Block(s, key, o);
      o, k := o + 12, k - 12;
    }
    s := Tail(s, key, o);
  }

  /** HASH_JEN. */
  method HashJen(key: Key, numBuckets: nat, ghost log2: nat) returns (hashv: Word, bkt: nat)
    requires |key| < TWO_TO_THE_32 && numBuckets == Pow2(log2)
    ensures hashv == Jen(key).h
    ensures bkt == hashv % numBuckets
  {
    var s := HashWords(key);
    hashv := s.h;
    bkt := BitAnd(hashv, numBuckets - 1);
    MaskIsLow(hashv, log2);
    LowIsMod(hashv, log2);
  }

  // ----- nothing of the key is lost

  lemma PlusCancels(x: Word, y: Word)
    ensures Minus(Plus(x, y), x) == y
  {
  }

  lemma Horner(a: Byte, r: nat)
    ensures (a + 0x100 * r) % 0x100 == a && (a + 0x100 * r) / 0x100 == r
  {
  }

  /** The four bytes of a word. */
  function Apart4(w: Word): (r: seq<Byte>)
    ensures |r| == 4
  {
    [w % 0x100, w / 0x100 % 0x100, w / 0x100 / 0x100 % 0x100, w / 0x100 / 0x100 / 0x100 % 0x100]
  }

  lemma Apart4OfBytes4(a: Byte, b: Byte, c: Byte, d: Byte)
    ensures Apart4(Bytes4(a, b, c, d)) == [a, b, c, d]
  {
    Horner(a, b + 0x100 * (c + 0x100 * d));
    Horner(b, c + 0x100 * d);
    Horner(c, d);
  }

  /** The key back from the words: the mixer undone, the constants subtracted, the bytes taken apart. */
  function Recover(s: Words): Key {
    var t := Unmix(s);
    var high := Apart4(Minus(t.h, START.h));
    var bytes := Apart4(Minus(t.i, START.i)) + Apart4(Minus(t.j, START.j)) + high[1..];
    if high[0] <= 11 then bytes[..high[0]] else []
  }

  lemma LengthJoins(key: Key)
    requires |key| <= 11
    ensures Plus(Plus(START.h, |key|), LastQuad(key, 0))
         == Plus(START.h, Bytes4(|key|, At(key, 8), At(key, 9), At(key, 10)))
  {
  }

  /** Up to eleven bytes, whatever their number, come back from the final words; so no two such keys share them. */
  lemma ShortKeysRecovered(key: Key)
    requires |key| <= 11
    ensures Recover(Jen(key)) == key
  {
    var s := AbsorbTail(START, key, 0);
    MixIsBijective(s);
    LengthJoins(key);
    PlusCancels(START.i, Quad(key, 0));
    PlusCancels(START.j, Quad(key, 4));
    PlusCancels(START.h, Bytes4(|key|, At(key, 8), At(key, 9), At(key, 10)));
    Apart4OfBytes4(At(key, 0), At(key, 1), At(key, 2), At(key, 3));
    Apart4OfBytes4(At(key, 4), At(key, 5), At(key, 6), At(key, 7));
    Apart4OfBytes4(|key|, At(key, 8), At(key, 9), At(key, 10));
  }

  lemma PlusInjective(x: Word, y: Word, u: Word, v: Word)
    requires Plus(x, u) == Plus(y, v)
    ensures x == y <==> u == v
  {
  }

  lemma MixInjective(s: Words, t: Words)
    requires Mix(s) == Mix(t)
    ensures s == t
  {
    MixIsBijective(s);
    MixIsBijective(t);
  }

  /** With the rest of the key fixed, no two states of the words are merged. */
  lemma {:induction false} JenFromInjective(s: Words, t: Words, key: Key, o: nat)
    requires o <= |key| < TWO_TO_THE_32 && JenFrom(s, key, o) == JenFrom(t, key, o)
    ensures s == t
    decreases |key| - o
  {
    if |key| - o >= 12 {
      JenFromInjective(Mix(Absorb(s, key, o)), Mix(Absorb(t, key, o)), key, o + 12);
      MixInjective(Absorb(s, key, o), Absorb(t, key, o));
    } else {
      MixInjective(AbsorbTail(s, key, o), AbsorbTail(t, key, o));
      PlusInjective(Plus(s.h, |key|), Plus(t.h, |key|), LastQuad(key, o), LastQuad(key, o));
    }
  }

  ghost predicate Agree(k: Key, l: Key, from: nat, to: nat) {
    forall n {:trigger At(k, n)} {:trigger At(l, n)} :: from <= n < to ==> At(k, n) == At(l, n)
  }

  lemma LowByte(a: Byte, r: nat, a': Byte, r': nat)
    requires a + 0x100 * r == a' + 0x100 * r'
    ensures a == a' && r == r'
  {
  }

  lemma Bytes4Injective(a: Byte, b: Byte, c: Byte, d: Byte, a': Byte, b': Byte, c': Byte, d': Byte)
    requires Bytes4(a, b, c, d) == Bytes4(a', b', c', d')
    ensures a == a' && b == b' && c == c' && d == d'
  {
    LowByte(a, b + 0x100 * (c + 0x100 * d), a', b' + 0x100 * (c' + 0x100 * d'));
    LowByte(b, c + 0x100 * d, b', c' + 0x100 * d');
    LowByte(c, d, c', d');
  }

  lemma QuadsDecide(k: Key, l: Key, n: nat)
    requires Quad(k, n) == Quad(l, n)
    ensures Agree(k, l, n, n + 4)
  {
    Bytes4Injective(At(k, n), At(k, n + 1), At(k, n + 2), At(k, n + 3),
                    At(l, n), At(l, n + 1), At(l, n + 2), At(l, n + 3));
  }

  lemma {:induction false} RestDecides(s: Words, k: Key, l: Key, o: nat)
    requires o <= |k| == |l| < TWO_TO_THE_32 && Agree(k, l, o, |k|)
    ensures JenFrom(s, k, o) == JenFrom(s, l, o)
    decreases |k| - o
  {
    if |k| - o >= 12 { RestDecides(Mix(Absorb(s, k, o)), k, l, o + 12); }
  }

  lemma LastBlockDecides(s: Words, k: Key, l: Key, o: nat)
    requires o <= |k| == |l| < TWO_TO_THE_32 && |k| < o + 12 && AbsorbTail(s, k, o) == AbsorbTail(s, l, o)
    ensures Agree(k, l, o, |k|)
  {
    PlusInjective(s.i, s.i, Quad(k, o), Quad(l, o));
    PlusInjective(s.j, s.j, Quad(k, o + 4), Quad(l, o + 4));
    PlusInjective(Plus(s.h, |k|), Plus(s.h, |k|), LastQuad(k, o), LastQuad(l, o));
    QuadsDecide(k, l, o);
    QuadsDecide(k, l, o + 4);
    Bytes4Injective(0, At(k, o + 8), At(k, o + 9), At(k, o + 10), 0, At(l, o + 8), At(l, o + 9), At(l, o + 10));
  }

  lemma BlockDecides(s: Words, k: Key, l: Key, o: nat)
    requires Absorb(s, k, o) == Absorb(s, l, o)
    ensures Agree(k, l, o, o + 12)
  {
    PlusInjective(s.i, s.i, Quad(k, o), Quad(l, o));
    PlusInjective(s.j, s.j, Quad(k, o + 4), Quad(l, o + 4));
    PlusInjective(s.h, s.h, Quad(k, o + 8), Quad(l, o + 8));
    QuadsDecide(k, l, o);
    QuadsDecide(k, l, o + 4);
    QuadsDecide(k, l, o + 8);
  }

  lemma SameBlock(s: Words, k: Key, l: Key, o: nat)
    requires Agree(k, l, o, o + 12)
    ensures Absorb(s, k, o) == Absorb(s, l, o)
  {
  }

  /** The run from block a onwards, when the keys differ in block b only. */
  lemma {:induction false} DifferenceSurvives(s: Words, k: Key, l: Key, a: nat, b: nat)
    requires a <= b && 12 * b <= |k| == |l| < TWO_TO_THE_32
    requires Agree(k, l, 0, 12 * b) && Agree(k, l, 12 * b + 12, |k|)
    requires JenFrom(s, k, 12 * a) == JenFrom(s, l, 12 * a)
    ensures Agree(k, l, 12 * b, |k|)
    decreases b - a
  {
    var o := 12 * a;
    if a < b {
      SameBlock(s, k, l, o);
      DifferenceSurvives(Mix(Absorb(s, k, o)), k, l, a + 1, b);
    } else if |k| - o >= 12 {
      RestDecides(Mix(Absorb(s, l, o)), k, l, o + 12);
      JenFromInjective(Mix(Absorb(s, k, o)), Mix(Absorb(s, l, o)), k, o + 12);
      MixInjective(Absorb(s, k, o), Absorb(s, l, o));
      BlockDecides(s, k, l, o);
    } else {
      MixInjective(AbsorbTail(s, k, o), AbsorbTail(s, l, o));
      LastBlockDecides(s, k, l, o);
    }
  }

  /** Every byte counts: keys of one length that differ within one block of twelve, the last one included, end in
      different words. */
  lemma EveryByteCounts(k: Key, l: Key, b: nat)
    requires 12 * b <= |k| == |l| < TWO_TO_THE_32
    requires Agree(k, l, 0, 12 * b) && Agree(k, l, 12 * b + 12, |k|)
    ensures Jen(k) == Jen(l) <==> k == l
  {
    if Jen(k) == Jen(l) {
      DifferenceSurvives(START, k, l, 0, b);
      assert Agree(k, l, 0, |k|);
      forall n | 0 <= n < |k| ensures k[n] == l[n] { assert At(k, n) == At(l, n); }
    }
  }

  // ----- the hash in figures

  /** Sums and differences are those of `unsigned`. */
  lemma PlusMinusMod(x: Word, y: Word)
    ensures Plus(x, y) == (x + y) % 0x1_0000_0000 && Minus(x, y) == (x - y) % 0x1_0000_0000
  {
  }

  /** The bits of `x ^ y` are those in which the two differ. */
  lemma {:induction false} XorBit(x: nat, y: nat, e: nat, k: nat)
    requires k < e
    ensures Shr(XorBits(x, y, e), k) % 2 == 1 <==> Shr(x, k) % 2 != Shr(y, k) % 2
    decreases k
  {
    if k > 0 {
      assert XorBits(x, y, e) / 2 == XorBits(x / 2, y / 2, e - 1);
      XorBit(x / 2, y / 2, e - 1, k - 1);
    }
  }

  /** A line of the mixer. */
  ghost predicate Mixed(x': Word, x: Word, y: Word, z: Word, mask: Word) {
    x' == Xor(Minus(Minus(x, y), z), mask)
  }

  ghost predicate Turned(s: Words, sh: Shift, t: Words) {
    t.i == s.j && t.j == s.h && Mixed(t.h, s.i, s.j, s.h, Shifted(s.h, sh))
  }

  lemma TurnOnce(s: Words, d: Shift, more: seq<Shift>) returns (t: Words)
    ensures Turned(s, d, t) && Turns(s, [d] + more) == Turns(t, more)
  {
    t := Turn(s, d);
    assert ([d] + more)[1..] == more;
  }

  lemma ThreeTurned(s: Words, d: Shift, e: Shift, f: Shift, a: Words, b: Words, t: Words)
    requires Turned(s, d, a) && Turned(a, e, b) && Turned(b, f, t)
    ensures Mixed(t.i, s.i, s.j, s.h, Shifted(s.h, d)) && Mixed(t.j, s.j, s.h, t.i, Shifted(t.i, e))
    ensures Mixed(t.h, s.h, t.i, t.j, Shifted(t.j, f))
  {
  }

  lemma TurnThrice(s: Words, d: Shift, e: Shift, f: Shift, more: seq<Shift>) returns (t: Words)
    ensures Turns(s, [d, e, f] + more) == Turns(t, more)
    ensures Mixed(t.i, s.i, s.j, s.h, Shifted(s.h, d)) && Mixed(t.j, s.j, s.h, t.i, Shifted(t.i, e))
    ensures Mixed(t.h, s.h, t.i, t.j, Shifted(t.j, f))
  {
    assert [d, e, f] + more == [d] + ([e] + ([f] + more));
    var a := TurnOnce(s, d, [e] + ([f] + more));
    var b := TurnOnce(a, e, [f] + more);
    t := TurnOnce(b, f, more);
    ThreeTurned(s, d, e, f, a, b, t);
  }

  /** The nine lines of the mixer with the shifts 13, 8, 13, 12, 16, 5, 3, 10 and 15. */
  lemma MixLines(s: Words) returns (t: Words, u: Words)
    ensures Mixed(t.i, s.i, s.j, s.h, Right(s.h, 13)) && Mixed(t.j, s.j, s.h, t.i, Left(t.i, 8))
    ensures Mixed(t.h, s.h, t.i, t.j, Right(t.j, 13)) && Mixed(u.i, t.i, t.j, t.h, Right(t.h, 12))
    ensures Mixed(u.j, t.j, t.h, u.i, Left(u.i, 16)) && Mixed(u.h, t.h, u.i, u.j, Right(u.j, 5))
    ensures var v := Mix(s);
            && Mixed(v.i, u.i, u.j, u.h, Right(u.h, 3)) && Mixed(v.j, u.j, u.h, v.i, Left(v.i, 10))
            && Mixed(v.h, u.h, v.i, v.j, Right(v.j, 15))
  {
    var p, q := [ToRight(3), ToLeft(10), ToRight(15)], [ToRight(12), ToLeft(16), ToRight(5)];
    assert SHIFTS == [ToRight(13), ToLeft(8), ToRight(13)] + (q + p);
    t := TurnThrice(s, ToRight(13), ToLeft(8), ToRight(13), q + p);
    u := TurnThrice(t, ToRight(12), ToLeft(16), ToRight(5), p);
    assert p + [] == p;
    var v := TurnThrice(u, ToRight(3), ToLeft(10), ToRight(15), []);
  }

  lemma BytesInPlaces(key: Key, n: nat)
    ensures Quad(key, n)
         == At(key, n) + 0x100 * At(key, n + 1) + 0x1_0000 * At(key, n + 2) + 0x100_0000 * At(key, n + 3)
    ensures LastQuad(key, n) == 0x100 * At(key, n + 8) + 0x1_0000 * At(key, n + 9) + 0x100_0000 * At(key, n + 10)
  {
  }

  /** The words a key of fewer than twelve bytes is mixed from, a MAC address among them. */
  lemma ShortKeyWords(key: Key) returns (s: Words)
    requires |key| < 12
    ensures Jen(key) == Mix(s)
    ensures s.i == (0x9e3779b9 + At(key, 0) + 0x100 * At(key, 1) + 0x1_0000 * At(key, 2) + 0x100_0000 * At(key, 3))
                     % 0x1_0000_0000
    ensures s.j == (0x9e3779b9 + At(key, 4) + 0x100 * At(key, 5) + 0x1_0000 * At(key, 6) + 0x100_0000 * At(key, 7))
                     % 0x1_0000_0000
    ensures s.h == (0xfeedbeef + |key| + 0x100 * At(key, 8) + 0x1_0000 * At(key, 9) + 0x100_0000 * At(key, 10))
                     % 0x1_0000_0000
  {
    s := AbsorbTail(START, key, 0);
    BytesInPlaces(key, 0);
    BytesInPlaces(key, 4);
    PlusMinusMod(START.i, Quad(key, 0));
    PlusMinusMod(START.j, Quad(key, 4));
    PlusMinusMod(START.h, |key|);
    PlusMinusMod(Plus(START.h, |key|), LastQuad(key, 0));
  }

  /** And those that twelve more bytes are mixed into. */
  lemma BlockWords(s: Words, key: Key, o: nat) returns (t: Words)
    requires o + 12 <= |key| < TWO_TO_THE_32
    ensures JenFrom(s, key, o) == JenFrom(Mix(t), key, o + 12)
    ensures t.i == (s.i + At(key, o) + 0x100 * At(key, o + 1) + 0x1_0000 * At(key, o + 2)
                      + 0x100_0000 * At(key, o + 3)) % 0x1_0000_0000
    ensures t.j == (s.j + At(key, o + 4) + 0x100 * At(key, o + 5) + 0x1_0000 * At(key, o + 6)
                      + 0x100_0000 * At(key, o + 7)) % 0x1_0000_0000
    ensures t.h == (s.h + At(key, o + 8) + 0x100 * At(key, o + 9) + 0x1_0000 * At(key, o + 10)
                      + 0x100_0000 * At(key, o + 11)) % 0x1_0000_0000
  {
    t := Absorb(s, key, o);
    BytesInPlaces(key, o);
    BytesInPlaces(key, o + 4);
    BytesInPlaces(key, o + 8);
    PlusMinusMod(s.i, Quad(key, o));
    PlusMinusMod(s.j, Quad(key, o + 4));
    PlusMinusMod(s.h, Quad(key, o + 8));
  }
}
