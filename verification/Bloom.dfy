/**
  The Bloom filter of uthash.h (HASH_BLOOM): a vector of 2^nbits bits beside the table,
  set on every add and never cleared before the table is freed.
 */
module Bloom {
  import opened Arith
  import opened Elements

  // ----- one bit of a byte

  predicate Bit(a: nat, k: nat) {
    if k == 0 then a % 2 == 1 else Bit(a / 2, k - 1)
  }

  /** `a | b`. */
  function BitOr(a: nat, b: nat): nat {
    if a == 0 then b else if b == 0 then a
    else (if a % 2 == 1 || b % 2 == 1 then 1 else 0) + 2 * BitOr(a / 2, b / 2)
  }

  lemma {:induction false} ZeroHasNoBit(k: nat)
    ensures !Bit(0, k)
  {
    if k > 0 { ZeroHasNoBit(k - 1); }
  }

  lemma {:induction false} BitOfPow2(i: nat, k: nat)
    ensures Bit(Pow2(i), k) <==> i == k
    decreases i + k
  {
    if i == 0 || k == 0 {
      if k > 0 { ZeroHasNoBit(k - 1); }
    } else {
      BitOfPow2(i - 1, k - 1);
    }
  }

  lemma {:induction false} BitOfOr(a: nat, b: nat, k: nat)
    ensures Bit(BitOr(a, b), k) <==> Bit(a, k) || Bit(b, k)
    decreases k
  {
    if a == 0 || b == 0 {
      ZeroHasNoBit(k);
    } else if k > 0 {
      BitOfOr(a / 2, b / 2, k - 1);
    }
  }

  lemma {:induction false} AndPow2(a: nat, k: nat)
    ensures BitAnd(a, Pow2(k)) != 0 <==> Bit(a, k)
    decreases k
  {
    if a == 0 {
      ZeroHasNoBit(k);
    } else if k > 0 {
      AndPow2(a / 2, k - 1);
    } else {
      assert BitAnd(a / 2, 0) == 0;
    }
  }

  lemma {:induction false} OrBound(a: nat, b: nat, e: nat)
    requires a < Pow2(e) && b < Pow2(e)
    ensures BitOr(a, b) < Pow2(e)
    decreases e
  {
    if a != 0 && b != 0 { OrBound(a / 2, b / 2, e - 1); }
  }

  // ----- the filter

  /** HASH_BLOOM_BYTELEN. */
  function ByteLen(nbits: nat): nat {
    Pow2(nbits) / 8 + if Pow2(nbits) % 8 != 0 then 1 else 0
  }

  /** Every bit index lies inside the vector. */
  lemma IndexInside(h: nat, nbits: nat)
    ensures Low(h, nbits) / 8 < ByteLen(nbits)
  {
  }

  /** It has no byte more than the bits need. */
  lemma BytesEnough(nbits: nat)
    ensures 8 * ByteLen(nbits) - 8 < Pow2(nbits) <= 8 * ByteLen(nbits)
  {
  }

  class Bloom {
    const nbits: nat
    const bv: array<Byte>
    ghost var added: set<nat>   // the hash values added so far

    ghost predicate IsSet(n: nat)
      requires n / 8 < bv.Length
      reads bv
    {
      Bit(bv[n / 8], n % 8)
    }

    ghost predicate Valid()
      reads this, bv
    {
      && bv.Length == ByteLen(nbits)
      && forall n: nat {:trigger IsSet(n)} :: n < Pow2(nbits) ==>
           (IsSet(n) <==> exists g :: g in added && Low(g, nbits) == n)
    }

    /** HASH_BLOOM_MAKE. */
    constructor (nbits: nat)
      ensures Valid() && added == {} && fresh(bv) && this.nbits == nbits
    {
      this.nbits := nbits;
      bv := new Byte[ByteLen(nbits)](_ => 0);
      added := {};
      new;
      forall n: nat | n < Pow2(nbits) ensures !IsSet(n) { ZeroHasNoBit(n % 8); }
    }

    /** HASH_BLOOM_ADD. */
    method Add(hashv: nat)
      requires Valid()
      modifies this, bv
      ensures Valid() && added == old(added) + {hashv}
    {
      MaskIsLow(hashv, nbits);
      IndexInside(hashv, nbits);
      var idx := BitAnd(hashv, Pow2(nbits) - 1);
      SetBit(idx);
      added := added + {hashv};
      assert hashv in added;
      forall n: nat | n < Pow2(nbits) ensures IsSet(n) <==> exists g :: g in added && Low(g, nbits) == n {
        assert IsSet(n) <==> old(IsSet(n)) || n == idx;
        if old(IsSet(n)) {
          var g :| g in old(added) && Low(g, nbits) == n;
          assert g in added;
        }
      }
    }

    /** HASH_BLOOM_BITSET. */
    method SetBit(idx: nat)
      requires idx / 8 < bv.Length
      modifies bv
      ensures forall n: nat {:trigger IsSet(n)} :: n / 8 < bv.Length ==> (IsSet(n) <==> old(IsSet(n)) || n == idx)
    {
      ghost var was := bv[idx / 8];
      Pow2Monotone(idx % 8, 7);
      assert Pow2(8) == 256;
      OrBound(bv[idx / 8], Pow2(idx % 8), 8);
      bv[idx / 8] := BitOr(bv[idx / 8], Pow2(idx % 8));
      forall n: nat | n / 8 < bv.Length ensures IsSet(n) <==> old(IsSet(n)) || n == idx {
        BitOfOr(was, Pow2(idx % 8), n % 8);
        BitOfPow2(idx % 8, n % 8);
      }
    }

    /** HASH_BLOOM_TEST: yes exactly for the hash values that share their low bits with an added one. */
    method Test(hashv: nat) returns (maybe: bool)
      requires Valid()
      ensures maybe <==> exists g :: g in added && g % Pow2(nbits) == hashv % Pow2(nbits)
    {
      MaskIsLow(hashv, nbits);
      IndexInside(hashv, nbits);
      var idx := BitAnd(hashv, Pow2(nbits) - 1);
      AndPow2(bv[idx / 8], idx % 8);
      maybe := BitAnd(bv[idx / 8], Pow2(idx % 8)) != 0;
      assert maybe == IsSet(idx);
      forall g | g in added + {hashv} ensures Low(g, nbits) == g % Pow2(nbits) { LowIsMod(g, nbits); }
      assert hashv in added + {hashv};
      assert forall g :: g in added ==> g in added + {hashv};
    }
  }
}
