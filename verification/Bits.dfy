/** Single bits of a byte. The facts about machine words stay in the lemmas of this module: Bit is
    defined by recursion, so its users see no shifts by a variable amount. */
module Bits {

  type BitIndex = k: int | 0 <= k < 8

  /** Bit k of b, counted from the least significant one. */
  predicate Bit(b: bv8, k: BitIndex)
    decreases k
  {
    if k == 0 then b & 1 != 0 else Bit(b >> 1, k - 1)
  }

  /** 1 << k */
  function Mask(k: BitIndex): bv8 {
    if k == 0 then 1 else if k == 1 then 2 else if k == 2 then 4 else if k == 3 then 8
    else if k == 4 then 16 else if k == 5 then 32 else if k == 6 then 64 else 128
  }

  function XorByte(a: bv8, b: bv8): bv8 {
    a ^ b
  }

  /** Bit `from` of b, moved to position `to`; all other bits clear. */
  function MoveBit(b: bv8, from: BitIndex, to: BitIndex): bv8 {
    ((b & (1 << from)) >> from) << to
  }

  lemma {:induction false} BitIsMasked(b: bv8, k: BitIndex)
    ensures Bit(b, k) <==> b & Mask(k) != 0
    decreases k
  {
    if k > 0 {
      BitIsMasked(b >> 1, k - 1);
    }
  }

  lemma MaskCases(k: BitIndex)
    ensures Mask(k) in {1, 2, 4, 8, 16, 32, 64, 128}
  {
  }

  lemma XorMasked(a: bv8, b: bv8, m: bv8)
    requires m in {1, 2, 4, 8, 16, 32, 64, 128}
    ensures (a ^ b) & m != 0 <==> (a & m != 0) != (b & m != 0)
  {
  }

  lemma BitOfXor(a: bv8, b: bv8, t: BitIndex)
    ensures Bit(XorByte(a, b), t) <==> Bit(a, t) != Bit(b, t)
  {
    hide Bit, Mask;
    BitIsMasked(a, t);
    BitIsMasked(b, t);
    BitIsMasked(a ^ b, t);
    MaskCases(t);
    XorMasked(a, b, Mask(t));
  }

  lemma BitOfMask(k: BitIndex, t: BitIndex)
    ensures Bit(Mask(k), t) <==> k == t
  {
    BitIsMasked(Mask(k), t);
  }

  lemma MovedMask(b: bv8, from: BitIndex, to: BitIndex)
    ensures ((b & (1 << from)) >> from) << to == if b & Mask(from) != 0 then Mask(to) else 0
  {
    if from == 0 {} else if from == 1 {} else if from == 2 {} else if from == 3 {}
    else if from == 4 {} else if from == 5 {} else if from == 6 {} else {}
  }

  lemma MoveBitIs(b: bv8, from: BitIndex, to: BitIndex)
    ensures MoveBit(b, from, to) == if Bit(b, from) then Mask(to) else 0
  {
    BitIsMasked(b, from);
    MovedMask(b, from, to);
  }

  lemma SameMasked(a: bv8, b: bv8)
    requires a & 1 == b & 1 && a & 2 == b & 2 && a & 4 == b & 4 && a & 8 == b & 8
    requires a & 16 == b & 16 && a & 32 == b & 32 && a & 64 == b & 64 && a & 128 == b & 128
    ensures a == b
  {
  }

  lemma SameBits(a: bv8, b: bv8)
    requires forall t: BitIndex :: Bit(a, t) == Bit(b, t)
    ensures a == b
  {
    forall t: BitIndex
      ensures (a & Mask(t) != 0) == (b & Mask(t) != 0)
    {
      BitIsMasked(a, t);
      BitIsMasked(b, t);
    }
    assert (a & Mask(0) != 0) == (b & Mask(0) != 0) && (a & Mask(1) != 0) == (b & Mask(1) != 0);
    assert (a & Mask(2) != 0) == (b & Mask(2) != 0) && (a & Mask(3) != 0) == (b & Mask(3) != 0);
    assert (a & Mask(4) != 0) == (b & Mask(4) != 0) && (a & Mask(5) != 0) == (b & Mask(5) != 0);
    assert (a & Mask(6) != 0) == (b & Mask(6) != 0) && (a & Mask(7) != 0) == (b & Mask(7) != 0);
    SameMasked(a, b);
  }

  /** The byte whose low n bits are the stream's bits base..base+n, least significant first. */
  function Gather(bits: nat -> bool, base: nat, n: nat): bv8
    requires n <= 8
  {
    if n == 0 then 0
    else XorByte(Gather(bits, base, n - 1), if bits(base + n - 1) then Mask(n - 1) else 0)
  }

  lemma BitOfZero(t: BitIndex)
    ensures !Bit(0, t)
  {
    BitIsMasked(0, t);
  }

  lemma BitOfXorMask(a: bv8, on: bool, k: BitIndex, t: BitIndex)
    ensures Bit(XorByte(a, if on then Mask(k) else 0), t) <==> Bit(a, t) != (on && k == t)
  {
    BitOfXor(a, if on then Mask(k) else 0, t);
    BitOfMask(k, t);
    BitOfZero(t);
  }

  lemma {:induction false} GatherBit(bits: nat -> bool, base: nat, n: nat, t: BitIndex)
    requires n <= 8
    ensures Bit(Gather(bits, base, n), t) <==> t < n && bits(base + t)
  {
    if n == 0 {
      BitOfZero(t);
    } else {
      GatherBit(bits, base, n - 1, t);
      BitOfXorMask(Gather(bits, base, n - 1), bits(base + n - 1), n - 1, t);
    }
  }

  /** One step of the copying loops: move a bit into the next free position. */
  lemma GatherStep(bits: nat -> bool, base: nat, n: nat, b: bv8, from: BitIndex)
    requires n < 8 && bits(base + n) == Bit(b, from)
    ensures Gather(bits, base, n + 1) == XorByte(Gather(bits, base, n), MoveBit(b, from, n))
  {
    MoveBitIs(b, from, n);
  }
}
