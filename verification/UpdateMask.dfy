/** The bit mask of src/game/UpdateMask.h: 32-bit words that single-bit operations address as bytes. */
module UpdateMask {
  import opened Bits
  import opened Words
  import opened Basics


  // ---------------------------------------------------------------------------
  // Words and their bytes
  // ---------------------------------------------------------------------------

  type ByteIndex = k: int | 0 <= k < 4

  /** The byte at address k of a word in memory, least significant first. */
  function ByteOf(w: bv32, k: ByteIndex): bv8 {
    if k == 0 then Byte0(w) else if k == 1 then Byte1(w) else if k == 2 then Byte2(w) else Byte3(w)
  }

  /** The word after a store to its byte at address k. */
  function WithByte(w: bv32, k: ByteIndex, b: bv8): bv32 {
    WordOf(if k == 3 then b else Byte3(w), if k == 2 then b else Byte2(w),
           if k == 1 then b else Byte1(w), if k == 0 then b else Byte0(w))
  }

  function AndWord(a: bv32, b: bv32): bv32 { a & b }

  function OrWord(a: bv32, b: bv32): bv32 { a | b }

  function AndByte(a: bv8, b: bv8): bv8 { a & b }

  function OrByte(a: bv8, b: bv8): bv8 { a | b }

  /** 0xff ^ mask */
  function Complement(a: bv8): bv8 { 0xFF ^ a }

  lemma ByteOfWithByte(w: bv32, k: ByteIndex, b: bv8, j: ByteIndex)
    ensures ByteOf(WithByte(w, k, b), j) == if j == k then b else ByteOf(w, j)
  {
    hide Byte0, Byte1, Byte2, Byte3, WordOf;
    BytesOfWord(if k == 3 then b else Byte3(w), if k == 2 then b else Byte2(w),
                if k == 1 then b else Byte1(w), if k == 0 then b else Byte0(w));
  }

  lemma AndBytes(a: bv32, b: bv32)
    ensures Byte0(AndWord(a, b)) == AndByte(Byte0(a), Byte0(b))
    ensures Byte1(AndWord(a, b)) == AndByte(Byte1(a), Byte1(b))
    ensures Byte2(AndWord(a, b)) == AndByte(Byte2(a), Byte2(b))
    ensures Byte3(AndWord(a, b)) == AndByte(Byte3(a), Byte3(b))
  {
  }

  lemma OrOfWords(a3: bv8, a2: bv8, a1: bv8, a0: bv8, b3: bv8, b2: bv8, b1: bv8, b0: bv8)
    ensures OrWord(WordOf(a3, a2, a1, a0), WordOf(b3, b2, b1, b0))
         == WordOf(OrByte(a3, b3), OrByte(a2, b2), OrByte(a1, b1), OrByte(a0, b0))
  {
  }

  lemma OrBytes(a: bv32, b: bv32)
    ensures Byte0(OrWord(a, b)) == OrByte(Byte0(a), Byte0(b))
    ensures Byte1(OrWord(a, b)) == OrByte(Byte1(a), Byte1(b))
    ensures Byte2(OrWord(a, b)) == OrByte(Byte2(a), Byte2(b))
    ensures Byte3(OrWord(a, b)) == OrByte(Byte3(a), Byte3(b))
  {
    hide OrWord, OrByte, WordOf, Byte0, Byte1, Byte2, Byte3;
    WordOfBytes(a);
    WordOfBytes(b);
    OrOfWords(Byte3(a), Byte2(a), Byte1(a), Byte0(a), Byte3(b), Byte2(b), Byte1(b), Byte0(b));
    BytesOfWord(OrByte(Byte3(a), Byte3(b)), OrByte(Byte2(a), Byte2(b)),
                OrByte(Byte1(a), Byte1(b)), OrByte(Byte0(a), Byte0(b)));
  }

  lemma AndMasked(a: bv8, b: bv8, m: bv8)
    requires m in {1, 2, 4, 8, 16, 32, 64, 128}
    ensures (a & b) & m != 0 <==> a & m != 0 && b & m != 0
  {
  }

  lemma OrMasked(a: bv8, b: bv8, m: bv8)
    ensures (a | b) & m != 0 <==> a & m != 0 || b & m != 0
  {
  }

  lemma BitOfAnd(a: bv8, b: bv8, t: BitIndex)
    ensures Bit(AndByte(a, b), t) <==> Bit(a, t) && Bit(b, t)
  {
    hide Bit, Mask;
    BitIsMasked(a, t);
    BitIsMasked(b, t);
    BitIsMasked(a & b, t);
    MaskCases(t);
    AndMasked(a, b, Mask(t));
  }

  lemma BitOfOr(a: bv8, b: bv8, t: BitIndex)
    ensures Bit(OrByte(a, b), t) <==> Bit(a, t) || Bit(b, t)
  {
    hide Bit, Mask;
    BitIsMasked(a, t);
    BitIsMasked(b, t);
    BitIsMasked(a | b, t);
    OrMasked(a, b, Mask(t));
  }

  lemma BitOfComplement(k: BitIndex, t: BitIndex)
    ensures Bit(Complement(Mask(k)), t) <==> k != t
  {
    BitIsMasked(Complement(Mask(k)), t);
  }

  lemma SetByteBit(b: bv8, k: BitIndex, t: BitIndex)
    ensures Bit(OrByte(b, Mask(k)), t) <==> Bit(b, t) || k == t
  {
    hide Bit;
    BitOfOr(b, Mask(k), t);
    BitOfMask(k, t);
  }

  lemma UnsetByteBit(b: bv8, k: BitIndex, t: BitIndex)
    ensures Bit(AndByte(b, Complement(Mask(k))), t) <==> Bit(b, t) && k != t
  {
    hide Bit;
    BitOfAnd(b, Complement(Mask(k)), t);
    BitOfComplement(k, t);
  }

  lemma GetByteBit(b: bv8, k: BitIndex)
    ensures AndByte(b, Mask(k)) != 0 <==> Bit(b, k)
  {
    BitIsMasked(b, k);
  }

  // ---------------------------------------------------------------------------
  // The set of indices
  // ---------------------------------------------------------------------------

  /** Bit i, addressed as a byte and a bit in it. */
  predicate Has(words: seq<bv32>, i: nat)
    requires i < 32 * |words|
  {
    Bit(ByteOf(words[i / 32], i / 8 % 4), i % 8)
  }

  function Members(words: seq<bv32>): set<nat> {
    set i: nat | i < 32 * |words| && Has(words, i)
  }

  /** Storing a byte in which only bit index % 8 may have changed. */
  lemma MembersAfterStore(words: seq<bv32>, index: nat, b: bv8, on: bool)
    requires index < 32 * |words|
    requires forall t: BitIndex :: Bit(b, t) <==>
               if t == index % 8 then on else Bit(ByteOf(words[index / 32], index / 8 % 4), t)
    ensures Members(words[index / 32 := WithByte(words[index / 32], index / 8 % 4, b)])
         == if on then Members(words) + {index} else Members(words) - {index}
  {
    hide Bit, ByteOf, WithByte;
    var word, k := index / 32, index / 8 % 4;
    var after := words[word := WithByte(words[word], k, b)];
    forall i: nat | i < 32 * |words|
      ensures Has(after, i) <==> if i == index then on else Has(words, i)
    {
      ByteOfWithByte(words[word], k, b, i / 8 % 4);
      SameBitIndex(i, index);
    }
  }

  lemma BitAddress(i: nat)
    ensures i == 32 * (i / 32) + 8 * (i / 8 % 4) + i % 8
  {
    assert i / 8 / 4 == i / 32;
  }

  lemma SameBitIndex(i: nat, j: nat)
    ensures i / 32 == j / 32 && i / 8 % 4 == j / 8 % 4 && i % 8 == j % 8 <==> i == j
  {
    BitAddress(i);
    BitAddress(j);
  }

  function OneShifted(j: nat): bv32
    requires j < 32
  {
    1 << j
  }

  /** Bit j of a word taken as one 32-bit number. */
  predicate WordBit(w: bv32, j: nat)
    requires j < 32
  {
    AndWord(w, OneShifted(j)) != 0
  }

  /** A byte, moved to address k of an otherwise empty word. */
  function Placed(k: ByteIndex, m: bv8): bv32 {
    if k == 0 then m as bv32 else if k == 1 then (m as bv32) << 8
    else if k == 2 then (m as bv32) << 16 else (m as bv32) << 24
  }

  lemma PlacedMask(k: ByteIndex, t: BitIndex)
    ensures Placed(k, Mask(t)) == OneShifted(8 * k + t)
  {
    if t == 0 {} else if t == 1 {} else if t == 2 {} else if t == 3 {}
    else if t == 4 {} else if t == 5 {} else if t == 6 {} else {}
    if k == 0 {} else if k == 1 {} else if k == 2 {} else {}
  }

  lemma AndShifted(b3: bv8, b2: bv8, b1: bv8, b0: bv8, m: bv8)
    ensures AndWord(WordOf(b3, b2, b1, b0), m as bv32) != 0 <==> AndByte(b0, m) != 0
    ensures AndWord(WordOf(b3, b2, b1, b0), (m as bv32) << 8) != 0 <==> AndByte(b1, m) != 0
    ensures AndWord(WordOf(b3, b2, b1, b0), (m as bv32) << 16) != 0 <==> AndByte(b2, m) != 0
    ensures AndWord(WordOf(b3, b2, b1, b0), (m as bv32) << 24) != 0 <==> AndByte(b3, m) != 0
  {
  }

  lemma AndPlaced(w: bv32, k: ByteIndex, m: bv8)
    ensures AndWord(w, Placed(k, m)) != 0 <==> AndByte(ByteOf(w, k), m) != 0
  {
    hide AndByte, AndWord, WordOf, Byte0, Byte1, Byte2, Byte3;
    WordOfBytes(w);
    AndShifted(Byte3(w), Byte2(w), Byte1(w), Byte0(w), m);
  }

  lemma WordBitIsByteBit(w: bv32, k: ByteIndex, t: BitIndex)
    ensures WordBit(w, 8 * k + t) <==> Bit(ByteOf(w, k), t)
  {
    hide Bit, Mask, AndByte, AndWord, ByteOf, OneShifted, Placed;
    PlacedMask(k, t);
    AndPlaced(w, k, Mask(t));
    GetByteBit(ByteOf(w, k), t);
  }

  /** Byte addressing and word addressing name the same bits. */
  lemma ByteViewIsWordView(words: seq<bv32>, i: nat)
    requires i < 32 * |words|
    ensures Has(words, i) <==> WordBit(words[i / 32], i % 32)
  {
    hide Bit, ByteOf, WordBit;
    assert i % 32 == 8 * (i / 8 % 4) + i % 8;
    WordBitIsByteBit(words[i / 32], i / 8 % 4, i % 8);
  }

  lemma HasAnd(a: seq<bv32>, b: seq<bv32>, c: seq<bv32>, i: nat)
    requires |a| == |b| == |c| && i < 32 * |a| && c[i / 32] == AndWord(a[i / 32], b[i / 32])
    ensures Has(c, i) <==> Has(a, i) && Has(b, i)
  {
    hide Bit, Byte0, Byte1, Byte2, Byte3, AndByte, AndWord;
    AndBytes(a[i / 32], b[i / 32]);
    BitOfAnd(ByteOf(a[i / 32], i / 8 % 4), ByteOf(b[i / 32], i / 8 % 4), i % 8);
  }

  lemma HasOr(a: seq<bv32>, b: seq<bv32>, c: seq<bv32>, i: nat)
    requires |a| == |b| == |c| && i < 32 * |a| && c[i / 32] == OrWord(a[i / 32], b[i / 32])
    ensures Has(c, i) <==> Has(a, i) || Has(b, i)
  {
    hide Bit, Byte0, Byte1, Byte2, Byte3, OrByte, OrWord;
    OrBytes(a[i / 32], b[i / 32]);
    BitOfOr(ByteOf(a[i / 32], i / 8 % 4), ByteOf(b[i / 32], i / 8 % 4), i % 8);
  }

  /** Word-wise and is intersection. */
  lemma MembersOfAnd(a: seq<bv32>, b: seq<bv32>, c: seq<bv32>)
    requires |a| == |b| == |c| && forall k :: 0 <= k < |a| ==> c[k] == AndWord(a[k], b[k])
    ensures Members(c) == Members(a) * Members(b)
  {
    hide Has, AndWord;
    forall i: nat | i < 32 * |a|
      ensures Has(c, i) <==> Has(a, i) && Has(b, i)
    {
      HasAnd(a, b, c, i);
    }
  }

  /** Word-wise or is union. */
  lemma MembersOfOr(a: seq<bv32>, b: seq<bv32>, c: seq<bv32>)
    requires |a| == |b| == |c| && forall k :: 0 <= k < |a| ==> c[k] == OrWord(a[k], b[k])
    ensures Members(c) == Members(a) + Members(b)
  {
    hide Has, OrWord;
    forall i: nat | i < 32 * |a|
      ensures Has(c, i) <==> Has(a, i) || Has(b, i)
    {
      HasOr(a, b, c, i);
    }
  }

  lemma MembersOfZeros(words: seq<bv32>)
    requires forall k :: 0 <= k < |words| ==> words[k] == 0
    ensures Members(words) == {}
  {
    forall i: nat | i < 32 * |words|
      ensures !Has(words, i)
    {
      assert ByteOf(words[i / 32], i / 8 % 4) == 0;
      BitOfZero(i % 8);
    }
  }

  // ---------------------------------------------------------------------------
  // The mask
  // ---------------------------------------------------------------------------

  /** The rounding is done in 32-bit arithmetic. */
  function BlocksFor(valuesCount: nat): nat {
    (valuesCount + 31) % TWO_TO_THE_32 / 32
  }

  /** There is a bit for every value exactly while the rounding does not wrap, and never a block too many. */
  lemma EnoughBlocksIff(valuesCount: nat)
    requires valuesCount < TWO_TO_THE_32
    ensures valuesCount <= 32 * BlocksFor(valuesCount) <==> valuesCount <= 0xFFFF_FFE0
    ensures 32 * BlocksFor(valuesCount) < valuesCount + 32
  {
  }

  class UpdateMask {
    var mCount: nat
    var mBlocks: nat
    var mUpdateMask: array?<bv32>

    function AsWords(): seq<bv32>
      reads this, mUpdateMask
    {
      if mUpdateMask == null then [] else mUpdateMask[..]
    }

    /** The set of indices the mask stands for. */
    ghost function Value(): set<nat>
      reads this, mUpdateMask
    {
      Members(AsWords())
    }

    ghost predicate Valid()
      reads this, mUpdateMask
    {
      mBlocks == BlocksFor(mCount) == |AsWords()|
    }

    constructor ()
      ensures Valid() && Value() == {} && mCount == 0 && mUpdateMask == null
    {
      mCount, mBlocks, mUpdateMask := 0, 0, null;
    }

    method SetBit(index: nat)
      requires Valid() && index < 32 * mBlocks
      modifies mUpdateMask
      ensures Valid() && Value() == old(Value()) + {index}
    {
      hide Bit, ByteOf, WithByte, OrByte, Mask, Has;
      var word, k := index / 8 / 4, index / 8 % 4;
      var b := OrByte(ByteOf(mUpdateMask[word], k), Mask(index % 8));
      forall t: BitIndex {
        SetByteBit(ByteOf(mUpdateMask[word], k), index % 8, t);
      }
      MembersAfterStore(mUpdateMask[..], index, b, true);
      mUpdateMask[word] := WithByte(mUpdateMask[word], k, b);
      assert AsWords() == old(AsWords())[word := mUpdateMask[word]];
    }

    method UnsetBit(index: nat)
      requires Valid() && index < 32 * mBlocks
      modifies mUpdateMask
      ensures Valid() && Value() == old(Value()) - {index}
    {
      hide Bit, ByteOf, WithByte, AndByte, Complement, Mask, Has;
      var word, k := index / 8 / 4, index / 8 % 4;
      var b := AndByte(ByteOf(mUpdateMask[word], k), Complement(Mask(index % 8)));
      forall t: BitIndex {
        UnsetByteBit(ByteOf(mUpdateMask[word], k), index % 8, t);
      }
      MembersAfterStore(mUpdateMask[..], index, b, false);
      mUpdateMask[word] := WithByte(mUpdateMask[word], k, b);
      assert AsWords() == old(AsWords())[word := mUpdateMask[word]];
    }

    method GetBit(index: nat) returns (r: bool)
      requires Valid() && index < 32 * mBlocks
      ensures r <==> index in Value()
    {
      hide Bit, ByteOf, AndByte, Mask;
      var b := ByteOf(mUpdateMask[index / 8 / 4], index / 8 % 4);
      GetByteBit(b, index % 8);
      r := AndByte(b, Mask(index % 8)) != 0;
    }

    /** Drops the contents and allocates zeroed blocks for so many values. */
    method SetCount(valuesCount: nat)
      modifies this
      ensures Valid() && Value() == {} && mCount == valuesCount
      ensures mUpdateMask != null && fresh(mUpdateMask)
    {
      mCount := valuesCount;
      mBlocks := BlocksFor(valuesCount);
      mUpdateMask := new bv32[mBlocks](_ => 0);
      MembersOfZeros(mUpdateMask[..]);
    }

    method Clear()
      requires Valid()
      modifies mUpdateMask
      ensures Valid() && Value() == {}
    {
      if mUpdateMask != null {
        forall i | 0 <= i < mUpdateMask.Length {
          mUpdateMask[i] := 0;
        }
      }
      MembersOfZeros(AsWords());
    }

    /** Copies another mask. A mask assigned to itself has lost its blocks before they are copied. */
    method Assign(mask: UpdateMask)
      requires Valid() && mask.Valid()
      modifies this
      ensures Valid() && mCount == old(mask.mCount)
      ensures Value() == if mask == this then {} else old(mask.Value())
    {
      SetCount(mask.mCount);
      if mask != this {
        forall i | 0 <= i < mBlocks {
          mUpdateMask[i] := mask.mUpdateMask[i];
        }
        assert AsWords() == mask.AsWords();
      }
    }

    method AndAssign(mask: UpdateMask)
      requires Valid() && mask.Valid() && mask.mCount <= mCount && mask.mBlocks == mBlocks
      requires mask == this || mask.mUpdateMask != mUpdateMask || mBlocks == 0
      modifies mUpdateMask
      ensures Valid() && Value() == old(Value()) * old(mask.Value())
    {
      hide AndWord, Members;
      ghost var a, b := AsWords(), mask.AsWords();
      for i := 0 to mBlocks
        invariant |AsWords()| == |a| && Valid()
        invariant forall k :: 0 <= k < i ==> AsWords()[k] == AndWord(a[k], b[k])
        invariant forall k :: i <= k < mBlocks ==> AsWords()[k] == a[k] && mask.AsWords()[k] == b[k]
      {
        mUpdateMask[i] := AndWord(mUpdateMask[i], mask.mUpdateMask[i]);
      }
      MembersOfAnd(a, b, AsWords());
    }

    method OrAssign(mask: UpdateMask)
      requires Valid() && mask.Valid() && mask.mCount <= mCount && mask.mBlocks == mBlocks
      requires mask == this || mask.mUpdateMask != mUpdateMask || mBlocks == 0
      modifies mUpdateMask
      ensures Valid() && Value() == old(Value()) + old(mask.Value())
    {
      hide OrWord, Members;
      ghost var a, b := AsWords(), mask.AsWords();
      for i := 0 to mBlocks
        invariant |AsWords()| == |a| && Valid()
        invariant forall k :: 0 <= k < i ==> AsWords()[k] == OrWord(a[k], b[k])
        invariant forall k :: i <= k < mBlocks ==> AsWords()[k] == a[k] && mask.AsWords()[k] == b[k]
      {
        mUpdateMask[i] := OrWord(mUpdateMask[i], mask.mUpdateMask[i]);
      }
      MembersOfOr(a, b, AsWords());
    }
  }
}
