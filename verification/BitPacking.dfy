/** The 7-bit packer of src/game/NoxCrypt.cpp. A payload of m = dataLen - 9 bytes is read as a
    stream of 8m bits, least significant first; a packed byte carries seven of them in its low
    bits. */
module BitPacking {
  import opened Bits

  /** Bit p of the stream, read from whole bytes. */
  function EightBit(s: seq<bv8>): nat -> bool {
    (p: nat) => p / 8 < |s| && Bit(s[p / 8], p % 8)
  }

  /** Bit p of the stream, read from the low seven bits of each byte. */
  function SevenBit(s: seq<bv8>): nat -> bool {
    (p: nat) => p / 7 < |s| && Bit(s[p / 7], p % 7)
  }

  /** The seven-bit byte in hand after p bits of the stream. */
  function Cursor(p: nat): nat {
    if p == 0 then 0 else (p - 1) / 7
  }

  /** How many of its bits are done. */
  function Taken(p: nat): (n: nat)
    ensures n <= 7
  {
    if p == 0 then 0 else (p - 1) % 7 + 1
  }

  lemma CursorStep(p: nat)
    ensures Cursor(p + 1) == p / 7 && Taken(p + 1) == p % 7 + 1
    ensures if Taken(p) == 7 then p / 7 == Cursor(p) + 1 && p % 7 == 0 else p / 7 == Cursor(p) && p % 7 == Taken(p)
  {
  }

  /** How many seven-bit groups the packer completes for m bytes; it never flushes the last one. */
  function Groups(m: nat): nat {
    Cursor(8 * m)
  }

  lemma EightBitAt(s: seq<bv8>, i: nat, j: BitIndex)
    requires i < |s|
    ensures EightBit(s)(8 * i + j) <==> Bit(s[i], j)
  {
    assert (8 * i + j) / 8 == i && (8 * i + j) % 8 == j;
  }

  // ---------------------------------------------------------------------------
  // Unpacking
  // ---------------------------------------------------------------------------

  /** The byte decoded at position i. */
  function UnpackedByte(s: seq<bv8>): nat -> bv8 {
    (i: nat) => Gather(SevenBit(s), 8 * i, 8)
  }

  /** A buffer whose first i elements are replaced by f and the next, up to r, by zero. */
  function Overwritten<T>(f: nat -> T, zero: T, s: seq<T>, i: nat, r: nat): (t: seq<T>)
    ensures |t| == |s|
  {
    seq(|s|, k requires 0 <= k < |s| => if k < i then f(k) else if k < r then zero else s[k])
  }

  function Unpacked(s: seq<bv8>, m: nat): (t: seq<bv8>)
    ensures |t| == |s|
  {
    Overwritten(UnpackedByte(s), 0, s, m, Groups(m))
  }

  /** Clearing the byte at the read cursor touches no decoded byte. */
  lemma ClearStep<T>(f: nat -> T, zero: T, s: seq<T>, i: nat, r: nat)
    requires i <= r < |s|
    ensures Overwritten(f, zero, s, i, r)[r := zero] == Overwritten(f, zero, s, i, r + 1)
  {
  }

  /** Storing a decoded byte touches no byte still to be read. */
  lemma StoreStep<T>(f: nat -> T, zero: T, s: seq<T>, i: nat, r: nat)
    requires i < r <= |s|
    ensures Overwritten(f, zero, s, i, r)[i := f(i)] == Overwritten(f, zero, s, i + 1, r)
  {
  }

  /** The start of an inner iteration: once seven bits of a byte are taken, clear it and move on. */
  method NextBit(data: array<bv8>, tester: nat, count: nat, loc: nat, ghost s: seq<bv8>, ghost i: nat, ghost j: nat)
    returns (bittester: nat, bitcount: nat, bitloc: nat)
    requires var p := 8 * i + j; j < 8 && p / 7 < data.Length && tester == Cursor(p) && count == loc == Taken(p)
    requires data[..] == Overwritten(UnpackedByte(s), 0, s, i, tester)
    modifies data
    ensures var p := 8 * i + j; bittester == p / 7 && bitcount == bitloc == p % 7
    ensures data[..] == Overwritten(UnpackedByte(s), 0, s, i, bittester)
    ensures data[bittester] == s[bittester]
  {
    CursorStep(8 * i + j);
    bittester, bitcount, bitloc := tester, count, loc;
    if bitcount == 7 {
      bitcount := 0;
      bitloc := bitloc + 1;
    }
    if bitloc == 8 {
      ClearStep(UnpackedByte(s), 0, s, i, bittester);
      data[bittester] := 0;
      bittester := bittester + 1;
      bitloc := 0;
    }
    assert data[bittester] == data[..][bittester];
  }

  lemma SevenBitAt(s: seq<bv8>, p: nat)
    requires p / 7 < |s|
    ensures SevenBit(s)(p) == Bit(s[p / 7], p % 7)
  {
  }

  /** The inner loop: collect the eight bits of byte i. */
  method DecodeByte(data: array<bv8>, tester: nat, count: nat, loc: nat, ghost s: seq<bv8>, ghost i: nat)
    returns (val2: bv8, bittester: nat, bitcount: nat, bitloc: nat)
    requires |s| == data.Length && 8 * (i + 1) <= 7 * |s| && tester == Cursor(8 * i) && count == loc == Taken(8 * i)
    requires data[..] == Overwritten(UnpackedByte(s), 0, s, i, tester)
    modifies data
    ensures val2 == UnpackedByte(s)(i)
    ensures bittester == Cursor(8 * (i + 1)) && bitcount == bitloc == Taken(8 * (i + 1))
    ensures data[..] == Overwritten(UnpackedByte(s), 0, s, i, bittester)
  {
    hide Bit, XorByte, MoveBit, Overwritten, Cursor, Taken, SevenBit, Mask;
    bittester, bitcount, bitloc := tester, count, loc;
    val2 := 0;
    for j := 0 to 8
      invariant bittester == Cursor(8 * i + j) && bitcount == bitloc == Taken(8 * i + j)
      invariant data[..] == Overwritten(UnpackedByte(s), 0, s, i, bittester)
      invariant val2 == Gather(SevenBit(s), 8 * i, j)
    {
      bittester, bitcount, bitloc := NextBit(data, bittester, bitcount, bitloc, s, i, j);
      SevenBitAt(s, 8 * i + j);
      GatherStep(SevenBit(s), 8 * i, j, data[bittester], bitloc);
      val2 := XorByte(val2, MoveBit(data[bittester], bitloc, j));
      CursorStep(8 * i + j);
      bitloc := bitloc + 1;
      bitcount := bitcount + 1;
    }
  }

  method DecryptBitwise(data: array<bv8>, dataLen: nat)
    requires 9 <= dataLen
    requires 8 * (dataLen - 9) <= 7 * data.Length
    modifies data
    ensures data[..] == Unpacked(old(data[..]), dataLen - 9)
  {
    ghost var s := data[..];
    var bittester := 0;
    var val2: bv8 := 0;
    var bitcount := 0;
    var bitloc := 0;
    for i := 0 to dataLen - 9
      invariant bittester == Cursor(8 * i) && bitcount == bitloc == Taken(8 * i)
      invariant data[..] == Overwritten(UnpackedByte(s), 0, s, i, bittester)
    {
      val2, bittester, bitcount, bitloc := DecodeByte(data, bittester, bitcount, bitloc, s, i);
      StoreStep(UnpackedByte(s), 0, s, i, bittester);
      data[i] := val2;
    }
  }

  /** What unpacking computes, bit by bit, and what it leaves behind the payload. */
  lemma UnpackedBits(s: seq<bv8>, m: nat)
    requires 8 * m <= 7 * |s|
    ensures forall i: nat, j: BitIndex :: i < m ==>
              (Bit(Unpacked(s, m)[i], j) <==> Bit(s[(8 * i + j) / 7], (8 * i + j) % 7))
    ensures forall k :: m <= k < Groups(m) ==> Unpacked(s, m)[k] == 0
    ensures forall k :: m <= k < |s| && Groups(m) <= k ==> Unpacked(s, m)[k] == s[k]
  {
    hide Bit;
    forall i: nat, j: BitIndex | i < m
      ensures Bit(Unpacked(s, m)[i], j) <==> Bit(s[(8 * i + j) / 7], (8 * i + j) % 7)
    {
      GatherBit(SevenBit(s), 8 * i, 8, j);
    }
  }

  // ---------------------------------------------------------------------------
  // Packing
  // ---------------------------------------------------------------------------

  /** Group g of the stream, with bit 7 set. */
  function PackedByte(s: seq<bv8>): nat -> bv8 {
    (g: nat) => XorByte(Gather(EightBit(s), 7 * g, 7), Mask(7))
  }

  /** The last of the first n groups that an 8-bit write index sends to position k. */
  function LastGroup(k: nat, n: nat): nat
    requires k < n
  {
    k + 256 * ((n - 1 - k) / 256)
  }

  /** The buffer when n groups have been emitted. The write index is an unsigned char, so group 256
      lands on position 0 again. */
  function Emitted<T>(f: nat -> T, s: seq<T>, n: nat): (t: seq<T>)
    ensures |t| == |s|
  {
    seq(|s|, k requires 0 <= k < |s| => if k < 256 && k < n then f(LastGroup(k, n)) else s[k])
  }

  function Packed(s: seq<bv8>, m: nat): (t: seq<bv8>)
    ensures |t| == |s|
  {
    Emitted(PackedByte(s), s, Groups(m))
  }

  /** No position is written twice while the index does not wrap. */
  lemma FirstGroupIsLast(k: nat, n: nat)
    requires k < n <= 256
    ensures LastGroup(k, n) == k
  {
  }

  lemma EmittedAtStart<T>(f: nat -> T, s: seq<T>, n: nat)
    requires 0 < n && 0 < |s|
    ensures Emitted(f, s, n)[0] == f(256 * ((n - 1) / 256))
  {
    assert LastGroup(0, n) == 256 * ((n - 1) / 256);
  }

  lemma LastGroupStep(k: nat, n: nat)
    requires k < n + 1 && k < 256
    ensures LastGroup(k, n + 1) == if k == n % 256 then n else LastGroup(k, n)
  {
    if k == n % 256 {
      assert n - k == 256 * (n / 256);
    } else {
      assert (n - k) % 256 != 0;
    }
  }

  lemma EmittedStep<T>(f: nat -> T, s: seq<T>, n: nat)
    requires n % 256 < |s|
    ensures Emitted(f, s, n)[n % 256 := f(n)] == Emitted(f, s, n + 1)
  {
    var t, u := Emitted(f, s, n)[n % 256 := f(n)], Emitted(f, s, n + 1);
    forall k | 0 <= k < |s|
      ensures t[k] == u[k]
    {
      if k < 256 && k < n + 1 {
        LastGroupStep(k, n);
      }
    }
  }

  lemma GatherNone(bits: nat -> bool, base: nat)
    ensures Gather(bits, base, 0) == 0
  {
  }

  /** The start of an inner iteration: once a group has seven bits, mark and emit it. */
  method Flush(data: array<bv8>, val: bv8, count: nat, loc2: nat,
               ghost s: seq<bv8>, ghost bits: nat -> bool, ghost f: nat -> bv8, ghost p: nat)
    returns (val2: bv8, bitcount: nat, bitloc2: nat)
    requires count == Cursor(p) % 256 && loc2 == Taken(p) && |s| == data.Length
    requires loc2 == 7 ==> count < |s|
    requires data[..] == Emitted(f, s, Cursor(p))
    requires val == Gather(bits, 7 * Cursor(p), loc2)
    requires f(Cursor(p)) == XorByte(Gather(bits, 7 * Cursor(p), 7), Mask(7))
    modifies data
    ensures bitcount == p / 7 % 256 && bitloc2 == p % 7
    ensures data[..] == Emitted(f, s, p / 7)
    ensures val2 == Gather(bits, 7 * (p / 7), bitloc2)
  {
    hide Emitted, XorByte, Gather, Cursor, Taken, Mask;
    CursorStep(p);
    GatherNone(bits, 7 * (p / 7));
    val2, bitcount, bitloc2 := val, count, loc2;
    if bitloc2 == 7 {
      val2 := XorByte(val2, Mask(7));
      EmittedStep(f, s, Cursor(p));
      data[bitcount] := val2;
      bitcount := (bitcount + 1) % 256;
      val2 := 0;
      bitloc2 := 0;
    }
  }

  /** f gives the packed bytes of a stream: each group of seven bits, with bit 7 set. */
  ghost predicate Packs(bits: nat -> bool, f: nat -> bv8) {
    forall g: nat :: f(g) == XorByte(Gather(bits, 7 * g, 7), Mask(7))
  }

  lemma PackedBytePacks(s: seq<bv8>)
    ensures Packs(EightBit(s), PackedByte(s))
  {
  }

  /** Whenever a group is complete, its position exists. */
  lemma RoomForGroup(i: nat, j: nat, len: nat)
    requires j < 8 && ((8 * i + 7) / 7 <= len || 256 <= len)
    ensures Taken(8 * i + j) == 7 ==> Cursor(8 * i + j) % 256 < len
  {
    CursorStep(8 * i + j);
  }

  /** One pass of the inner loop: bit j of byte i. */
  method EncodeBit(data: array<bv8>, temdata: seq<bv8>, i: nat, j: BitIndex, val: bv8, count: nat, loc2: nat,
                   ghost s: seq<bv8>, ghost bits: nat -> bool, ghost f: nat -> bv8)
    returns (val2: bv8, bitcount: nat, bitloc2: nat)
    requires |s| == data.Length && ((8 * i + 7) / 7 <= |s| || 256 <= |s|)
    requires i < |temdata| && Packs(bits, f) && (bits(8 * i + j) <==> Bit(temdata[i], j))
    requires count == Cursor(8 * i + j) % 256 && loc2 == Taken(8 * i + j)
    requires data[..] == Emitted(f, s, Cursor(8 * i + j))
    requires val == Gather(bits, 7 * Cursor(8 * i + j), loc2)
    modifies data
    ensures bitcount == Cursor(8 * i + j + 1) % 256 && bitloc2 == Taken(8 * i + j + 1)
    ensures data[..] == Emitted(f, s, Cursor(8 * i + j + 1))
    ensures val2 == Gather(bits, 7 * Cursor(8 * i + j + 1), bitloc2)
  {
    hide Bit, XorByte, MoveBit, Emitted, Gather, Cursor, Taken;
    RoomForGroup(i, j, |s|);
    val2, bitcount, bitloc2 := Flush(data, val, count, loc2, s, bits, f, 8 * i + j);
    assert 7 * ((8 * i + j) / 7) + bitloc2 == 8 * i + j;
    GatherStep(bits, 7 * ((8 * i + j) / 7), bitloc2, temdata[i], j);
    val2 := XorByte(val2, MoveBit(temdata[i], j, bitloc2));
    CursorStep(8 * i + j);
    bitloc2 := bitloc2 + 1;
  }

  /** The inner loop: append the eight bits of payload byte i to the groups. */
  method EncodeByte(data: array<bv8>, temdata: seq<bv8>, i: nat, tester: nat, loc: nat, val: bv8, count: nat, loc2: nat,
                    ghost s: seq<bv8>, ghost bits: nat -> bool, ghost f: nat -> bv8)
    returns (bittester: nat, bitloc: nat, val2: bv8, bitcount: nat, bitloc2: nat)
    requires |s| == data.Length && ((8 * i + 7) / 7 <= |s| || 256 <= |s|)
    requires i < |temdata| && Packs(bits, f) && forall j: BitIndex :: bits(8 * i + j) <==> Bit(temdata[i], j)
    requires if i == 0 then tester == loc == 0 else tester == i - 1 && loc == 8
    requires count == Cursor(8 * i) % 256 && loc2 == Taken(8 * i)
    requires data[..] == Emitted(f, s, Cursor(8 * i))
    requires val == Gather(bits, 7 * Cursor(8 * i), loc2)
    modifies data
    ensures bittester == i && bitloc == 8
    ensures bitcount == Cursor(8 * (i + 1)) % 256 && bitloc2 == Taken(8 * (i + 1))
    ensures data[..] == Emitted(f, s, Cursor(8 * (i + 1)))
    ensures val2 == Gather(bits, 7 * Cursor(8 * (i + 1)), bitloc2)
  {
    hide Bit, Emitted, Gather, Cursor, Taken, Packs;
    bittester, bitloc, val2, bitcount, bitloc2 := tester, loc, val, count, loc2;
    for j := 0 to 8
      invariant if i + j == 0 then bittester == bitloc == 0
                else if j == 0 then bittester == i - 1 && bitloc == 8
                else bittester == i && bitloc == j
      invariant bitcount == Cursor(8 * i + j) % 256 && bitloc2 == Taken(8 * i + j)
      invariant data[..] == Emitted(f, s, Cursor(8 * i + j))
      invariant val2 == Gather(bits, 7 * Cursor(8 * i + j), bitloc2)
    {
      if bitloc == 8 {
        bitloc := 0;
        bittester := bittester + 1;
      }
      assert bittester == i && bitloc == j;
      val2, bitcount, bitloc2 := EncodeBit(data, temdata, bittester, bitloc, val2, bitcount, bitloc2, s, bits, f);
      bitloc := bitloc + 1;
    }
  }

  method EncryptBitwise(data: array<bv8>, dataLen: nat)
    requires 9 <= dataLen <= data.Length
    requires Groups(dataLen - 9) <= data.Length || 256 <= data.Length
    modifies data
    ensures data[..] == Packed(old(data[..]), dataLen - 9)
  {
    hide Bit, XorByte, PackedByte, EightBit;
    ghost var s := data[..];
    var temdata := data[..dataLen];
    var bittester := 0;
    var val2: bv8 := 0;
    var bitcount := 0;
    var bitloc := 0;
    var bitloc2 := 0;
    PackedBytePacks(s);
    for i := 0 to dataLen - 9
      invariant if i == 0 then bittester == bitloc == 0 else bittester == i - 1 && bitloc == 8
      invariant bitcount == Cursor(8 * i) % 256 && bitloc2 == Taken(8 * i)
      invariant data[..] == Emitted(PackedByte(s), s, Cursor(8 * i))
      invariant val2 == Gather(EightBit(s), 7 * Cursor(8 * i), bitloc2)
    {
      forall j: BitIndex {
        EightBitAt(s, i, j);
      }
      bittester, bitloc, val2, bitcount, bitloc2 :=
        EncodeByte(data, temdata, i, bittester, bitloc, val2, bitcount, bitloc2, s, EightBit(s), PackedByte(s));
    }
  }

  /** What packing computes, bit by bit: while the write index does not wrap, exactly the groups
      0..G-1, each with bit 7 set, and nothing else is written. */
  lemma PackedBits(s: seq<bv8>, m: nat)
    requires m <= |s| && Groups(m) <= |s| && Groups(m) <= 256
    ensures forall g: nat, j: BitIndex :: g < Groups(m) ==>
              (Bit(Packed(s, m)[g], j) <==> j == 7 || Bit(s[(7 * g + j) / 8], (7 * g + j) % 8))
    ensures Packed(s, m)[Groups(m)..] == s[Groups(m)..]
  {
    hide Bit, PackedByte;
    forall g: nat, j: BitIndex | g < Groups(m)
      ensures Bit(Packed(s, m)[g], j) <==> j == 7 || Bit(s[(7 * g + j) / 8], (7 * g + j) % 8)
    {
      FirstGroupIsLast(g, Groups(m));
      PackedByteBit(s, g, j);
    }
  }

  lemma PackedByteBit(s: seq<bv8>, g: nat, j: BitIndex)
    ensures Bit(PackedByte(s)(g), j) <==> j == 7 || EightBit(s)(7 * g + j)
  {
    GatherBit(EightBit(s), 7 * g, 7, j);
    BitOfXor(Gather(EightBit(s), 7 * g, 7), Mask(7), j);
    BitOfMask(7, j);
  }

  // ---------------------------------------------------------------------------
  // Round trip
  // ---------------------------------------------------------------------------

  /** The packed buffer's seven-bit stream starts with the payload's bits... */
  lemma FlushedBit(s: seq<bv8>, m: nat, p: nat)
    requires Groups(m) <= |s| && Groups(m) <= 256 && p < 7 * Groups(m)
    ensures SevenBit(Packed(s, m))(p) <==> EightBit(s)(p)
  {
    hide Bit, PackedByte, EightBit;
    var g := p / 7;
    FirstGroupIsLast(g, Groups(m));
    assert Packed(s, m)[g] == PackedByte(s)(g);
    PackedByteBit(s, g, p % 7);
    assert 7 * g + p % 7 == p;
  }

  /** ...and goes on with the byte behind the groups. */
  lemma UnflushedBit(s: seq<bv8>, m: nat, p: nat)
    requires Groups(m) < |s| && 7 * Groups(m) <= p < 8 * m
    ensures p - 7 * Groups(m) < 8
    ensures SevenBit(Packed(s, m))(p) <==> Bit(s[Groups(m)], p - 7 * Groups(m))
  {
    assert p / 7 == Groups(m) && p % 7 == p - 7 * Groups(m);
  }

  /** The bits of the last payload byte that sit in the group the packer never flushes agree with
      the byte that already lies where that group would have gone. */
  ghost predicate TailAgrees(s: seq<bv8>, m: nat)
    requires 0 < m <= |s| && Groups(m) < |s|
  {
    forall j: BitIndex {:trigger Bit(s[m - 1], j)} :: 7 * Groups(m) <= 8 * (m - 1) + j ==>
      (Bit(s[m - 1], j) <==> Bit(s[Groups(m)], 8 * (m - 1) + j - 7 * Groups(m)))
  }

  lemma UnpackedByteBit(s: seq<bv8>, i: nat, j: BitIndex)
    ensures Bit(UnpackedByte(s)(i), j) <==> SevenBit(s)(8 * i + j)
  {
    GatherBit(SevenBit(s), 8 * i, 8, j);
  }

  lemma RoundTripByte(s: seq<bv8>, m: nat, i: nat)
    requires m <= |s| && i < m && 8 * i + 8 <= 7 * Groups(m) <= 7 * |s| && Groups(m) <= 256
    ensures UnpackedByte(Packed(s, m))(i) == s[i]
  {
    var t := UnpackedByte(Packed(s, m))(i);
    forall j: BitIndex
      ensures Bit(t, j) <==> Bit(s[i], j)
    {
      UnpackedByteBit(Packed(s, m), i, j);
      FlushedBit(s, m, 8 * i + j);
      EightBitAt(s, i, j);
    }
    SameBits(t, s[i]);
  }

  /** While the write index does not wrap, unpacking restores every payload byte whose bits were all
      flushed, which is every byte but the last. */
  lemma RoundTrip(s: seq<bv8>, m: nat, n: nat)
    requires n <= m <= |s| && 8 * m <= 7 * |s| && Groups(m) <= 256
    ensures forall i :: 0 <= i < n && 8 * i + 8 <= 7 * Groups(m) ==> Unpacked(Packed(s, m), n)[i] == s[i]
    ensures forall i: nat :: 8 * i + 8 <= 7 * Groups(m) <==> i + 1 < m
  {
    var t := Unpacked(Packed(s, m), n);
    forall i | 0 <= i < n && 8 * i + 8 <= 7 * Groups(m)
      ensures t[i] == s[i]
    {
      RoundTripByte(s, m, i);
    }
  }

  /** The last payload byte comes back with its unflushed bits taken from the byte behind the groups. */
  lemma LastByte(s: seq<bv8>, m: nat, j: BitIndex)
    requires 0 < m <= |s| && 8 * m <= 7 * |s| && Groups(m) <= 256
    ensures Groups(m) < |s|
    ensures Bit(UnpackedByte(Packed(s, m))(m - 1), j) <==>
            var p := 8 * (m - 1) + j;
            if p < 7 * Groups(m) then Bit(s[m - 1], j) else Bit(s[Groups(m)], p - 7 * Groups(m))
  {
    hide Bit, SevenBit, EightBit, UnpackedByte, Packed;
    var p := 8 * (m - 1) + j;
    UnpackedByteBit(Packed(s, m), m - 1, j);
    if p < 7 * Groups(m) {
      FlushedBit(s, m, p);
      EightBitAt(s, m - 1, j);
    } else {
      UnflushedBit(s, m, p);
    }
  }

  lemma LastByteRoundTrip(s: seq<bv8>, m: nat)
    requires 0 < m <= |s| && 8 * m <= 7 * |s| && Groups(m) <= 256
    ensures Groups(m) < |s|
    ensures UnpackedByte(Packed(s, m))(m - 1) == s[m - 1] <==> TailAgrees(s, m)
  {
    var t := UnpackedByte(Packed(s, m))(m - 1);
    if TailAgrees(s, m) {
      forall j: BitIndex
        ensures Bit(t, j) <==> Bit(s[m - 1], j)
      {
        LastByte(s, m, j);
      }
      SameBits(t, s[m - 1]);
    } else {
      var j: BitIndex :| 7 * Groups(m) <= 8 * (m - 1) + j
                         && Bit(s[m - 1], j) != Bit(s[Groups(m)], 8 * (m - 1) + j - 7 * Groups(m));
      LastByte(s, m, j);
    }
  }

  lemma UnpackedAt(s: seq<bv8>, m: nat, i: nat)
    requires i < m && 8 * m <= 7 * |s|
    ensures Unpacked(s, m)[i] == UnpackedByte(s)(i)
  {
  }

  /** The whole payload survives exactly when its unflushed tail happens to lie in place already. */
  lemma WholeRoundTrip(s: seq<bv8>, m: nat)
    requires 0 < m <= |s| && 8 * m <= 7 * |s| && Groups(m) <= 256
    ensures Groups(m) < |s|
    ensures Unpacked(Packed(s, m), m)[..m] == s[..m] <==> TailAgrees(s, m)
  {
    hide Unpacked, Packed, TailAgrees;
    RoundTrip(s, m, m);
    LastByteRoundTrip(s, m);
    UnpackedAt(Packed(s, m), m, m - 1);
    var t := Unpacked(Packed(s, m), m);
    assert t[..m] == s[..m] <==> t[m - 1] == s[m - 1] by {
      if t[m - 1] == s[m - 1] {
        forall i | 0 <= i < m
          ensures t[i] == s[i]
        {
          assert i + 1 < m || i == m - 1;
        }
      } else {
        assert t[..m][m - 1] == t[m - 1] && s[..m][m - 1] == s[m - 1];
      }
    }
  }

  /** A payload of zeros that ends in a set bit, with zeros behind it. */
  function TailWitness(m: nat): (s: seq<bv8>)
    requires 0 < m
  {
    seq(2 * m, k => if k == m - 1 then Mask(7) else 0)
  }

  /** For every size there is a payload whose last byte is lost. */
  lemma TailLost(m: nat)
    requires 0 < m && Groups(m) <= 256
    ensures var s := TailWitness(m);
            && Groups(m) < |s| && !TailAgrees(s, m)
            && Unpacked(Packed(s, m), m)[..m] != s[..m]
  {
    hide Bit, Mask, Unpacked, Packed;
    var s := TailWitness(m);
    BitOfMask(7, 7);
    BitOfZero(8 * (m - 1) + 7 - 7 * Groups(m));
    assert Bit(s[m - 1], 7) && s[Groups(m)] == 0;
    WholeRoundTrip(s, m);
  }

  /** Every payload of m bytes comes back, but for its last byte. */
  ghost predicate AlwaysRestores(m: nat) {
    forall s: seq<bv8> :: m + 9 <= |s| && 8 * m <= 7 * |s| ==>
      forall i :: 0 <= i && i + 1 < m ==> Unpacked(Packed(s, m), m)[i] == s[i]
  }

  /** A payload for which the wrapped write index destroys group 0: all zero but for the first bit of
      the last group that is written to position 0. */
  function WrapWitness(m: nat): (s: seq<bv8>)
    requires 256 < Groups(m)
  {
    seq(2 * m, k => if k == 224 * ((Groups(m) - 1) / 256) then 1 else 0)
  }

  lemma WrapLosesData(m: nat)
    requires 256 < Groups(m)
    ensures var s := WrapWitness(m); Unpacked(Packed(s, m), m)[0] != s[0]
  {
    hide Bit, PackedByte;
    var s := WrapWitness(m);
    var q := (Groups(m) - 1) / 256;
    var t := Packed(s, m);
    EmittedAtStart(PackedByte(s), s, Groups(m));
    assert EightBit(s)(7 * (256 * q)) by {
      BitOfMask(0, 0);
      EightBitAt(s, 224 * q, 0);
    }
    PackedByteBit(s, 256 * q, 0);
    UnpackedByteBit(t, 0, 0);
    BitOfZero(0);
  }

  /** The packer is good for exactly the payloads whose groups an 8-bit index can count. */
  lemma AlwaysRestoresIff(m: nat)
    ensures AlwaysRestores(m) <==> Groups(m) <= 256
  {
    if Groups(m) <= 256 {
      forall s: seq<bv8> | m + 9 <= |s| && 8 * m <= 7 * |s|
        ensures forall i :: 0 <= i && i + 1 < m ==> Unpacked(Packed(s, m), m)[i] == s[i]
      {
        RoundTrip(s, m, m);
      }
    } else {
      WrapLosesData(m);
      assert 0 + 1 < m;
    }
  }
}
