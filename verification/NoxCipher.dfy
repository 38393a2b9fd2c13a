/** The file cipher of src/game/NoxCrypt.cpp: a Blowfish network over a table that holds four
    256-word S-boxes followed by eighteen subkeys, and the same eighteen subkeys again, reversed. */
module NoxCipher {
  import opened Words

  /** The two 32-bit halves of an 8-byte block. */
  datatype Block = Block(left: bv32, right: bv32)

  const ENCRYPT_OFFSET := 0x400
  const DECRYPT_OFFSET := 0x418
  const SUBKEYS := 18

  /** Long enough to hold the S-boxes and both copies of the key schedule. */
  type Table = t: seq<bv32> | |t| >= DECRYPT_OFFSET + SUBKEYS witness seq(DECRYPT_OFFSET + SUBKEYS, _ => 0)

  function Offset(mode: int): nat {
    if mode == 1 then DECRYPT_OFFSET else ENCRYPT_OFFSET
  }

  function Schedule(table: Table, mode: int): (keys: seq<bv32>)
    ensures |keys| == SUBKEYS
  {
    table[Offset(mode)..Offset(mode) + SUBKEYS]
  }

  ghost predicate Reverses(keys: seq<bv32>, back: seq<bv32>) {
    && |keys| == |back| == SUBKEYS
    && forall i :: 0 <= i < SUBKEYS ==> back[i] == keys[SUBKEYS - 1 - i]
  }

  /** The words at the decryption offset are those at the encryption offset, in reverse. */
  ghost predicate HasReversedSchedule(table: Table) {
    Reverses(Schedule(table, 0), Schedule(table, 1))
  }

  // ---------------------------------------------------------------------------
  // Word arithmetic: 32-bit, addition wraps around
  // ---------------------------------------------------------------------------

  function Xor(a: bv32, b: bv32): bv32 { a ^ b }

  function Plus(a: bv32, b: bv32): bv32 { a + b }

  lemma XorTwice(a: bv32, k: bv32)
    ensures Xor(Xor(a, k), k) == a
  {
  }

  lemma XorAssociates(a: bv32, b: bv32, c: bv32)
    ensures Xor(Xor(a, b), c) == Xor(a, Xor(b, c))
  {
  }

  lemma XorUnmask(a: bv32, f: bv32, k: bv32)
    ensures Xor(Xor(Xor(a, f), k), f) == Xor(a, k)
  {
    assert ((a ^ f) ^ k) ^ f == a ^ k;
  }

  // ---------------------------------------------------------------------------
  // The textbook cipher: "Description of Blowfish" in B. Schneier, "Description of a New
  // Variable-Length Key, 64-Bit Block Cipher (Blowfish)". The network is stated over any
  // function f on words; F is the one the S-boxes define.
  // ---------------------------------------------------------------------------

  /** The lookups by the three upper bytes: two added, the third xored in. */
  function ThreeLookups(table: Table, x: bv32): bv32 {
    Xor(Plus(table[Byte3(x) as int], table[0x100 + Byte2(x) as int]), table[0x200 + Byte1(x) as int])
  }

  function F(table: Table, x: bv32): bv32 {
    Plus(ThreeLookups(table, x), table[0x300 + Byte0(x) as int])
  }

  lemma XorIs(a: bv32, b: bv32)
    ensures Xor(a, b) == a ^ b
  {
  }

  lemma PlusIs(a: bv32, b: bv32)
    ensures Plus(a, b) == a + b
  {
  }

  lemma MixedIs(s3: bv32, s2: bv32, s1: bv32, s0: bv32)
    ensures Plus(Xor(Plus(s3, s2), s1), s0) == ((s3 + s2) ^ s1) + s0
  {
    hide Plus, Xor;
    PlusIs(s3, s2);
    XorIs(s3 + s2, s1);
    PlusIs((s3 + s2) ^ s1, s0);
  }

  /** What F computes: the lookups by the first two bytes are added, the third is xored in, the fourth
      is added. */
  lemma FOfBytes(table: Table, b3: bv8, b2: bv8, b1: bv8, b0: bv8, s3: bv32, s2: bv32, s1: bv32, s0: bv32)
    requires s3 == table[b3 as int] && s2 == table[0x100 + b2 as int]
    requires s1 == table[0x200 + b1 as int] && s0 == table[0x300 + b0 as int]
    ensures F(table, WordOf(b3, b2, b1, b0)) == ((s3 + s2) ^ s1) + s0
  {
    hide Plus, Xor, WordOf, Byte3, Byte2, Byte1, Byte0;
    BytesOfWord(b3, b2, b1, b0);
    MixedIs(s3, s2, s1, s0);
  }

  /** How F answers to a xor into a word of the third S-box: only at the looked-up place, and there it
      goes in before the last addition. */
  lemma FOfChangedThird(table: Table, x: bv32, i: nat, d: bv32)
    requires i < 0x100
    ensures F(table[0x200 + i := Xor(table[0x200 + i], d)], x)
         == if i == Byte1(x) as int then Plus(Xor(ThreeLookups(table, x), d), table[0x300 + Byte0(x) as int]) else F(table, x)
  {
    hide Xor, Plus, Byte3, Byte2, Byte1, Byte0;
    XorAssociates(Plus(table[Byte3(x) as int], table[0x100 + Byte2(x) as int]), table[0x200 + Byte1(x) as int], d);
  }

  /** And to a new word in the fourth: it is added instead. */
  lemma FOfChangedFourth(table: Table, x: bv32, i: nat, w: bv32)
    requires i < 0x100
    ensures F(table[0x300 + i := w], x) == if i == Byte0(x) as int then Plus(ThreeLookups(table, x), w) else F(table, x)
  {
    hide Xor, Plus, Byte3, Byte2, Byte1, Byte0;
  }

  /** One round: xor the subkey into the left half, f of that into the right half, swap. */
  function Round(f: bv32 -> bv32, key: bv32, b: Block): Block {
    var left := Xor(b.left, key);
    Block(Xor(b.right, f(left)), left)
  }

  function Rounds(f: bv32 -> bv32, keys: seq<bv32>, b: Block): Block {
    if keys == [] then b
    else Round(f, keys[|keys| - 1], Rounds(f, keys[..|keys| - 1], b))
  }

  /** Sixteen rounds, undo the last swap, and xor the last two subkeys in. */
  function Encipher(f: bv32 -> bv32, keys: seq<bv32>, b: Block): Block
    requires |keys| == SUBKEYS
  {
    var s := Rounds(f, keys[..16], b);
    Block(Xor(s.right, keys[17]), Xor(s.left, keys[16]))
  }

  lemma {:induction false} RoundsStep(f: bv32 -> bv32, keys: seq<bv32>, n: nat, b: Block)
    requires n < |keys|
    ensures Rounds(f, keys[..n + 1], b) == Round(f, keys[n], Rounds(f, keys[..n], b))
  {
    assert keys[..n + 1][..n] == keys[..n];
  }

  /** After j rounds of deciphering, the state is the enciphering state with j rounds to go,
      its halves exchanged and each masked by its subkey. */
  lemma {:induction false} Unwind(f: bv32 -> bv32, keys: seq<bv32>, back: seq<bv32>, b: Block, j: nat)
    requires Reverses(keys, back) && j <= 16
    ensures var s := Rounds(f, keys[..16 - j], b);
            Rounds(f, back[..j], Encipher(f, keys, b))
            == Block(Xor(s.right, keys[17 - j]), Xor(s.left, keys[16 - j]))
  {
    if j > 0 {
      Unwind(f, keys, back, b, j - 1);
      RoundsStep(f, back, j - 1, Encipher(f, keys, b));
      RoundsStep(f, keys, 16 - j, b);
      var s := Rounds(f, keys[..16 - j], b);
      var t := Rounds(f, keys[..17 - j], b);
      XorTwice(t.right, keys[18 - j]);
      XorUnmask(s.right, f(t.right), keys[17 - j]);
    }
  }

  /** Deciphering with the reversed subkeys undoes enciphering, whatever f computes. */
  lemma DecipherUndoesEncipher(f: bv32 -> bv32, keys: seq<bv32>, back: seq<bv32>, b: Block)
    requires Reverses(keys, back)
    ensures Encipher(f, back, Encipher(f, keys, b)) == b
  {
    Unwind(f, keys, back, b, 16);
    assert keys[..0] == [];
    XorTwice(b.left, keys[0]);
    XorTwice(b.right, keys[1]);
  }

  /** The network without rounds or swaps: each half is the one before the last, xored with f of the
      last and with a subkey. */
  function Half(f: bv32 -> bv32, keys: seq<bv32>, left: bv32, right: bv32, n: nat): bv32
    requires n <= |keys|
  {
    if n == 0 then right
    else if n == 1 then Xor(left, keys[0])
    else Xor(Xor(Half(f, keys, left, right, n - 2), f(Half(f, keys, left, right, n - 1))), keys[n - 1])
  }

  lemma {:induction false} RoundsAreHalves(f: bv32 -> bv32, keys: seq<bv32>, b: Block, n: nat)
    requires n < |keys|
    ensures Rounds(f, keys[..n], b).right == Half(f, keys, b.left, b.right, n)
    ensures Xor(Rounds(f, keys[..n], b).left, keys[n]) == Half(f, keys, b.left, b.right, n + 1)
  {
    hide Xor;
    if n > 0 {
      RoundsAreHalves(f, keys, b, n - 1);
      RoundsStep(f, keys, n - 1, b);
    }
  }

  /** Enciphering is this recurrence carried on to the sixteenth and seventeenth half. */
  lemma EncipherIsRecurrence(f: bv32 -> bv32, keys: seq<bv32>, b: Block)
    requires |keys| == SUBKEYS
    ensures Encipher(f, keys, b)
         == Block(Xor(Half(f, keys, b.left, b.right, 16), keys[17]), Half(f, keys, b.left, b.right, 17))
  {
    hide Xor, Half, Rounds;
    RoundsAreHalves(f, keys, b, 16);
  }

  // ---------------------------------------------------------------------------
  // Blocks in a byte buffer
  // ---------------------------------------------------------------------------

  type Bytes8 = s: seq<bv8> | |s| == 8 witness [0, 0, 0, 0, 0, 0, 0, 0]

  function Load(s: Bytes8): Block {
    Block(WordOf(s[0], s[1], s[2], s[3]), WordOf(s[4], s[5], s[6], s[7]))
  }

  function Stored(b: Block): Bytes8 {
    [Byte3(b.left), Byte2(b.left), Byte1(b.left), Byte0(b.left),
     Byte3(b.right), Byte2(b.right), Byte1(b.right), Byte0(b.right)]
  }

  lemma LoadStored(b: Block)
    ensures Load(Stored(b)) == b
  {
    WordOfBytes(b.left);
    WordOfBytes(b.right);
  }

  lemma StoredLoad(s: Bytes8)
    ensures Stored(Load(s)) == s
  {
    BytesOfWord(s[0], s[1], s[2], s[3]);
    BytesOfWord(s[4], s[5], s[6], s[7]);
  }

  function CryptBlock(table: Table, mode: int, s: Bytes8): Bytes8 {
    Stored(Encipher(x => F(table, x), Schedule(table, mode), Load(s)))
  }

  lemma CryptBlockRoundTrip(table: Table, mode: int, back: int, s: Bytes8)
    requires HasReversedSchedule(table)
    requires (mode == 1) != (back == 1)
    ensures CryptBlock(table, back, CryptBlock(table, mode, s)) == s
  {
    var f := x => F(table, x);
    assert Reverses(Schedule(table, mode), Schedule(table, back));
    DecipherUndoesEncipher(f, Schedule(table, mode), Schedule(table, back), Load(s));
    LoadStored(Encipher(f, Schedule(table, mode), Load(s)));
    StoredLoad(s);
  }

  /** The k-th block of a buffer. */
  function Chunk(s: seq<bv8>, k: nat): Bytes8
    requires 8 * k + 8 <= |s|
  {
    s[8 * k..8 * k + 8]
  }

  /** g applied to each of the first n blocks, independently; the rest as it was. */
  function MapBlocks(g: Bytes8 -> Bytes8, s: seq<bv8>, n: nat): (r: seq<bv8>)
    requires 8 * n <= |s|
    ensures |r| == |s|
  {
    seq(|s|, i requires 0 <= i < |s| => if i < 8 * n then g(Chunk(s, i / 8))[i % 8] else s[i])
  }

  lemma MappedChunk(g: Bytes8 -> Bytes8, s: seq<bv8>, n: nat, k: nat)
    requires 8 * n <= |s| && 8 * k + 8 <= |s|
    ensures Chunk(MapBlocks(g, s, n), k) == if k < n then g(Chunk(s, k)) else Chunk(s, k)
  {
    forall i | 0 <= i < 8
      ensures MapBlocks(g, s, n)[8 * k + i] == if k < n then g(Chunk(s, k))[i] else s[8 * k + i]
    {
      assert (8 * k + i) / 8 == k && (8 * k + i) % 8 == i;
    }
  }

  lemma MapBlocksInverse(g: Bytes8 -> Bytes8, h: Bytes8 -> Bytes8, s: seq<bv8>, n: nat)
    requires 8 * n <= |s|
    requires forall c :: h(g(c)) == c
    ensures MapBlocks(h, MapBlocks(g, s, n), n) == s
  {
    var r := MapBlocks(g, s, n);
    forall i | 0 <= i < |s|
      ensures MapBlocks(h, r, n)[i] == s[i]
    {
      if i < 8 * n {
        MappedChunk(g, s, n, i / 8);
        assert h(g(Chunk(s, i / 8))) == Chunk(s, i / 8);
      }
    }
  }

  /** Mapping one block more replaces just that block. */
  lemma MapBlocksStep(g: Bytes8 -> Bytes8, s: seq<bv8>, k: nat)
    requires 8 * k + 8 <= |s|
    ensures var r := MapBlocks(g, s, k);
            MapBlocks(g, s, k + 1) == r[..8 * k] + g(Chunk(r, k)) + r[8 * k + 8..]
  {
    MappedChunk(g, s, k, k);
    var r := MapBlocks(g, s, k);
    var t := r[..8 * k] + g(Chunk(r, k)) + r[8 * k + 8..];
    forall i | 0 <= i < |s|
      ensures MapBlocks(g, s, k + 1)[i] == t[i]
    {
      if 8 * k <= i < 8 * k + 8 {
        assert i / 8 == k && i % 8 == i - 8 * k;
      }
    }
  }

  /** The number of blocks the loop visits for a buffer length that need not be a multiple of 8. */
  function BlockCount(buffLen: nat): (n: nat)
    ensures buffLen <= 8 * n < buffLen + 8
  {
    (buffLen + 7) / 8
  }

  function CryptBytes(table: Table, mode: int, s: seq<bv8>, n: nat): (r: seq<bv8>)
    requires 8 * n <= |s|
    ensures |r| == |s|
  {
    MapBlocks(c => CryptBlock(table, mode, c), s, n)
  }

  /** Either mode undoes the other, on every buffer. */
  lemma CryptRoundTrip(table: Table, mode: int, back: int, s: seq<bv8>, n: nat)
    requires HasReversedSchedule(table) && 8 * n <= |s|
    requires (mode == 1) != (back == 1)
    ensures CryptBytes(table, back, CryptBytes(table, mode, s, n), n) == s
  {
    forall c: Bytes8
      ensures CryptBlock(table, back, CryptBlock(table, mode, c)) == c
    {
      CryptBlockRoundTrip(table, mode, back, c);
    }
    MapBlocksInverse(c => CryptBlock(table, mode, c), c => CryptBlock(table, back, c), s, n);
  }

  /** The big-endian word at a position. */
  function WordAt(s: seq<bv8>, i: nat): bv32
    requires i + 4 <= |s|
  {
    (s[i] as bv32) * 0x100_0000 + (s[i + 1] as bv32) * 0x1_0000 + (s[i + 2] as bv32) * 0x100 + (s[i + 3] as bv32)
  }

  lemma WordAtIs(s: seq<bv8>, i: nat)
    requires i + 4 <= |s|
    ensures WordAt(s, i) == WordOf(s[i], s[i + 1], s[i + 2], s[i + 3])
  {
    WordIsBigEndian(s[i], s[i + 1], s[i + 2], s[i + 3]);
  }

  lemma StoredWords(b: Block)
    ensures WordAt(Stored(b), 0) == b.left && WordAt(Stored(b), 4) == b.right
  {
    hide WordAt, WordOf, Byte3, Byte2, Byte1, Byte0;
    WordOfBytes(b.left);
    WordOfBytes(b.right);
    WordAtIs(Stored(b), 0);
    WordAtIs(Stored(b), 4);
  }

  /** All of it, from bytes to bytes: the two words of each block in the first n go through the
      recurrence, under the subkeys at 0x400, or at 0x418 in mode 1; everything else stays. */
  lemma CryptWords(table: Table, mode: int, s: seq<bv8>, n: nat, k: nat)
    requires k < n && 8 * n <= |s|
    ensures var keys := if mode == 1 then table[0x418..0x42A] else table[0x400..0x412];
            var f, r := x => F(table, x), CryptBytes(table, mode, s, n);
            var left, right := WordAt(s, 8 * k), WordAt(s, 8 * k + 4);
            && WordAt(r, 8 * k) == Xor(Half(f, keys, left, right, 16), keys[17])
            && WordAt(r, 8 * k + 4) == Half(f, keys, left, right, 17)
            && r[8 * n..] == s[8 * n..]
  {
    hide F, WordAt, WordOf, Encipher, Half, Stored, Xor, MapBlocks;
    var f, keys := x => F(table, x), Schedule(table, mode);
    var r, c := CryptBytes(table, mode, s, n), Chunk(s, k);
    var d := CryptBlock(table, mode, c);
    MappedChunk(c => CryptBlock(table, mode, c), s, n, k);
    assert Chunk(r, k) == d;
    SameWord(s, 8 * k, c, 0);
    SameWord(s, 8 * k + 4, c, 4);
    SameWord(r, 8 * k, d, 0);
    SameWord(r, 8 * k + 4, d, 4);
    WordAtIs(c, 0);
    WordAtIs(c, 4);
    EncipherIsRecurrence(f, keys, Load(c));
    StoredWords(Encipher(f, keys, Load(c)));
    RestStays(c => CryptBlock(table, mode, c), s, n);
  }

  lemma SameWord(s: seq<bv8>, i: nat, t: seq<bv8>, j: nat)
    requires i + 4 <= |s| && j + 4 <= |t| && s[i..i + 4] == t[j..j + 4]
    ensures WordAt(s, i) == WordAt(t, j)
  {
    hide WordOf, WordAt;
    WordAtIs(s, i);
    WordAtIs(t, j);
    var u, v := s[i..i + 4], t[j..j + 4];
    assert s[i] == u[0] && s[i + 1] == u[1] && s[i + 2] == u[2] && s[i + 3] == u[3];
    assert t[j] == v[0] && t[j + 1] == v[1] && t[j + 2] == v[2] && t[j + 3] == v[3];
  }

  lemma RestStays(g: Bytes8 -> Bytes8, s: seq<bv8>, n: nat)
    requires 8 * n <= |s|
    ensures MapBlocks(g, s, n)[8 * n..] == s[8 * n..]
  {
  }

  // ---------------------------------------------------------------------------
  // The in-place routine
  // ---------------------------------------------------------------------------

  /** Two textbook rounds are one iteration of the unrolled loop, which never swaps. */
  lemma DoubleRound(f: bv32 -> bv32, keys: seq<bv32>, i: nat, b: Block, part1: bv32, part2: bv32)
    requires 2 * i + 2 <= |keys|
    requires Block(part1, part2) == Rounds(f, keys[..2 * i], b)
    ensures var p1 := Xor(part1, keys[2 * i]);
            var p2 := Xor(part2, Xor(f(p1), keys[2 * i + 1]));
            Rounds(f, keys[..2 * i + 2], b) == Block(Xor(p1, f(p2)), p2)
  {
    RoundsStep(f, keys, 2 * i, b);
    RoundsStep(f, keys, 2 * i + 1, b);
    XorAssociates(part2, f(Xor(part1, keys[2 * i])), keys[2 * i + 1]);
  }

  /** The four table lookups, accumulated in the source's order. */
  method Sum(table: Table, part: bv32) returns (sum: bv32)
    ensures sum == F(table, part)
  {
    sum := 0;
    sum := Plus(sum, table[Byte3(part) as int]);
    assert sum == table[Byte3(part) as int];
    sum := Plus(sum, table[0x100 + Byte2(part) as int]);
    sum := Xor(sum, table[0x200 + Byte1(part) as int]);
    sum := Plus(sum, table[0x300 + Byte0(part) as int]);
  }

  /** One iteration of the unrolled loop. */
  method RunDoubleRound(table: Table, offset: nat, part1: bv32, part2: bv32) returns (p1: bv32, p2: bv32)
    requires offset + 2 <= |table|
    ensures p2 == Xor(part2, Xor(F(table, Xor(part1, table[offset])), table[offset + 1]))
    ensures p1 == Xor(Xor(part1, table[offset]), F(table, p2))
  {
    hide F, Xor;
    p1 := Xor(part1, table[offset]);
    var sum := Sum(table, p1);
    sum := Xor(sum, table[offset + 1]);
    p2 := Xor(part2, sum);
    sum := Sum(table, p2);
    p1 := Xor(p1, sum);
  }

  /** What one block goes through between loading and storing. The halves come out exchanged. */
  method RunRounds(table: Table, taOffset: nat, b: Block, ghost keys: seq<bv32>)
    returns (part1: bv32, part2: bv32)
    requires taOffset + SUBKEYS <= |table| && keys == table[taOffset..taOffset + SUBKEYS]
    ensures Block(part2, part1) == Encipher(x => F(table, x), keys, b)
  {
    hide F, Xor, Rounds;
    ghost var f := x => F(table, x);
    part1, part2 := b.left, b.right;
    var offset := taOffset;
    NoRounds(f, keys, b);
    for i := 0 to 8
      invariant offset == taOffset + 2 * i
      invariant Block(part1, part2) == Rounds(f, keys[..2 * i], b)
    {
      DoubleRound(f, keys, i, b, part1, part2);
      assert keys[2 * i] == table[offset] && keys[2 * i + 1] == table[offset + 1];
      part1, part2 := RunDoubleRound(table, offset, part1, part2);
      offset := offset + 2;
    }
    part1 := Xor(part1, table[offset]);
    offset := offset + 1;
    part2 := Xor(part2, table[offset]);
  }

  lemma NoRounds(f: bv32 -> bv32, keys: seq<bv32>, b: Block)
    ensures Rounds(f, keys[..0], b) == b
  {
  }

  method LoadBlock(data: array<bv8>, dataNdx: nat) returns (b: Block)
    requires dataNdx + 8 <= data.Length
    ensures b == Load(data[dataNdx..dataNdx + 8])
  {
    b := Block(WordOf(data[dataNdx], data[dataNdx + 1], data[dataNdx + 2], data[dataNdx + 3]),
               WordOf(data[dataNdx + 4], data[dataNdx + 5], data[dataNdx + 6], data[dataNdx + 7]));
  }

  /** Write a block back, second half first. */
  method Store(data: array<bv8>, dataNdx: nat, part1: bv32, part2: bv32)
    requires dataNdx + 8 <= data.Length
    modifies data
    ensures data[..] == old(data[..dataNdx]) + Stored(Block(part2, part1)) + old(data[dataNdx + 8..])
  {
    data[dataNdx] := Byte3(part2);
    data[dataNdx + 1] := Byte2(part2);
    data[dataNdx + 2] := Byte1(part2);
    data[dataNdx + 3] := Byte0(part2);
    data[dataNdx + 4] := Byte3(part1);
    data[dataNdx + 5] := Byte2(part1);
    data[dataNdx + 6] := Byte1(part1);
    data[dataNdx + 7] := Byte0(part1);
  }

  /** One iteration of the loop over the buffer, on block k. */
  method CryptNext(data: array<bv8>, dataNdx: nat, table: Table, taOffset: nat,
                   ghost mode: int, ghost before: seq<bv8>, ghost k: nat)
    requires dataNdx == 8 * k && dataNdx + 8 <= data.Length == |before| && taOffset == Offset(mode)
    requires data[..] == CryptBytes(table, mode, before, k)
    modifies data
    ensures data[..] == CryptBytes(table, mode, before, k + 1)
  {
    ghost var s := data[..];
    var b := LoadBlock(data, dataNdx);
    var part1, part2 := RunRounds(table, taOffset, b, Schedule(table, mode));
    Store(data, dataNdx, part1, part2);
    assert data[..] == s[..8 * k] + CryptBlock(table, mode, Chunk(s, k)) + s[8 * k + 8..];
    MapBlocksStep(c => CryptBlock(table, mode, c), before, k);
  }

  lemma CryptNoBytes(table: Table, mode: int, s: seq<bv8>)
    ensures CryptBytes(table, mode, s, 0) == s
  {
  }

  method Crypt(data: array<bv8>, buffLen: nat, tables: map<int, Table>, tabl: int, mode: int) returns (code: int)
    requires forall k :: 1 <= k <= 7 ==> k in tables
    requires 8 * BlockCount(buffLen) <= data.Length
    modifies data
    ensures code == if 1 <= tabl <= 7 then 0 else 1
    ensures data[..] == if code == 0 then CryptBytes(tables[tabl], mode, old(data[..]), BlockCount(buffLen))
                        else old(data[..])
  {
    hide CryptBytes;
    if tabl < 1 || 7 < tabl {
      return 1;
    }
    var table := tables[tabl];
    var taOffset := if mode == 1 then DECRYPT_OFFSET else ENCRYPT_OFFSET;
    ghost var before, k := data[..], 0;
    CryptNoBytes(table, mode, before);
    var dataNdx := 0;
    while dataNdx < buffLen
      invariant dataNdx == 8 * k && k <= BlockCount(buffLen)
      invariant data[..] == CryptBytes(table, mode, before, k)
    {
      CryptNext(data, dataNdx, table, taOffset, mode, before, k);
      dataNdx, k := dataNdx + 8, k + 1;
    }
    code := 0;
  }
}
