/** The four bytes of a 32-bit word. Each operation is a small function so that the facts about machine
    words stay in the lemmas of this module. */
module Words {

  // Byte3 is the most significant.
  function Byte3(w: bv32): bv8 { ((w >> 24) & 0xFF) as bv8 }

  function Byte2(w: bv32): bv8 { ((w >> 16) & 0xFF) as bv8 }

  function Byte1(w: bv32): bv8 { ((w >> 8) & 0xFF) as bv8 }

  function Byte0(w: bv32): bv8 { (w & 0xFF) as bv8 }

  function WordOf(b3: bv8, b2: bv8, b1: bv8, b0: bv8): bv32 {
    ((b3 as bv32) << 24) | ((b2 as bv32) << 16) | ((b1 as bv32) << 8) | (b0 as bv32)
  }

  lemma BytesOfWord(b3: bv8, b2: bv8, b1: bv8, b0: bv8)
    ensures var w := WordOf(b3, b2, b1, b0);
            Byte3(w) == b3 && Byte2(w) == b2 && Byte1(w) == b1 && Byte0(w) == b0
  {
  }

  lemma WordOfBytes(w: bv32)
    ensures WordOf(Byte3(w), Byte2(w), Byte1(w), Byte0(w)) == w
  {
  }

  /** The first byte weighs most. */
  lemma WordIsBigEndian(b3: bv8, b2: bv8, b1: bv8, b0: bv8)
    ensures WordOf(b3, b2, b1, b0)
         == (b3 as bv32) * 0x100_0000 + (b2 as bv32) * 0x1_0000 + (b1 as bv32) * 0x100 + (b0 as bv32)
  {
  }
}
