/** Sizes and alignment of memory accesses, and the bytes of words, low byte first. */
module Accesses {
  import opened Words

  /** First address outside a core's own space. */
  const EXT_MEM_START: int := 0x10_0000

  /** log2 of an access size: byte, half word, word, double. */
  type Size = x: nat | x < 4

  function BytesOf(z: Size): (n: nat)
    ensures n == 1 || n == 2 || n == 4 || n == 8
  {
    match z case 0 => 1 case 1 => 2 case 2 => 4 case 3 => 8
  }

  /** (x >> z) << z: the low bits dropped. */
  function AlignDown(x: nat, z: Size): (r: nat)
    ensures r <= x < r + BytesOf(z)
    ensures x < BytesOf(z) ==> r == 0
  {
    match z case 0 => x case 1 => x - x % 2 case 2 => x - x % 4 case 3 => x - x % 8
  }

  lemma AlignDownMultiple(x: nat, z: Size)
    ensures AlignDown(x, z) % BytesOf(z) == 0
  {
  }

  /** Byte i of a 64-bit value held as two words. */
  function ByteOf(hi: Word, lo: Word, i: nat): (b: Byte)
    requires i < 8
  {
    match i
    case 0 => lo % 0x100
    case 1 => (lo / 0x100) % 0x100
    case 2 => (lo / 0x1_0000) % 0x100
    case 3 => lo / 0x100_0000
    case 4 => hi % 0x100
    case 5 => (hi / 0x100) % 0x100
    case 6 => (hi / 0x1_0000) % 0x100
    case 7 => hi / 0x100_0000
  }

  function WordOf(b0: Byte, b1: Byte, b2: Byte, b3: Byte): Word {
    b0 + 0x100 * b1 + 0x1_0000 * b2 + 0x100_0000 * b3
  }

  lemma BytesOfWord(b0: Byte, b1: Byte, b2: Byte, b3: Byte, hi: Word)
    ensures var w := WordOf(b0, b1, b2, b3);
            ByteOf(hi, w, 0) == b0 && ByteOf(hi, w, 1) == b1 && ByteOf(hi, w, 2) == b2 && ByteOf(hi, w, 3) == b3
  {
    var w := WordOf(b0, b1, b2, b3);
    assert w / 0x100_0000 == b3;
    assert w / 0x1_0000 == b2 + 0x100 * b3;
    assert w / 0x100 == b1 + 0x100 * (b2 + 0x100 * b3);
  }

  lemma BytesOfHigh(b0: Byte, b1: Byte, b2: Byte, b3: Byte, lo: Word)
    ensures var w := WordOf(b0, b1, b2, b3);
            ByteOf(w, lo, 4) == b0 && ByteOf(w, lo, 5) == b1 && ByteOf(w, lo, 6) == b2 && ByteOf(w, lo, 7) == b3
  {
    BytesOfWord(b0, b1, b2, b3, 0);
  }
}
