/** The 32-bit mesh address: chip row [31:29], core row [28:26], chip column [25:23],
    core column [22:20], offset in the core [19:0]. */
module ChipAddress {
  import opened Words

  type Coord = x: int | 0 <= x < 8

  /** Bits [31:20]: the four coordinates. */
  function Place(a: Word): (p: int)
    ensures 0 <= p < 4096
  {
    a / 0x10_0000
  }

  function ChipRow(a: Word): (r: Coord) { Place(a) / 512 }

  function CoreRow(a: Word): (r: Coord) { (Place(a) / 64) % 8 }

  function ChipCol(a: Word): (r: Coord) { (Place(a) / 8) % 8 }

  function CoreCol(a: Word): (r: Coord) { Place(a) % 8 }

  function Offset(a: Word): (r: int)
    ensures 0 <= r < 0x10_0000
  {
    a % 0x10_0000
  }

  /** Both chip coordinates in one number. */
  function Chip(a: Word): (c: int)
    ensures 0 <= c < 64
  {
    8 * ChipRow(a) + ChipCol(a)
  }

  /** Both core coordinates in one number: the core's number on the chip. */
  function Core(a: Word): (c: int)
    ensures 0 <= c < 64
  {
    8 * CoreRow(a) + CoreCol(a)
  }

  /** Four octal digits. */
  function Digits(a: Coord, b: Coord, c: Coord, d: Coord): (p: int)
    ensures 0 <= p < 4096
    ensures p / 512 == a && (p / 64) % 8 == b && (p / 8) % 8 == c && p % 8 == d
  {
    var p := 512 * a + 64 * b + 8 * c + d;
    assert p / 8 == 64 * a + 8 * b + c;
    assert p / 64 == 8 * a + b;
    p
  }

  lemma DigitsOf(p: int)
    requires 0 <= p < 4096
    ensures Digits(p / 512, (p / 64) % 8, (p / 8) % 8, p % 8) == p
  {
    var q := p / 8;
    var r := q / 8;
    assert p / 64 == r && p / 512 == r / 8;
  }

  function Compose(chip: int, core: int, offset: int): (a: Word)
    requires 0 <= chip < 64 && 0 <= core < 64 && 0 <= offset < 0x10_0000
    ensures Chip(a) == chip && Core(a) == core && Offset(a) == offset
  {
    var p := Digits(chip / 8, core / 8, chip % 8, core % 8);
    assert Place(p * 0x10_0000 + offset) == p;
    p * 0x10_0000 + offset
  }

  /** The fields are the bits they are said to be. */
  lemma FieldBits(a: Word)
    ensures ChipRow(a) == a / 0x2000_0000 && CoreRow(a) == a / 0x400_0000 % 8
    ensures ChipCol(a) == a / 0x80_0000 % 8 && CoreCol(a) == a / 0x10_0000 % 8
    ensures a == 0x2000_0000 * ChipRow(a) + 0x400_0000 * CoreRow(a) + 0x80_0000 * ChipCol(a)
                 + 0x10_0000 * CoreCol(a) + Offset(a)
  {
    var p := Place(a);
    assert p / 8 == a / 0x80_0000 && p / 64 == a / 0x400_0000 && p / 512 == a / 0x2000_0000;
    DigitsOf(p);
  }

  /** An address is determined by its fields. */
  lemma ComposeFields(a: Word)
    ensures Compose(Chip(a), Core(a), Offset(a)) == a
  {
    DigitsOf(Place(a));
    assert Chip(a) / 8 == ChipRow(a) && Chip(a) % 8 == ChipCol(a);
    assert Core(a) / 8 == CoreRow(a) && Core(a) % 8 == CoreCol(a);
  }

  /** Moving within a core leaves the coordinates alone. */
  lemma ComposeAdd(chip: int, core: int, offset: int, d: int)
    requires 0 <= chip < 64 && 0 <= core < 64 && 0 <= offset && 0 <= d && offset + d < 0x10_0000
    ensures Compose(chip, core, offset) + d == Compose(chip, core, offset + d)
  {
  }

  /** a with the chip coordinates of another address: assigning bits [31:29] and [25:23]. */
  function WithChip(a: Word, chip: int): (r: Word)
    requires 0 <= chip < 64
    ensures Chip(r) == chip && Core(r) == Core(a) && Offset(r) == Offset(a)
  {
    Compose(chip, Core(a), Offset(a))
  }
}
