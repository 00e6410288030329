/** Shifts and bitwise operations on 32-bit words, on the integers they stand for. */
module Bits {
  import opened Words

  /** x << n on 32 bits; a shift of 32 leaves nothing. */
  function Shl(x: Word, n: nat): (r: Word)
    requires n <= 32
  {
    (x * Pow2(n)) % BASE
  }

  /** x >> n on 32 bits. */
  function Shr(x: Word, n: nat): (r: Word)
    requires n <= 32
    ensures r <= x
  {
    ShrBound(x, n);
    x / Pow2(n)
  }

  lemma ShrBound(x: nat, n: nat)
    ensures 0 <= x / Pow2(n) <= x
  {
    DivModDef(x, Pow2(n));
    MulLe(1, Pow2(n), x / Pow2(n));
  }

  /** Bitwise or. */
  function Or(x: nat, y: nat): (r: nat)
  {
    if x == 0 && y == 0 then 0
    else 2 * Or(x / 2, y / 2) + (if x % 2 == 1 || y % 2 == 1 then 1 else 0)
  }

  /** Numbers without a common bit position: or is addition. */
  lemma {:induction false} OrDisjoint(x: nat, y: nat, n: nat)
    requires x % Pow2(n) == 0
    requires y < Pow2(n)
    ensures Or(x, y) == x + y
    decreases n
  {
    if n == 0 {
      OrZero(x);
    } else {
      DivModDef(x, Pow2(n));
      var q, p := x / Pow2(n), Pow2(n - 1);
      MulExchange(q, 2, p);
      assert x == 2 * (q * p);
      DivModUnique(x / 2, p, q, 0);
      OrDisjoint(x / 2, y / 2, n - 1);
    }
  }

  lemma {:induction false} OrZero(x: nat)
    ensures Or(x, 0) == x
  {
    if x != 0 {
      OrZero(x / 2);
    }
  }

  // ----- single bits

  /** Bit i of x. */
  function Bit(x: nat, i: nat): (b: int)
    ensures b == 0 || b == 1
  {
    (x / Pow2(i)) % 2
  }

  /** Number of bits up to and including the highest set one. */
  function BitLength(x: nat): (n: nat)
    ensures x > 0 ==> n > 0
  {
    if x == 0 then 0 else 1 + BitLength(x / 2)
  }

  lemma {:induction false} BitLengthBounds(x: nat)
    requires x > 0
    ensures Pow2(BitLength(x) - 1) <= x < Pow2(BitLength(x))
  {
    if x > 1 {
      BitLengthBounds(x / 2);
    }
  }

  lemma BitLengthWord(x: Word)
    requires x > 0
    ensures 1 <= BitLength(x) <= 32
  {
    BitLengthBounds(x);
    Pow2At32();
    if BitLength(x) > 32 {
      Pow2Monotone(32, BitLength(x) - 1);
    }
  }

  // ----- shifting by s within a word, and what crosses to the next word

  /** The part of x << s that leaves the word is x >> (32-s). */
  lemma ShlSplit(x: Word, s: nat)
    requires s <= 31
    ensures x * Pow2(s) == Shl(x, s) + BASE * Shr(x, 32 - s)
    ensures Shr(x, 32 - s) < Pow2(s)
    ensures Shl(x, s) % Pow2(s) == 0
    ensures Shl(x, s) + Pow2(s) <= BASE
  {
    var p, c := Pow2(s), Pow2(32 - s);
    Pow2Add(s, 32 - s);
    Pow2At32();
    DivModDef(x, c);
    var q, r := x / c, x % c;
    MulDistrib(q * c, r, p);
    MulAssoc(q, c, p);
    MulLe(r + 1, c, p);
    MulDistrib(r, 1, p);
    MulLe(0, r, p);
    DivModUnique(x * p, BASE, q, r * p);
    DivModUnique(r * p, p, r, 0);
    if q >= p {
      MulLe(p, q, c);
    }
  }

  /** The limb of a left-shifted number at x, with y just below. */
  lemma ShlOr(x: Word, y: Word, s: nat)
    requires s <= 31
    ensures Or(Shl(x, s), Shr(y, 32 - s)) == Shl(x, s) + Shr(y, 32 - s) < BASE
  {
    ShlSplit(x, s);
    ShlSplit(y, s);
    OrDisjoint(Shl(x, s), Shr(y, 32 - s), s);
  }

  /** x << (32-s) keeps the low s bits of x, at the top of the word. */
  lemma ShlHigh(x: Word, s: nat)
    requires 1 <= s <= 31
    ensures Shl(x, 32 - s) == (x % Pow2(s)) * Pow2(32 - s)
    ensures (x % Pow2(s)) * Pow2(32 - s) + Pow2(32 - s) <= BASE
  {
    var p, c := Pow2(s), Pow2(32 - s);
    Pow2Add(s, 32 - s);
    Pow2At32();
    DivModDef(x, p);
    var q, r := x / p, x % p;
    MulDistrib(q * p, r, c);
    MulAssoc(q, p, c);
    MulLe(r + 1, p, c);
    MulDistrib(r, 1, c);
    MulLe(0, r, c);
    DivModUnique(x * c, BASE, q, r * c);
  }

  /** The limb of a right-shifted number at x, with y just above. */
  lemma ShrOr(x: Word, y: Word, s: nat)
    requires 1 <= s <= 31
    ensures Or(Shr(x, s), Shl(y, 32 - s)) == Shr(x, s) + (y % Pow2(s)) * Pow2(32 - s) < BASE
    ensures Shr(x, s) < Pow2(32 - s)
  {
    ShlHigh(y, s);
    ShlSplit(x, 32 - s);
    assert 32 - (32 - s) == s;
    DivModUnique(Shl(y, 32 - s), Pow2(32 - s), y % Pow2(s), 0);
    OrDisjoint(Shl(y, 32 - s), Shr(x, s), 32 - s);
    OrCommutes(Shr(x, s), Shl(y, 32 - s));
  }

  lemma {:induction false} OrCommutes(x: nat, y: nat)
    ensures Or(x, y) == Or(y, x)
    decreases x + y
  {
    if x != 0 || y != 0 {
      OrCommutes(x / 2, y / 2);
    }
  }

  // ----- words bit by bit

  /** Bitwise and. */
  function And(x: nat, y: nat): (r: nat) {
    if x == 0 || y == 0 then 0
    else 2 * And(x / 2, y / 2) + (if x % 2 == 1 && y % 2 == 1 then 1 else 0)
  }

  /** Bitwise exclusive or. */
  function Eor(x: nat, y: nat): (r: nat) {
    if x == 0 && y == 0 then 0
    else 2 * Eor(x / 2, y / 2) + (if x % 2 != y % 2 then 1 else 0)
  }

  lemma {:induction false} BitwiseBound(x: nat, y: nat, n: nat)
    requires x < Pow2(n) && y < Pow2(n)
    ensures And(x, y) < Pow2(n) && Or(x, y) < Pow2(n) && Eor(x, y) < Pow2(n)
  {
    if n > 0 {
      BitwiseBound(x / 2, y / 2, n - 1);
    }
  }

  function AndWord(x: Word, y: Word): Word {
    Pow2At32();
    BitwiseBound(x, y, 32);
    And(x, y)
  }

  function OrWord(x: Word, y: Word): Word {
    Pow2At32();
    BitwiseBound(x, y, 32);
    Or(x, y)
  }

  function EorWord(x: Word, y: Word): Word {
    Pow2At32();
    BitwiseBound(x, y, 32);
    Eor(x, y)
  }

  /** x with bit i set to b. */
  function WithBit(x: Word, i: nat, b: int): (r: Word)
    requires i < 32 && (b == 0 || b == 1)
  {
    WithBitFits(x, i);
    x + (b - Bit(x, i)) * Pow2(i)
  }

  /** The three parts of a word around bit i. */
  lemma AroundBit(x: nat, i: nat)
    ensures x == (x / Pow2(i + 1)) * Pow2(i + 1) + Bit(x, i) * Pow2(i) + x % Pow2(i)
    ensures 0 <= x % Pow2(i) < Pow2(i) && 0 <= x / Pow2(i + 1)
  {
    var p := Pow2(i);
    DivModDef(x, p);
    DivDiv(x, p, 2);
    assert Pow2(i + 1) == p * 2;
    var q := x / p;
    assert q == 2 * (q / 2) + q % 2;
    MulDistrib(2 * (q / 2), q % 2, p);
    MulAssoc(q / 2, 2, p);
    assert (q / 2) * (2 * p) == (q / 2) * 2 * p;
  }

  lemma WithBitFits(x: Word, i: nat)
    requires i < 32
    ensures 0 <= x - Bit(x, i) * Pow2(i) && x + (1 - Bit(x, i)) * Pow2(i) < BASE
  {
    AroundBit(x, i);
    hide Bit;
    var q, p, h, c := Pow2(i), Pow2(i + 1), x / Pow2(i + 1), Pow2(31 - i);
    Pow2Add(i + 1, 31 - i);
    Pow2At32();
    Pow2Step(i);
    hide Pow2;
    var b, l := Bit(x, i), x % Pow2(i);
    BitRoom(x, h, p, b, q, l, c);
  }

  lemma BitRoom(x: int, h: int, p: int, b: int, q: int, l: int, c: int)
    requires x == h * p + b * q + l && p == 2 * q && 0 <= l < q && 0 <= h && (b == 0 || b == 1)
    requires p * c == BASE && x < BASE && 0 <= x
    ensures 0 <= x - b * q && x + (1 - b) * q < BASE
  {
    MulLe(0, h, p);
    if h >= c {
      MulLe(c, h, p);
    }
    MulLe(h + 1, c, p);
    MulDistrib(h, 1, p);
  }

  /** Bits of h*2^(i+1) + b*2^i + l. */
  lemma BitsAround(h: nat, b: int, l: nat, i: nat, j: nat)
    requires (b == 0 || b == 1) && l < Pow2(i)
    ensures 0 <= h * Pow2(i + 1) + b * Pow2(i) + l
    ensures Bit(h * Pow2(i + 1) + b * Pow2(i) + l, j)
         == if j < i then Bit(l, j) else if j == i then b else Bit(h, j - i - 1)
  {
    hide Pow2;
    var p, x := Pow2(i), h * Pow2(i + 1) + b * Pow2(i) + l;
    Pow2Step(i);
    MulLe(0, h, Pow2(i + 1));
    MulAssoc(h, 2, p);
    MulDistrib(2 * h, b, p);
    assert x == (2 * h + b) * p + l;
    if j < i {
      Pow2Add(j + 1, i - j - 1);
      var m, c := Pow2(j + 1), Pow2(i - j - 1);
      MulAssoc(2 * h + b, c, m);
      assert x == ((2 * h + b) * c) * m + l;
      BitLow(x, l, (2 * h + b) * c, j);
    } else {
      DivModUnique(x, p, 2 * h + b, l);
      if j > i {
        Pow2Add(i, j - i);
        DivDiv(x, p, Pow2(j - i));
        Pow2Step(j - i - 1);
        DivDiv(2 * h + b, 2, Pow2(j - i - 1));
        assert (2 * h + b) / 2 == h;
      }
    }
  }

  lemma Pow2Step(n: nat)
    ensures Pow2(n + 1) == 2 * Pow2(n)
  {
  }

  /** Adding a multiple of 2^(j+1) does not change bit j. */
  lemma BitLow(x: nat, l: nat, q: nat, j: nat)
    requires x == q * Pow2(j + 1) + l
    ensures Bit(x, j) == Bit(l, j)
  {
    hide Pow2;
    var p := Pow2(j);
    Pow2Step(j);
    DivModDef(l, p);
    MulAssoc(q, 2, p);
    MulDistrib(2 * q, l / p, p);
    DivModUnique(x, p, 2 * q + l / p, l % p);
  }

  lemma BitOfWithBit(x: Word, i: nat, b: int, j: nat)
    requires i < 32 && j < 32 && (b == 0 || b == 1)
    ensures Bit(WithBit(x, i, b), j) == if i == j then b else Bit(x, j)
  {
    hide Pow2, Bit;
    AroundBit(x, i);
    var h, l := x / Pow2(i + 1), x % Pow2(i);
    BitsAround(h, Bit(x, i), l, i, j);
    BitsAround(h, b, l, i, j);
    MulDistrib(b, Bit(x, i), Pow2(i));
  }

  /** A word is determined by its bits. */
  lemma {:induction false} SameBits(x: nat, y: nat, n: nat)
    requires x < Pow2(n) && y < Pow2(n) && forall j :: 0 <= j < n ==> Bit(x, j) == Bit(y, j)
    ensures x == y
  {
    if n > 0 {
      forall j | 0 <= j < n - 1
        ensures Bit(x / 2, j) == Bit(y / 2, j)
      {
        BitOfHalf(x, j);
        BitOfHalf(y, j);
      }
      SameBits(x / 2, y / 2, n - 1);
      assert Bit(x, 0) == Bit(y, 0);
    }
  }

  lemma BitOfHalf(x: nat, j: nat)
    ensures Bit(x / 2, j) == Bit(x, j + 1)
  {
    hide Pow2;
    Pow2Step(j);
    DivDiv(x, 2, Pow2(j));
  }

  /** The sign of a two's complement word. */
  lemma SignBit(x: Word)
    ensures Bit(x, 31) == if x >= BASE / 2 then 1 else 0
  {
    Pow2At32();
  }

  lemma ShrRange(x: Word, n: nat)
    requires n < 32
    ensures Shr(x, n) == x / Pow2(n) && 0 <= Shr(x, n) < Pow2(32 - n) <= BASE
  {
    hide Pow2;
    Pow2At32();
    Pow2Add(n, 32 - n);
    DivModDef(x, Pow2(n));
    Pow2Monotone(32 - n, 32);
    if x / Pow2(n) >= Pow2(32 - n) {
      MulLe(Pow2(32 - n), x / Pow2(n), Pow2(n));
    }
  }
}
