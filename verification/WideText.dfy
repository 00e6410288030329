/** Writing wide numbers as binary, octal or hexadecimal text and reading them back
    (epiphany_models/verilated.cpp). Digits take 1, 3 or 4 bits. */
module WideText {
  import opened Words
  import opened Bits

  datatype Radix = Binary | Octal | Hex

  /** Bits per digit. */
  function DigitBits(f: Radix): nat {
    match f
    case Binary => 1
    case Octal => 3
    case Hex => 4
  }

  // ----- fields of a wide number

  /** bits [32w+i, 32w+i+n) of the whole are bits [i, i+n) of limb w. */
  lemma FieldOfVal(s: seq<Word>, w: nat, i: nat, n: nat)
    requires w < |s| && i + n <= 32
    ensures (Val(s) / Pow2(32 * w + i)) % Pow2(n) == (s[w] / Pow2(i)) % Pow2(n)
  {
    hide Val, BPow, Pow2;
    ValSplit(s, w);
    ValBounds(s[..w]);
    ValBounds(s[w..]);
    DivModUnique(Val(s), BPow(w), Val(s[w..]), Val(s[..w]));
    BPowIsPow2(w);
    Pow2Add(32 * w, i);
    ValBounds(s);
    DivDiv(Val(s), Pow2(32 * w), Pow2(i));
    ValPrepend(s[w..]);
    LowField(s[w], Val(s[w..][1..]), i, n);
  }

  /** Anything above bit 32 does not reach a field below it. */
  lemma LowField(x: Word, rest: int, i: nat, n: nat)
    requires i + n <= 32
    ensures ((x + BASE * rest) / Pow2(i)) % Pow2(n) == (x / Pow2(i)) % Pow2(n)
  {
    hide Pow2;
    var p, m, c := Pow2(i), Pow2(n), Pow2(32 - i - n);
    Pow2At32();
    Pow2Add(i, 32 - i);
    Pow2Add(n, 32 - i - n);
    DivModDef(x, p);
    DivModDef(x / p, m);
    MulAssoc(p, m * c, rest);
    MulAssoc(m, c, rest);
    MulDistrib(x / p, m * (c * rest), p);
    DivModUnique(x + BASE * rest, p, x / p + m * (c * rest), x % p);
    MulDistrib((x / p) / m, c * rest, m);
    DivModUnique(x / p + m * (c * rest), m, (x / p) / m + c * rest, (x / p) % m);
  }

  predicate BitIsSet(s: seq<Word>, i: nat)
    requires i < 32 * |s|
  {
    Bit(s[i / 32], i % 32) == 1
  }

  lemma BitIsSetIs(s: seq<Word>, i: nat)
    requires i < 32 * |s|
    ensures BitIsSet(s, i) <==> (Val(s) / Pow2(i)) % 2 == 1
  {
    FieldOfVal(s, i / 32, i % 32, 1);
    assert Pow2(1) == 2;
  }

  // ----- what a digit string stands for

  function Lower(c: char): char {
    if 'A' <= c <= 'Z' then c - 'A' + 'a' else c
  }

  /** Characters that take up a digit position; all others are passed over. */
  predicate IsDigit(c: char) {
    var l := Lower(c);
    '0' <= l <= '9' || 'a' <= l <= 'f' || l == 'x' || l == 'z' || l == '?'
  }

  function DigitValue(c: char): (d: nat)
    ensures d < 16
  {
    var l := Lower(c);
    if '0' <= l <= '9' then (l - '0') as int
    else if 'a' <= l <= 'f' then 10 + (l - 'a') as int
    else 0
  }

  const LOWER_DIGITS: string := "0123456789abcdef"
  const UPPER_DIGITS: string := "0123456789ABCDEF"

  /** Digits count by their place among the sixteen, letters of either case alike. */
  lemma DigitsRead(d: nat)
    requires d < 16
    ensures DigitValue(LOWER_DIGITS[d]) == d && DigitValue(UPPER_DIGITS[d]) == d
  {
  }

  /** No other character takes up a place, but unknown and floating bits and the question
      mark, which put nothing in it. */
  lemma PlacesTaken(c: char)
    ensures IsDigit(c) <==> IsAmong(LOWER_DIGITS, c) || IsAmong(UPPER_DIGITS, c) || c in {'x', 'X', 'z', 'Z', '?'}
    ensures c in {'x', 'X', 'z', 'Z', '?'} ==> DigitValue(c) == 0
  {
    if '0' <= c <= '9' {
      assert LOWER_DIGITS[(c - '0') as int] == c;
    } else if 'a' <= c <= 'f' {
      assert LOWER_DIGITS[10 + (c - 'a') as int] == c;
    } else if 'A' <= c <= 'F' {
      assert UPPER_DIGITS[10 + (c - 'A') as int] == c;
    }
  }

  predicate IsAmong(s: string, c: char) {
    exists d :: 0 <= d < |s| && s[d] == c
  }

  function DigitCount(s: string): (n: nat)
    ensures n <= |s|
  {
    if s == [] then 0 else DigitCount(s[1..]) + if IsDigit(s[0]) then 1 else 0
  }

  /** The low n bits of d, placed at bit position at. */
  function Field(d: nat, n: nat, at: nat): (f: nat) {
    (d % Pow2(n)) * Pow2(at)
  }

  /** Positional value of the digits of s, b bits each, the last digit weighing 1. */
  function ReadValue(b: nat, s: string): (v: nat)
  {
    if s == [] then 0
    else if IsDigit(s[0]) then
      Field(DigitValue(s[0]), b, b * DigitCount(s[1..])) + ReadValue(b, s[1..])
    else ReadValue(b, s[1..])
  }

  lemma {:induction false} DigitCountAppend(s: string, c: char)
    ensures DigitCount(s + [c]) == DigitCount(s) + if IsDigit(c) then 1 else 0
  {
    if s == [] {
      assert (s + [c])[1..] == [];
    } else {
      DigitCountAppend(s[1..], c);
      assert (s + [c])[1..] == s[1..] + [c];
    }
  }

  /** A further digit at the end scales what is there by 2^b. */
  lemma {:induction false} ReadValueAppend(b: nat, s: string, c: char)
    requires IsDigit(c)
    ensures ReadValue(b, s + [c]) == ReadValue(b, s) * Pow2(b) + DigitValue(c) % Pow2(b)
  {
    hide Pow2, Field;
    FieldShift(DigitValue(c), b, 0, 0);
    if s == [] {
      assert (s + [c])[1..] == [];
      assert b * DigitCount([]) == 0;
    } else {
      var t := s[1..];
      assert (s + [c])[1..] == t + [c];
      ReadValueAppend(b, t, c);
      DigitCountAppend(t, c);
      if IsDigit(s[0]) {
        FieldShift(DigitValue(s[0]), b, b * DigitCount(t), b);
        MulDistrib(DigitCount(t), 1, b);
        MulDistrib(Field(DigitValue(s[0]), b, b * DigitCount(t)), ReadValue(b, t), Pow2(b));
      }
    }
  }

  lemma FieldShift(d: nat, n: nat, at: nat, k: nat)
    ensures Field(d, n, at + k) == Field(d, n, at) * Pow2(k)
    ensures Field(d, n, 0) == d % Pow2(n)
  {
    hide Pow2;
    Pow2Zero();
    Pow2Add(at, k);
    MulAssoc(d % Pow2(n), Pow2(at), Pow2(k));
  }

  lemma Pow2Zero()
    ensures Pow2(0) == 1
  {
  }

  // ----- printing

  function DigitChar(d: nat): (c: char)
    requires d < 16
    ensures IsPlain(c) && IsDigit(c) && DigitValue(c) == d
    ensures c == '0' <==> d == 0
  {
    "0123456789abcdef"[d]
  }

  /** The digit printed at bit position lsb. Octal digits may straddle limbs, so their
      bits are taken one at a time and cut off at the width. */
  function PrintedDigit(f: Radix, s: seq<Word>, lbits: nat, lsb: nat): (d: nat)
    requires 0 < lbits <= 32 * |s| && lsb < lbits && lsb % DigitBits(f) == 0
    ensures d < 16
  {
    match f
    case Binary => (s[lsb / 32] / Pow2(lsb % 32)) % 2
    case Octal =>
      (if BitIsSet(s, lsb) then 1 else 0)
      + (if lsb + 1 < lbits && BitIsSet(s, lsb + 1) then 2 else 0)
      + (if lsb + 2 < lbits && BitIsSet(s, lsb + 2) then 4 else 0)
    case Hex => (s[lsb / 32] / Pow2(lsb % 32)) % 16
  }

  lemma SmallPowers()
    ensures Pow2(0) == 1 && Pow2(1) == 2 && Pow2(2) == 4 && Pow2(3) == 8 && Pow2(4) == 16
  {
    assert Pow2(2) == 2 * Pow2(1);
  }

  lemma PrintedDigitIs(f: Radix, s: seq<Word>, lbits: nat, lsb: nat)
    requires 0 < lbits <= 32 * |s| && lsb < lbits && lsb % DigitBits(f) == 0
    requires Val(s) < Pow2(lbits)
    ensures PrintedDigit(f, s, lbits, lsb) == (Val(s) / Pow2(lsb)) % Pow2(DigitBits(f))
  {
    hide Val, Pow2;
    SmallPowers();
    match f
    case Binary => FieldOfVal(s, lsb / 32, lsb % 32, 1);
    case Hex => FieldOfVal(s, lsb / 32, lsb % 32, 4);
    case Octal => OctalDigitIs(s, lbits, lsb);
  }

  lemma OctalDigitIs(s: seq<Word>, lbits: nat, lsb: nat)
    requires 0 < lbits <= 32 * |s| && lsb < lbits && lsb % 3 == 0
    requires Val(s) < Pow2(lbits)
    ensures PrintedDigit(Octal, s, lbits, lsb) == (Val(s) / Pow2(lsb)) % 8
  {
    hide Val, Pow2, BitIsSet;
    SmallPowers();
    BitIsSetIs(s, lsb);
    HigherBit(s, lbits, lsb, 1);
    HigherBit(s, lbits, lsb, 2);
    ThreeBits(Val(s) / Pow2(lsb));
  }

  lemma ThreeBits(x: int)
    ensures x % 8 == x % 2 + 2 * ((x / 2) % 2) + 4 * ((x / 4) % 2)
  {
  }

  lemma HigherBit(s: seq<Word>, lbits: nat, lsb: nat, k: nat)
    requires 0 < lbits <= 32 * |s| && 1 <= k <= 2
    requires Val(s) < Pow2(lbits)
    ensures (lsb + k < lbits && BitIsSet(s, lsb + k)) <==> ((Val(s) / Pow2(lsb)) / Pow2(k)) % 2 == 1
  {
    hide Val, Pow2, BitIsSet;
    ValBounds(s);
    Pow2Add(lsb, k);
    DivDiv(Val(s), Pow2(lsb), Pow2(k));
    if lsb + k < lbits {
      BitIsSetIs(s, lsb + k);
    } else {
      Pow2Monotone(lbits, lsb + k);
      DivModUnique(Val(s), Pow2(lsb + k), 0, Val(s));
    }
  }

  /** Down to the start of the digit that bit lsb lies in. */
  function DigitStart(f: Radix, lsb: nat): (p: nat)
    ensures p % DigitBits(f) == 0 && p <= lsb < p + DigitBits(f)
  {
    match f
    case Binary => lsb
    case Octal => (lsb / 3) * 3
    case Hex => (lsb / 4) * 4
  }

  lemma TopBitClear(v: nat, n: nat)
    requires v < Pow2(n + 1) && (v / Pow2(n)) % 2 != 1
    ensures v < Pow2(n)
  {
    hide Pow2;
    Pow2Add(n, 1);
    SmallPowers();
    DivModDef(v, Pow2(n));
    MulLtCancel(v / Pow2(n), 2, Pow2(n));
  }

  lemma TopBitSet(v: nat, n: nat)
    requires (v / Pow2(n)) % 2 == 1
    ensures v >= Pow2(n)
  {
    DivModDef(v, Pow2(n));
    MulLe(1, v / Pow2(n), Pow2(n));
  }

  lemma NextDigit(v: nat, lsb: nat, b: nat)
    ensures (v / Pow2(lsb + b)) * Pow2(b) + (v / Pow2(lsb)) % Pow2(b) == v / Pow2(lsb)
    ensures 0 <= (v / Pow2(lsb)) % Pow2(b) < Pow2(b)
  {
    hide Pow2;
    Pow2Add(lsb, b);
    DivDiv(v, Pow2(lsb), Pow2(b));
    DivModDef(v / Pow2(lsb), Pow2(b));
  }

  /** The first digit of a number whose top bit is at position top. */
  lemma TopDigitNonZero(f: Radix, v: nat, top: nat)
    requires Pow2(top) <= v < Pow2(top + 1)
    ensures (v / Pow2(DigitStart(f, top))) % Pow2(DigitBits(f)) != 0
  {
    hide Pow2;
    var p, b := DigitStart(f, top), DigitBits(f);
    Pow2Monotone(p, top);
    Pow2Monotone(top + 1, p + b);
    Pow2Add(p, b);
    var q := v / Pow2(p);
    DivModDef(v, Pow2(p));
    MulLtCancel(q, Pow2(b), Pow2(p));
    MulLtCancel(0, q + 1, Pow2(p));
    if q == 0 {
      assert false;
    }
    DivModUnique(q, Pow2(b), 0, q);
  }

  lemma CountDigits(f: Radix, top: nat, n: nat)
    requires DigitBits(f) * n == DigitStart(f, top) + DigitBits(f)
    ensures n == (top + DigitBits(f)) / DigitBits(f)
  {
  }

  /** 0 to 9 and a to f, as far as the radix goes. */
  predicate PlainDigits(f: Radix, s: string) {
    forall i :: 0 <= i < |s| ==> IsPlain(s[i]) && DigitValue(s[i]) < Pow2(DigitBits(f))
  }

  predicate IsPlain(c: char) {
    '0' <= c <= '9' || 'a' <= c <= 'f'
  }

  lemma StartBelow(f: Radix, p: nat)
    requires p % DigitBits(f) == 0
    ensures p > 0 ==> DigitStart(f, p - 1) + DigitBits(f) == p
  {
    match f
    case Binary =>
    case Octal => DivModUnique(p - 1, 3, p / 3 - 1, 2);
    case Hex => DivModUnique(p - 1, 4, p / 4 - 1, 3);
  }

  lemma ReadValueNone(b: nat)
    ensures ReadValue(b, []) == 0
  {
  }

  /** Prints s, a clean number of lbits bits, at full width or without leading zeros. */
  method Format(f: Radix, s: seq<Word>, lbits: nat, minimal: bool) returns (text: string)
    requires 0 < lbits <= 32 * |s|
    requires Val(s) < Pow2(lbits)
    ensures ReadValue(DigitBits(f), text) == Val(s)
    ensures PlainDigits(f, text)
    ensures !minimal ==> |text| == (lbits + DigitBits(f) - 1) / DigitBits(f)
    ensures minimal ==> |text| > 0 && (|text| > 1 ==> text[0] != '0')
  {
    hide Val, Pow2, BitIsSet, ReadValue;
    ValBounds(s);
    var lsb := lbits - 1;
    if minimal {
      while lsb != 0 && !BitIsSet(s, lsb)
        invariant 0 <= lsb < lbits
        invariant Val(s) < Pow2(lsb + 1)
      {
        BitIsSetIs(s, lsb);
        TopBitClear(Val(s), lsb);
        lsb := lsb - 1;
      }
      if lsb > 0 {
        BitIsSetIs(s, lsb);
        TopBitSet(Val(s), lsb);
      }
    }
    text := PrintDigits(f, s, lbits, lsb);
  }

  /** The printing loop, from bit position top down. */
  method PrintDigits(f: Radix, s: seq<Word>, lbits: nat, top: nat) returns (text: string)
    requires top < lbits <= 32 * |s|
    requires Val(s) < Pow2(lbits) && Val(s) < Pow2(top + 1)
    ensures ReadValue(DigitBits(f), text) == Val(s)
    ensures PlainDigits(f, text)
    ensures |text| == (top + DigitBits(f)) / DigitBits(f)
    ensures Val(s) >= Pow2(top) ==> text[0] != '0'
  {
    hide Val, Pow2, BitIsSet, PrintedDigit, DigitStart, ReadValue;
    ghost var b, v := DigitBits(f), Val(s);
    var lsb := top;
    ghost var pos := DigitStart(f, lsb) + b;
    if v >= Pow2(top) {
      TopDigitNonZero(f, v, top);
    }
    ValBounds(s);
    Pow2Monotone(top + 1, pos);
    DivModUnique(v, Pow2(pos), 0, v);
    ReadValueNone(b);
    text := [];
    while lsb >= 0
      invariant -1 <= lsb <= top
      invariant if lsb < 0 then pos == 0 else DigitStart(f, lsb) + b == pos
      invariant |text| == 0 ==> lsb == top
      invariant ReadValue(b, text) == v / Pow2(pos)
      invariant PlainDigits(f, text)
      invariant b * |text| + pos == DigitStart(f, top) + b
      invariant v >= Pow2(top) && |text| > 0 ==> text[0] != '0'
    {
      lsb := DigitStart(f, lsb);
      var d := PrintedDigit(f, s, lbits, lsb);
      PrintedDigitIs(f, s, lbits, lsb);
      NextDigit(v, lsb, b);
      DivModUnique(d, Pow2(b), 0, d);
      ReadValueAppend(b, text, DigitChar(d));
      text := text + [DigitChar(d)];
      pos := lsb;
      StartBelow(f, pos);
      lsb := lsb - 1;
    }
    Pow2Zero();
    DivModUnique(v, 1, v, 0);
    CountDigits(f, top, |text|);
  }

  // ----- reading back

  lemma {:induction false} ValUpdate(s: seq<int>, w: nat, x: int)
    requires w < |s|
    ensures Val(s[w := x]) == Val(s) + (x - s[w]) * BPow(w)
  {
    hide BPow;
    var n := |s| - 1;
    var t := s[w := x];
    if w == n {
      assert t[..n] == s[..n];
      MulDistrib(x, s[w], BPow(w));
    } else {
      assert t[..n] == s[..n][w := x];
      ValUpdate(s[..n], w, x);
    }
  }

  /** Assigning a bit of a wide number that is still clear adds its weight. */
  lemma AssignClearBit(s: seq<Word>, i: nat, b: int)
    requires i < 32 * |s| && (b == 0 || b == 1)
    requires Val(s) < Pow2(i)
    ensures Val(s[i / 32 := WithBit(s[i / 32], i % 32, b)]) == Val(s) + b * Pow2(i)
  {
    hide Val, BPow, Pow2;
    var w, j := i / 32, i % 32;
    ValBounds(s);
    BitIsSetIs(s, i);
    DivModUnique(Val(s), Pow2(i), 0, Val(s));
    assert Bit(s[w], j) == 0;
    ValUpdate(s, w, WithBit(s[w], j, b));
    BPowIsPow2(w);
    Pow2Add(32 * w, j);
    MulAssoc(b, Pow2(j), Pow2(32 * w));
  }

  /** Stores the low nbits of ld at bit lsb, as far as the width reaches. */
  method SetBits(owp: array<Word>, obits: nat, lsb: nat, nbits: nat, ld: nat)
    requires obits <= 32 * owp.Length
    requires Val(owp[..]) < Pow2(lsb) && Val(owp[..]) < Pow2(obits)
    modifies owp
    ensures Val(owp[..]) == (old(Val(owp[..])) + Field(ld, nbits, lsb)) % Pow2(obits)
    ensures Val(owp[..]) < Pow2(lsb + nbits)
  {
    hide Val, Pow2;
    ghost var v0 := Val(owp[..]);
    var n, at, rest := nbits, lsb, ld;
    ValBounds(owp[..]);
    ghost var done := 0;
    SmallPowers();
    while n != 0 && at < obits
      invariant 0 <= n <= nbits && done == nbits - n && at == lsb + done
      invariant done == 0 || at <= obits
      invariant rest == ld / Pow2(done)
      invariant Val(owp[..]) == v0 + Field(ld, done, lsb)
      invariant 0 <= Val(owp[..]) < Pow2(at)
    {
      var b := rest % 2;
      AssignClearBit(owp[..], at, b);
      BitStored(ld, done, lsb, v0);
      ghost var next := owp[..][at / 32 := WithBit(owp[at / 32], at % 32, b)];
      owp[at / 32] := WithBit(owp[at / 32], at % 32, b);
      assert owp[..] == next;
      n, at, rest, done := n - 1, at + 1, rest / 2, done + 1;
    }
    Truncated(v0, ld, done, nbits, lsb, obits);
    Pow2Monotone(at, lsb + nbits);
  }

  /** One more low bit of ld, seen from the whole. */
  lemma BitStored(ld: nat, n: nat, lsb: nat, v0: int)
    requires v0 < Pow2(lsb)
    ensures ld / Pow2(n + 1) == (ld / Pow2(n)) / 2
    ensures Field(ld, n + 1, lsb) == Field(ld, n, lsb) + ((ld / Pow2(n)) % 2) * Pow2(lsb + n)
    ensures v0 + Field(ld, n + 1, lsb) < Pow2(lsb + n + 1)
  {
    hide Pow2;
    var p, w, q := Pow2(n), Pow2(lsb), ld / Pow2(n);
    SmallPowers();
    Pow2Add(n, 1);
    DivDiv(ld, p, 2);
    DivModDef(ld, p);
    DivModDef(q, 2);
    MulDistrib((q / 2) * 2, q % 2, p);
    MulAssoc(q / 2, 2, p);
    DivModUnique(ld, 2 * p, q / 2, (q % 2) * p + ld % p);
    Pow2Add(n, lsb);
    MulDistrib((q % 2) * p, ld % p, w);
    MulAssoc(q % 2, p, w);
    Pow2Add(n + 1, lsb);
    MulLe(ld % Pow2(n + 1) + 1, Pow2(n + 1), w);
    MulDistrib(ld % Pow2(n + 1), 1, w);
  }

  /** Stopping at the width is reducing modulo 2^width. */
  lemma Truncated(v0: nat, ld: nat, done: nat, nbits: nat, lsb: nat, obits: nat)
    requires v0 < Pow2(lsb) && v0 < Pow2(obits) && done <= nbits
    requires done == nbits || lsb + done >= obits
    requires done == 0 || lsb + done <= obits
    ensures (v0 + Field(ld, nbits, lsb)) % Pow2(obits) == v0 + Field(ld, done, lsb)
  {
    hide Pow2, Field;
    var x := LowBits(ld, done, nbits);
    FieldIs(ld, nbits, lsb, x);
    FieldIs(ld, done, lsb, x % Pow2(done));
    if lsb >= obits && done == 0 {
      assert x % Pow2(done) == 0 by {
        Pow2Zero();
      }
      Pow2Add(lsb - obits, obits);
      TruncatedAll(v0, x, Pow2(lsb - obits), Pow2(obits));
    } else {
      Pow2Add(done, lsb);
      Pow2Monotone(lsb + done, obits);
      TruncatedAt(v0, x, Pow2(lsb), Pow2(done), Pow2(obits), done == nbits);
    }
  }

  lemma FieldIs(d: nat, n: nat, at: nat, x: int)
    requires x == d % Pow2(n)
    ensures Field(d, n, at) == x * Pow2(at)
  {
  }

  lemma LowBits(x: nat, few: nat, many: nat) returns (low: nat)
    requires few <= many
    ensures low == x % Pow2(many) < Pow2(many)
    ensures low % Pow2(few) == x % Pow2(few)
  {
    hide Pow2;
    low := x % Pow2(many);
    DivModDef(x, Pow2(many));
    Pow2Add(few, many - few);
    ModOfMod(x, Pow2(few), Pow2(many - few));
  }

  /** Bits that all lie beyond the width. */
  lemma TruncatedAll(v0: int, x: int, k: int, m: int)
    requires 0 <= v0 < m
    ensures (v0 + x * (k * m)) % m == v0
  {
    MulAssoc(x, k, m);
    DivModUnique(v0 + x * (k * m), m, x * k, v0);
  }

  /** Bits of which p fit below the width m. */
  lemma TruncatedAt(v0: int, x: int, w: int, p: int, m: int, all: bool)
    requires 0 <= v0 < w && 0 <= x && 0 < p && p * w <= m
    requires if all then x < p else p * w == m
    ensures (v0 + x * w) % m == v0 + (x % p) * w
  {
    DivModDef(x, p);
    MulLe(x % p + 1, p, w);
    MulDistrib(x % p, 1, w);
    MulLe(0, x % p, w);
    if all {
      DivModUnique(x, p, 0, x);
      DivModUnique(v0 + x * w, m, 0, v0 + x * w);
    } else {
      MulDistrib((x / p) * p, x % p, w);
      MulAssoc(x / p, p, w);
      DivModUnique(v0 + x * w, m, x / p, v0 + (x % p) * w);
    }
  }

  lemma ModOfMod(x: nat, a: nat, b: nat)
    requires a > 0 && b > 0
    ensures (x % (a * b)) % a == x % a
  {
    MulLe(1, a, b);
    var m := x % (a * b);
    DivModDef(x, a * b);
    DivModDef(m, a);
    MulExchange(x / (a * b), a, b);
    MulDistrib(x / (a * b) * b, m / a, a);
    MulAssoc(x / (a * b), b, a);
    DivModUnique(x, a, x / (a * b) * b + m / a, m % a);
  }

  lemma ReadValuePrepend(b: nat, s: string)
    requires |s| > 0
    ensures var t := s[1..];
            if IsDigit(s[0])
            then ReadValue(b, s) == Field(DigitValue(s[0]), b, b * DigitCount(t)) + ReadValue(b, t)
                 && b * DigitCount(s) == b * DigitCount(t) + b
            else ReadValue(b, s) == ReadValue(b, t) && DigitCount(s) == DigitCount(t)
  {
    hide Pow2;
    MulDistrib(DigitCount(s[1..]), 1, b);
  }

  /** Reads the digits of str[posstart..posend], b bits each, from the last one back. */
  method Based(owp: array<Word>, obits: nat, b: nat, str: string, posstart: nat, posend: nat)
    requires 0 < obits <= 32 * owp.Length && posstart <= posend <= |str|
    requires Val(owp[..]) == 0
    modifies owp
    ensures Val(owp[..]) == ReadValue(b, str[posstart..posend]) % Pow2(obits)
  {
    hide Val, Pow2, ReadValue, DigitCount, Field;
    var lsb := 0;
    var pos := posend;
    Pow2Zero();
    ReadValueNone(b);
    assert str[posend..posend] == [] && DigitCount([]) == 0 by { DigitCountNone(); }
    DivModUnique(0, Pow2(obits), 0, 0);
    while pos > posstart
      invariant posstart <= pos <= posend
      invariant lsb == b * DigitCount(str[pos..posend])
      invariant Val(owp[..]) == ReadValue(b, str[pos..posend]) % Pow2(obits)
      invariant 0 <= Val(owp[..]) < Pow2(lsb)
    {
      pos := pos - 1;
      var c := str[pos];
      assert str[pos..posend][1..] == str[pos + 1..posend];
      ReadValuePrepend(b, str[pos..posend]);
      if IsDigit(c) {
        ghost var v := ReadValue(b, str[pos + 1..posend]);
        DivModDef(v, Pow2(obits));
        AddThenMod(v, Field(DigitValue(c), b, lsb), Pow2(obits));
        if DigitValue(c) != 0 {
          SetBits(owp, obits, lsb, b, DigitValue(c));
          ValBounds(owp[..]);
        } else {
          FieldOfZero(b, lsb);
          Pow2Monotone(lsb, lsb + b);
        }
        lsb := lsb + b;
      }
    }
  }

  lemma FieldOfZero(n: nat, at: nat)
    ensures Field(0, n, at) == 0
  {
    DivModUnique(0, Pow2(n), 0, 0);
  }

  lemma DigitCountNone()
    ensures DigitCount([]) == 0
  {
  }

  lemma AddThenMod(x: int, y: int, m: int)
    requires m > 0
    ensures (x % m + y) % m == (x + y) % m
  {
    DivModDef(x, m);
    DivModDef(x % m + y, m);
    var k := (x % m + y) / m;
    MulDistrib(x / m, k, m);
    DivModUnique(x + y, m, x / m + k, (x % m + y) % m);
  }

  /** The scanner clears its output before reading into it. */
  method Scan(f: Radix, owp: array<Word>, obits: nat, str: string)
    requires 0 < obits <= 32 * owp.Length
    modifies owp
    ensures Val(owp[..]) == ReadValue(DigitBits(f), str) % Pow2(obits)
  {
    for i := 0 to owp.Length
      invariant forall k :: 0 <= k < i ==> owp[k] == 0
    {
      owp[i] := 0;
    }
    ValZeros(owp[..]);
    assert str[0..|str|] == str;
    Based(owp, obits, DigitBits(f), str, 0, |str|);
  }

  /** Printing a clean number and reading the text back gives the same limbs. */
  method PrintThenScan(f: Radix, s: seq<Word>, lbits: nat, minimal: bool, owp: array<Word>)
    requires 0 < lbits <= 32 * |s| && owp.Length == |s|
    requires Val(s) < Pow2(lbits)
    modifies owp
    ensures owp[..] == s
  {
    hide Val, Pow2;
    var text := Format(f, s, lbits, minimal);
    Scan(f, owp, lbits, text);
    ValBounds(s);
    DivModUnique(Val(s), Pow2(lbits), 0, Val(s));
    ValInjective(owp[..], s);
  }
}
