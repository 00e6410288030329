/** Fixed-width machine words as integers: powers of two, single bits, and the
    value of a little-endian sequence of 32-bit limbs. */
module Words {

  const BASE: int := 0x1_0000_0000
  const BASE64: int := 0x1_0000_0000_0000_0000

  type Word = x: int | 0 <= x < 0x1_0000_0000
  type Byte = x: int | 0 <= x < 256

  /** A 64-bit unsigned result: the mathematical value modulo 2^64. */
  function Wrap64(x: int): (r: int)
    ensures 0 <= r < BASE64
    ensures 0 <= x < BASE64 ==> r == x
  {
    x % BASE64
  }

  /** The 64-bit pattern x read as a two's complement number. */
  function Signed64(x: int): (r: int)
    requires 0 <= x < BASE64
  {
    if x < BASE64 / 2 then x else x - BASE64
  }

  function Wrap32(x: int): (r: Word)
    ensures 0 <= x < BASE ==> r == x
  {
    x % BASE
  }

  // ----- powers of two

  function Pow2(n: nat): (p: nat)
    ensures p >= 1
  {
    if n == 0 then 1 else 2 * Pow2(n - 1)
  }

  lemma {:induction false} Pow2Add(a: nat, b: nat)
    ensures Pow2(a + b) == Pow2(a) * Pow2(b)
  {
    if a == 0 {
    } else {
      Pow2Add(a - 1, b);
      assert Pow2(a + b) == 2 * Pow2(a - 1 + b);
      MulAssoc(2, Pow2(a - 1), Pow2(b));
    }
  }

  lemma {:induction false} Pow2Monotone(a: nat, b: nat)
    requires a <= b
    ensures Pow2(a) <= Pow2(b)
  {
    if a < b {
      Pow2Monotone(a, b - 1);
    }
  }

  lemma Pow2At32()
    ensures Pow2(32) == BASE
    ensures Pow2(31) == BASE / 2
  {
    assert Pow2(8) == 256;
    Pow2Add(8, 8);
    Pow2Add(16, 16);
    assert Pow2(31) * 2 == Pow2(32);
  }

  // ----- multiplication and division facts the solver needs by name

  lemma MulAssoc(x: int, y: int, z: int)
    ensures (x * y) * z == x * (y * z)
  {
  }

  lemma MulExchange(x: int, y: int, z: int)
    ensures x * (y * z) == y * (x * z)
  {
    MulAssoc(x, y, z);
    MulAssoc(y, x, z);
  }

  lemma MulDistrib(x: int, y: int, z: int)
    ensures (x + y) * z == x * z + y * z
    ensures (x - y) * z == x * z - y * z
    ensures z * (x + y) == z * x + z * y
    ensures z * (x - y) == z * x - z * y
  {
  }

  lemma MulLe(x: int, y: int, z: int)
    requires x <= y && 0 <= z
    ensures x * z <= y * z
    ensures z * x <= z * y
  {
  }

  /** From x*z < y*z with z positive, x < y. */
  lemma MulLtCancel(x: int, y: int, z: int)
    requires 0 < z
    requires x * z < y * z
    ensures x < y
  {
    if y <= x {
      MulLe(y, x, z);
    }
  }

  lemma MulLeCancel(x: int, y: int, z: int)
    requires 0 < z
    requires x * z <= y * z
    ensures x <= y
  {
    if y < x {
      MulLe(y + 1, x, z);
      MulDistrib(y, 1, z);
    }
  }

  /** A quotient and remainder are determined by the division equation. */
  lemma DivModUnique(x: int, d: int, q: int, r: int)
    requires 0 < d
    requires x == q * d + r
    requires 0 <= r < d
    ensures x / d == q
    ensures x % d == r
  {
    var q', r' := x / d, x % d;
    assert x == q' * d + r';
    MulDistrib(q, q', d);
    if q < q' {
      MulLe(1, q' - q, d);
      MulDistrib(q', q, d);
    } else if q' < q {
      MulLe(1, q - q', d);
    }
  }

  lemma DivModDef(x: int, d: int)
    requires 0 < d
    ensures x == (x / d) * d + x % d
    ensures 0 <= x % d < d
    ensures 0 <= x ==> 0 <= x / d
  {
    if 0 <= x && x / d < 0 {
      MulLe(x / d, -1, d);
    }
  }

  /** Dividing twice is dividing by the product. */
  lemma DivDiv(x: int, a: int, b: int)
    requires 0 < a && 0 < b
    ensures 0 < a * b
    ensures (x / a) / b == x / (a * b)
  {
    MulLe(1, a, b);
    DivModDef(x, a);
    DivModDef(x / a, b);
    var q, r := (x / a) / b, (x / a) % b;
    assert x == (q * b + r) * a + x % a;
    MulDistrib(q * b, r, a);
    MulAssoc(q, b, a);
    assert b * a == a * b;
    MulLe(r, b - 1, a);
    MulDistrib(b, 1, a);
    MulLe(0, r, a);
    DivModUnique(x, a * b, q, r * a + x % a);
  }

  // ----- the value of little-endian limbs

  function BPow(n: nat): (p: nat)
    ensures p >= 1
  {
    if n == 0 then 1 else BASE * BPow(n - 1)
  }

  lemma BPowNext(n: nat)
    ensures BPow(n + 1) == BASE * BPow(n)
    ensures BPow(0) == 1
  {
  }

  lemma {:induction false} BPowAdd(a: nat, b: nat)
    ensures BPow(a + b) == BPow(a) * BPow(b)
  {
    if a == 0 {
    } else {
      BPowAdd(a - 1, b);
      assert BPow(a + b) == BASE * BPow(a - 1 + b);
      MulAssoc(BASE, BPow(a - 1), BPow(b));
    }
  }

  lemma {:induction false} BPowIsPow2(n: nat)
    ensures BPow(n) == Pow2(32 * n)
  {
    if n > 0 {
      BPowIsPow2(n - 1);
      Pow2Add(32, 32 * (n - 1));
      Pow2At32();
    }
  }

  /** The number a sequence of limbs stands for, least significant limb first. */
  function Val(s: seq<int>): int
  {
    if |s| == 0 then 0 else Val(s[..|s| - 1]) + s[|s| - 1] * BPow(|s| - 1)
  }

  lemma ValEmpty(s: seq<int>)
    requires |s| == 0
    ensures Val(s) == 0
  {
  }

  lemma ValAppend(s: seq<int>, x: int)
    ensures Val(s + [x]) == Val(s) + x * BPow(|s|)
  {
    assert (s + [x])[..|s|] == s;
  }

  /** Extending a prefix by one limb. */
  lemma ValNext(s: seq<int>, i: nat)
    requires i < |s|
    ensures Val(s[..i + 1]) == Val(s[..i]) + s[i] * BPow(i)
  {
    assert s[..i + 1] == s[..i] + [s[i]];
    ValAppend(s[..i], s[i]);
  }

  lemma {:induction false} ValConcat(a: seq<int>, b: seq<int>)
    ensures Val(a + b) == Val(a) + BPow(|a|) * Val(b)
  {
    if |b| == 0 {
      assert a + b == a;
    } else {
      var b', x := b[..|b| - 1], b[|b| - 1];
      assert a + b == (a + b') + [x];
      ValAppend(a + b', x);
      ValConcat(a, b');
      BPowAdd(|a|, |b'|);
      MulDistrib(Val(b'), x * BPow(|b'|), BPow(|a|));
      MulExchange(x, BPow(|a|), BPow(|b'|));
    }
  }

  lemma ValSplit(s: seq<int>, i: nat)
    requires i <= |s|
    ensures Val(s) == Val(s[..i]) + BPow(i) * Val(s[i..])
  {
    assert s == s[..i] + s[i..];
    ValConcat(s[..i], s[i..]);
  }

  lemma {:induction false} ValBounds(s: seq<Word>)
    ensures 0 <= Val(s) < BPow(|s|)
  {
    if |s| > 0 {
      var n := |s| - 1;
      ValBounds(s[..n]);
      MulLe(s[n], BASE - 1, BPow(n));
      MulLe(0, s[n], BPow(n));
      MulDistrib(BASE, 1, BPow(n));
    }
  }

  lemma {:induction false} ValZeros(s: seq<int>)
    requires forall i :: 0 <= i < |s| ==> s[i] == 0
    ensures Val(s) == 0
  {
    if |s| > 0 {
      ValZeros(s[..|s| - 1]);
    }
  }

  /** Limbs above the top non-zero limb do not matter. */
  lemma ValDropZeros(s: seq<int>, n: nat)
    requires n <= |s|
    requires forall i :: n <= i < |s| ==> s[i] == 0
    ensures Val(s) == Val(s[..n])
  {
    ValSplit(s, n);
    ValZeros(s[n..]);
  }

  /** Limb sequences of one length with the same value are the same. */
  lemma {:induction false} ValInjective(a: seq<Word>, b: seq<Word>)
    requires |a| == |b|
    requires Val(a) == Val(b)
    ensures a == b
  {
    if |a| > 0 {
      var n := |a| - 1;
      var a', b' := a[..n], b[..n];
      ValBounds(a');
      ValBounds(b');
      DivModUnique(Val(a), BPow(n), a[n], Val(a'));
      DivModUnique(Val(b), BPow(n), b[n], Val(b'));
      ValInjective(a', b');
      assert a == a' + [a[n]] && b == b' + [b[n]];
    }
  }

  /** Adding a limb at the low end. */
  lemma ValPrepend(s: seq<int>)
    requires |s| > 0
    ensures Val(s) == s[0] + BASE * Val(s[1..])
  {
    ValSplit(s, 1);
    ValNext(s, 0);
    assert BPow(1) == BASE * BPow(0);
  }

  lemma ValOfTwo(s: seq<int>)
    requires |s| == 2
    ensures Val(s) == s[0] + BASE * s[1]
  {
    ValNext(s, 0);
    ValNext(s, 1);
    assert s[..2] == s;
    assert BPow(1) == BASE * BPow(0);
  }

  lemma ValOfThree(s: seq<int>)
    requires |s| == 3
    ensures Val(s) == s[0] + BASE * (s[1] + BASE * s[2])
  {
    ValSplit(s, 1);
    ValNext(s, 0);
    ValOfTwo(s[1..]);
    assert BPow(1) == BASE * BPow(0);
  }

  /** The limbs from position low up are the leading digits of the whole. */
  lemma ValTop(s: seq<Word>, low: nat)
    requires low <= |s|
    ensures Val(s[low..]) * BPow(low) <= Val(s) < (Val(s[low..]) + 1) * BPow(low)
  {
    ValSplit(s, low);
    ValBounds(s[..low]);
    MulDistrib(Val(s[low..]), 1, BPow(low));
  }

  /** The n limbs of a number that fits in them. */
  function Limbs(x: nat, n: nat): (s: seq<Word>)
    requires x < BPow(n)
    ensures |s| == n
  {
    if n == 0 then []
    else
      LimbsFit(x, n);
      Limbs(x % BPow(n - 1), n - 1) + [x / BPow(n - 1)]
  }

  lemma LimbsFit(x: nat, n: nat)
    requires n > 0 && x < BPow(n)
    ensures 0 <= x / BPow(n - 1) < BASE && 0 <= x % BPow(n - 1) < BPow(n - 1)
  {
    DivModDef(x, BPow(n - 1));
    MulLtCancel(x / BPow(n - 1), BASE, BPow(n - 1));
  }

  lemma {:induction false} ValOfLimbs(x: nat, n: nat)
    requires x < BPow(n)
    ensures Val(Limbs(x, n)) == x
  {
    if n > 0 {
      LimbsFit(x, n);
      ValOfLimbs(x % BPow(n - 1), n - 1);
      ValAppend(Limbs(x % BPow(n - 1), n - 1), x / BPow(n - 1));
      DivModDef(x, BPow(n - 1));
    }
  }
}
