/** Division and modulus of numbers of any number of 32-bit limbs, digit by digit:
    Algorithm D of Knuth, The Art of Computer Programming, volume 2, section 4.3.1,
    with the 64-bit wrap-around arithmetic of epiphany_models/verilated.cpp. */
module WideDivision {
  import opened Words
  import opened Bits

  // ----- the size of a number

  /** Number of limbs up to the highest non-zero one. */
  function LimbCount(s: seq<Word>): (n: nat)
    ensures n <= |s|
    ensures n > 0 ==> s[n - 1] != 0
    ensures forall i :: n <= i < |s| ==> s[i] == 0
  {
    if |s| == 0 then 0
    else if s[|s| - 1] != 0 then |s|
    else LimbCount(s[..|s| - 1])
  }

  lemma LimbCountBounds(s: seq<Word>)
    ensures Val(s) == Val(s[..LimbCount(s)])
    ensures LimbCount(s) == 0 <==> Val(s) == 0
    ensures LimbCount(s) > 0 ==> BPow(LimbCount(s) - 1) <= Val(s)
    ensures Val(s) < BPow(LimbCount(s))
  {
    var n := LimbCount(s);
    ValDropZeros(s, n);
    ValBounds(s[..n]);
    if n > 0 {
      ValNext(s, n - 1);
      ValBounds(s[..n - 1]);
      MulLe(1, s[n - 1], BPow(n - 1));
    }
  }

  /** One plus the position of the highest set bit, 0 for zero. */
  method MostSetBitPlus1(s: seq<Word>) returns (msb: nat)
    ensures msb == 0 <==> LimbCount(s) == 0
    ensures msb != 0 ==> (msb + 31) / 32 == LimbCount(s)
                         && msb - 1 == 32 * (LimbCount(s) - 1) + BitLength(s[LimbCount(s) - 1]) - 1
  {
    var i := |s|;
    while i > 0 && s[i - 1] == 0
      invariant 0 <= i <= |s|
      invariant LimbCount(s[..i]) == LimbCount(s)
    {
      i := i - 1;
      assert s[..i + 1][..i] == s[..i];
    }
    assert s[..|s|] == s;
    if i == 0 {
      return 0;
    }
    BitLengthWord(s[i - 1]);
    msb := 32 * (i - 1) + BitLength(s[i - 1]);
  }

  /** The shift that brings the top bit of the divisor's top limb to bit 31. */
  function NormalShift(top: Word): (s: nat)
    requires top > 0
    ensures s <= 31
  {
    BitLengthWord(top);
    32 - BitLength(top)
  }

  // ----- normalisation: shifting all limbs left by s bits

  /** The bits x loses to the limb above it. */
  function Carry(x: Word, s: nat): Word
    requires s <= 31
  {
    if s == 0 then 0 else Shr(x, 32 - s)
  }

  lemma CarrySplit(x: Word, s: nat)
    requires s <= 31
    ensures x * Pow2(s) == Shl(x, s) + BASE * Carry(x, s)
    ensures Carry(x, s) < Pow2(s)
    ensures Shl(x, s) + Pow2(s) <= BASE
  {
    ShlSplit(x, s);
  }

  /** One limb of the shifted number: its own bits and those from the limb below. */
  function ShiftedLimb(x: Word, below: Word, s: nat): (r: Word)
    requires s <= 31
    ensures r == Shl(x, s) + Carry(below, s)
  {
    assert Or(Shl(x, s), Carry(below, s)) == Shl(x, s) + Carry(below, s) < BASE by {
      if s == 0 {
        OrZero(Shl(x, s));
      } else {
        ShlOr(x, below, s);
      }
    }
    Or(Shl(x, s), Carry(below, s))
  }

  method Normalize(src: seq<Word>, n: nat, s: nat, dst: array<Word>)
    requires 1 <= n <= |src| && n <= dst.Length && s <= 31
    modifies dst
    ensures forall k :: n <= k < dst.Length ==> dst[k] == old(dst[k])
    ensures Val(dst[..n]) + Carry(src[n - 1], s) * BPow(n) == Val(src[..n]) * Pow2(s)
  {
    var i := n - 1;
    while i > 0
      invariant 0 <= i < n
      invariant forall k :: n <= k < dst.Length ==> dst[k] == old(dst[k])
      invariant forall k :: i < k < n ==> dst[k] == ShiftedLimb(src[k], src[k - 1], s)
    {
      dst[i] := ShiftedLimb(src[i], src[i - 1], s);
      i := i - 1;
    }
    dst[0] := Shl(src[0], s);
    NormalizedValue(src, dst[..n], n, s);
    assert dst[..n][..n] == dst[..n];
  }

  lemma {:induction false} NormalizedValue(src: seq<Word>, d: seq<Word>, n: nat, s: nat)
    requires 1 <= n <= |src| && n <= |d| && s <= 31
    requires d[0] == Shl(src[0], s)
    requires forall k :: 0 < k < n ==> d[k] == ShiftedLimb(src[k], src[k - 1], s)
    ensures Val(d[..n]) + Carry(src[n - 1], s) * BPow(n) == Val(src[..n]) * Pow2(s)
  {
    hide Val, BPow, Pow2;
    var x, w := src[n - 1], BPow(n - 1);
    CarrySplit(x, s);
    ValNext(src, n - 1);
    ValNext(d, n - 1);
    BPowNext(n - 1);
    if n == 1 {
      ValEmpty(src[..0]);
      ValEmpty(d[..0]);
      ShiftedStep(0, 0, x, Shl(x, s), Carry(x, s), 0, Pow2(s), w);
    } else {
      NormalizedValue(src, d, n - 1, s);
      ShiftedStep(Val(d[..n - 1]), Val(src[..n - 1]), x, Shl(x, s), Carry(x, s), Carry(src[n - 2], s), Pow2(s), w);
    }
  }

  lemma ShiftedStep(lowD: int, lowS: int, x: int, shifted: int, carry: int, below: int, p: int, w: int)
    requires x * p == shifted + BASE * carry
    requires lowD + below * w == lowS * p
    ensures lowD + (shifted + below) * w + carry * (BASE * w) == (lowS + x * w) * p
  {
    MulDistrib(lowS, x * w, p);
    MulAssoc(x, w, p);
    MulAssoc(x, p, w);
    MulDistrib(shifted, BASE * carry, w);
    MulDistrib(shifted, below, w);
    MulAssoc(carry, BASE, w);
  }

  // ----- one quotient digit

  /** The limits of a trial digit: v1,v0 are the divisor's two top limbs,
      u2,u1,u0 the three limbs of the partial dividend above them. */
  function TopQuotient(u2: Word, u1: Word, u0: Word, v1: Word, v0: Word): (q: int)
    requires v1 > 0
  {
    ((u2 * BASE + u1) * BASE + u0) / (v1 * BASE + v0)
  }

  lemma TrialStart(unw64: nat, u0: Word, v1: Word, v0: Word)
    requires v1 > 0
    ensures (unw64 * BASE + u0) / (v1 * BASE + v0) <= unw64 / v1
  {
    var u, v := unw64 * BASE + u0, v1 * BASE + v0;
    var q := u / v;
    DivModDef(u, v);
    MulDistrib(v1 * BASE, v0, q);
    MulLe(0, v0, q);
    MulAssoc(q, v1, BASE);
    MulLtCancel(q * v1, unw64 + 1, BASE);
    DivModDef(unw64, v1);
    MulDistrib(unw64 / v1, 1, v1);
    MulLtCancel(q, unw64 / v1 + 1, v1);
  }

  /** qhat against the true quotient of the top limbs, from the loop's test. */
  lemma TrialCompare(unw64: int, u0: Word, v1: Word, v0: Word, qhat: int, rhat: int)
    requires v1 > 0 && unw64 >= 0
    requires unw64 == qhat * v1 + rhat
    ensures var q := (unw64 * BASE + u0) / (v1 * BASE + v0);
            if qhat * v0 > rhat * BASE + u0 then qhat - 1 >= q else qhat <= q
  {
    var u, v := unw64 * BASE + u0, v1 * BASE + v0;
    var q := u / v;
    DivModDef(u, v);
    MulDistrib(v1 * BASE, v0, qhat);
    MulAssoc(qhat, v1, BASE);
    assert qhat * v - u == qhat * v0 - (rhat * BASE + u0);
    if qhat * v0 > rhat * BASE + u0 {
      MulLtCancel(q, qhat, v);
    } else {
      MulDistrib(q, 1, v);
      MulLtCancel(qhat, q + 1, v);
    }
  }

  lemma TrialNoWrap(u0: Word, v0: Word, qhat: int, rhat: int)
    requires 0 <= qhat < BASE && 0 <= rhat < BASE
    ensures Wrap64(qhat * v0) == qhat * v0
    ensures Wrap64(Wrap64(rhat * BASE) + u0) == rhat * BASE + u0
  {
    MulLe(qhat, BASE - 1, v0);
    MulLe(0, qhat, v0);
  }

  /** Once the remainder estimate has outgrown a limb, the digit fits and passes the test. */
  lemma TrialOverflow(unw64: int, u2: Word, u1: Word, u0: Word, v1: Word, v0: Word, qhat: int, rhat: int)
    requires v1 > 0 && u2 <= v1 && unw64 == u2 * BASE + u1
    requires unw64 == qhat * v1 + rhat
    requires rhat >= BASE && qhat >= 0
    ensures qhat < BASE
    ensures qhat * v0 <= rhat * BASE + u0
  {
    MulLtCancel(qhat, BASE, v1);
    MulLe(qhat, BASE, v0);
  }

  /** The trial digit is the quotient of the top limbs, capped to one limb, after
      at most two corrections; no 64-bit step loses information. */
  method TrialDigit(u2: Word, u1: Word, u0: Word, v1: Word, v0: Word) returns (qhat: int, rounds: nat)
    requires v1 >= BASE / 2 && u2 <= v1
    ensures qhat == if TopQuotient(u2, u1, u0, v1, v0) < BASE then TopQuotient(u2, u1, u0, v1, v0) else BASE - 1
    ensures 0 <= qhat < BASE
    ensures rounds <= 2
  {
    var unw64 := u2 * BASE + u1;
    qhat := unw64 / v1;
    var rhat := unw64 - qhat * v1;
    rounds := 0;
    ghost var q := TopQuotient(u2, u1, u0, v1, v0);
    DivModDef(unw64, v1);
    DivModDef(unw64 * BASE + u0, v1 * BASE + v0);
    TrialStart(unw64, u0, v1, v0);
    while rhat < BASE && (qhat >= BASE || Wrap64(qhat * v0) > Wrap64(Wrap64(rhat * BASE) + u0))
      invariant unw64 == qhat * v1 + rhat
      invariant 0 <= rhat && rounds * (BASE / 2) <= rhat
      invariant 0 <= q && 0 <= qhat && (qhat >= q || qhat >= BASE - 1)
      invariant rounds <= 2
      decreases qhat
    {
      if qhat < BASE {
        TrialNoWrap(u0, v0, qhat, rhat);
        TrialCompare(unw64, u0, v1, v0, qhat, rhat);
      }
      MulDistrib(qhat, 1, v1);
      qhat := qhat - 1;
      rhat := rhat + v1;
      rounds := rounds + 1;
    }
    if rhat < BASE {
      TrialNoWrap(u0, v0, qhat, rhat);
    } else {
      TrialOverflow(unw64, u2, u1, u0, v1, v0, qhat, rhat);
    }
    TrialCompare(unw64, u0, v1, v0, qhat, rhat);
  }

  // ----- multiply and subtract, add back

  lemma ProductOfLimbs(x: int, y: int)
    requires 0 <= x < BASE && 0 <= y < BASE
    ensures 0 <= x * y <= (BASE - 1) * (BASE - 1)
    ensures Wrap64(x * y) == x * y
  {
    MulLe(x, BASE - 1, y);
    MulLe(0, x, y);
  }

  /** One step of multiply-and-subtract: the wrapped 64-bit arithmetic, with the
      borrow k unsigned and t a signed reading, computes a - k - qhat*v exactly. */
  method SubtractLimb(a: Word, k: int, qhat: int, v: Word) returns (limb: Word, borrow: int)
    requires 0 <= k < BASE && 0 <= qhat < BASE
    ensures 0 <= borrow < BASE
    ensures limb - borrow * BASE == a - k - qhat * v
  {
    var p := Wrap64(qhat * v);
    ProductOfLimbs(qhat, v);
    var t := Signed64(Wrap64(a - k - p % BASE));
    assert t == a - k - p % BASE;
    limb := t % BASE;
    borrow := Wrap64(p / BASE - t / BASE);
    assert p == (p / BASE) * BASE + p % BASE;
    assert t == (t / BASE) * BASE + t % BASE;
  }

  /** The same step at weight w, joined to the part already subtracted. */
  lemma SubtractAtWeight(low: int, limb: int, k0: int, k: int, ui: int, q: int, vi: int, w: int, us: int, vs: int)
    requires limb - k * BASE == ui - k0 - q * vi
    requires low - k0 * w == us - q * vs
    ensures (low + limb * w) - k * (BASE * w) == (us + ui * w) - q * (vs + vi * w)
  {
    calc {
      (low + limb * w) - k * (BASE * w);
      { MulAssoc(k, BASE, w); MulDistrib(limb, k * BASE, w); }
      low + (ui - k0 - q * vi) * w;
      { MulDistrib(ui - k0, q * vi, w); MulDistrib(ui, k0, w); MulAssoc(q, vi, w); }
      us - q * vs + ui * w - q * (vi * w);
      { MulDistrib(vs, vi * w, q); }
      (us + ui * w) - q * (vs + vi * w);
    }
  }

  lemma SubtractStep(u: seq<int>, v: seq<int>, q: int, low: seq<int>, limb: int, k0: int, k: int)
    requires |low| < |u| && |low| < |v|
    requires limb - k * BASE == u[|low|] - k0 - q * v[|low|]
    requires Val(low) - k0 * BPow(|low|) == Val(u[..|low|]) - q * Val(v[..|low|])
    ensures Val(low + [limb]) - k * BPow(|low| + 1) == Val(u[..|low| + 1]) - q * Val(v[..|low| + 1])
  {
    hide *;
    var i := |low|;
    BPowNext(i);
    ValAppend(low, limb);
    ValNext(u, i);
    ValNext(v, i);
    SubtractAtWeight(Val(low), limb, k0, k, u[i], q, v[i], BPow(i), Val(u[..i]), Val(v[..i]));
  }

  /** un[j..j+vw] -= qhat * vn, limb by limb; the borrow k is left over. */
  method SubtractLimbs(un: array<Word>, j: nat, vw: nat, vn: array<Word>, qhat: int) returns (k: int)
    requires un != vn && j + vw < un.Length && vw <= vn.Length && 0 <= qhat < BASE
    modifies un
    ensures forall i :: 0 <= i < un.Length && !(j <= i < j + vw) ==> un[i] == old(un[i])
    ensures 0 <= k < BASE
    ensures Val(un[j..j + vw]) - k * BPow(vw) == Val(old(un[j..j + vw])) - qhat * Val(vn[..vw])
  {
    hide Val, BPow;
    ghost var u0: seq<int>, v: seq<int> := un[j..j + vw], vn[..vw];
    k := 0;
    var i := 0;
    ValEmpty(un[j..j]);
    ValEmpty(u0[..0]);
    ValEmpty(v[..0]);
    while i < vw
      invariant 0 <= i <= vw && 0 <= k < BASE
      invariant forall m :: 0 <= m < un.Length && !(j <= m < j + i) ==> un[m] == old(un[m])
      invariant Val(un[j..j + i]) - k * BPow(i) == Val(u0[..i]) - qhat * Val(v[..i])
    {
      ghost var low, k0 := un[j..j + i], k;
      un[i + j], k := SubtractLimb(un[i + j], k, qhat, vn[i]);
      assert un[j..j + i + 1] == low + [un[i + j]];
      SubtractStep(u0, v, qhat, low, un[i + j], k0, k);
      i := i + 1;
    }
    assert u0[..vw] == u0 && v[..vw] == v;
  }

  /** The 64-bit difference of a limb and a borrow, read as signed, is exact. */
  lemma TopDifference(a: Word, k: int)
    requires 0 <= k < BASE
    ensures 0 <= Wrap64(a - k) < BASE64 && Signed64(Wrap64(a - k)) == a - k
  {
  }

  /** The top limb at its weight, joined to the part already subtracted. */
  lemma TopSubtracted(low: int, low0: int, a: int, k: int, w: int, qv: int)
    requires low - k * w == low0 - qv
    ensures low + (a - k) * w == low0 + a * w - qv
  {
    MulDistrib(a, k, w);
  }

  /** All of it, with the top limb; t is the signed value left there. */
  method MultiplySubtract(un: array<Word>, j: nat, vw: nat, vn: array<Word>, qhat: int) returns (t: int)
    requires un != vn && j + vw < un.Length && vw <= vn.Length && 0 <= qhat < BASE
    modifies un
    ensures forall i :: 0 <= i < un.Length && !(j <= i <= j + vw) ==> un[i] == old(un[i])
    ensures -BASE < t < BASE && un[j + vw] == t % BASE
    ensures Val(un[j..j + vw]) + t * BPow(vw) == Val(old(un[j..j + vw + 1])) - qhat * Val(vn[..vw])
  {
    hide Val, BPow, Wrap64, Signed64;
    ghost var u0 := un[j..j + vw + 1];
    ValNext(u0, vw);
    assert u0[..vw + 1] == u0 && u0[..vw] == un[j..j + vw];
    var k := SubtractLimbs(un, j, vw, vn, qhat);
    TopDifference(un[j + vw], k);
    t := Signed64(Wrap64(un[j + vw] - k));
    ghost var low := un[j..j + vw];
    un[j + vw] := t % BASE;
    assert un[j..j + vw] == low;
    TopSubtracted(Val(low), Val(u0[..vw]), u0[vw], k, BPow(vw), qhat * Val(vn[..vw]));
  }

  /** un[j..j+vw] += vn; the carry out goes into the top limb. */
  method AddBack(un: array<Word>, j: nat, vw: nat, vn: array<Word>) returns (k: int)
    requires un != vn && j + vw < un.Length && vw <= vn.Length
    modifies un
    ensures forall i :: 0 <= i < un.Length && !(j <= i <= j + vw) ==> un[i] == old(un[i])
    ensures 0 <= k <= 1 && un[j + vw] == Wrap32(old(un[j + vw]) + k)
    ensures Val(un[j..j + vw]) + k * BPow(vw) == Val(old(un[j..j + vw])) + Val(vn[..vw])
  {
    hide Val, BPow;
    ghost var u0: seq<int>, v: seq<int> := un[j..j + vw], vn[..vw];
    k := 0;
    var i := 0;
    ValEmpty(un[j..j]);
    ValEmpty(u0[..0]);
    ValEmpty(v[..0]);
    while i < vw
      invariant 0 <= i <= vw && 0 <= k <= 1
      invariant forall m :: 0 <= m < un.Length && !(j <= m < j + i) ==> un[m] == old(un[m])
      invariant Val(un[j..j + i]) + k * BPow(i) == Val(u0[..i]) + Val(v[..i])
    {
      ghost var low, k0 := un[j..j + i], k;
      var t := Signed64(Wrap64(un[i + j] + vn[i] + k));
      un[i + j] := t % BASE;
      k := t / BASE;
      assert un[j..j + i + 1] == low + [un[i + j]];
      SubtractStep(u0, v, -1, low, un[i + j], -k0, -k);
      i := i + 1;
    }
    assert u0[..vw] == u0 && v[..vw] == v;
    un[j + vw] := Wrap32(un[j + vw] + k);
  }

  // ----- one digit of the quotient

  /** The capped quotient of the top limbs is the true digit or one more. */
  lemma TrialDigitBound(u: seq<Word>, v: seq<Word>, qhat: int)
    requires |v| >= 2 && |u| == |v| + 1 && v[|v| - 1] > 0
    requires Val(u) < BASE * Val(v)
    requires var q := TopQuotient(u[|v|], u[|v| - 1], u[|v| - 2], v[|v| - 1], v[|v| - 2]);
             qhat == if q < BASE then q else BASE - 1
    ensures 0 <= Val(u) && 0 < Val(v)
    ensures Val(u) / Val(v) <= qhat <= Val(u) / Val(v) + 1
    ensures (qhat - 1) * Val(v) <= Val(u) < (qhat + 1) * Val(v)
  {
    hide Val, BPow;
    var n := |v| - 2;
    var w, uTop, vTop := BPow(n), Val(u[n..]), Val(v[n..]);
    ValOfThree(u[n..]);
    ValOfTwo(v[n..]);
    ValTop(u, n);
    ValTop(v, n);
    ValBounds(u);
    MulLe(1, vTop, w);
    BPowNext(n);
    MulAssoc(BASE, 1, w);
    assert BASE * w <= Val(v) by {
      MulLe(BASE, vTop, w);
    }
    DigitFromTop(Val(u), Val(v), uTop, vTop, w, qhat);
  }

  lemma DigitFromTop(u: int, v: int, uTop: int, vTop: int, w: int, qhat: int)
    requires 0 < w && 0 < v && 0 <= u < BASE * v && 0 <= uTop && 0 < vTop && BASE * w <= v
    requires uTop * w <= u < (uTop + 1) * w
    requires vTop * w <= v < (vTop + 1) * w
    requires var q := uTop / vTop; qhat == if q < BASE then q else BASE - 1
    ensures u / v <= qhat <= u / v + 1
    ensures (qhat - 1) * v <= u < (qhat + 1) * v
  {
    var d := u / v;
    DivModDef(u, v);
    DivModDef(uTop, vTop);
    assert d <= qhat by {
      DigitNotAbove(u, v, uTop, vTop, w);
      MulLtCancel(d, BASE, v);
    }
    assert (qhat - 1) * v < u + 1 by {
      DigitNotBelow(u, v, uTop, vTop, w, qhat);
    }
    MulDistrib(d, 1, v);
    MulLe(d + 1, qhat + 1, v);
    MulLtCancel(qhat - 1, d + 1, v);
  }

  lemma DigitNotAbove(u: int, v: int, uTop: int, vTop: int, w: int)
    requires 0 < w && 0 < v && 0 <= u && 0 <= uTop && 0 < vTop
    requires u < (uTop + 1) * w && vTop * w <= v
    ensures u / v <= uTop / vTop
  {
    var d := u / v;
    DivModDef(u, v);
    DivModDef(uTop, vTop);
    MulLe(vTop * w, v, d);
    MulAssoc(d, vTop, w);
    MulLtCancel(d * vTop, uTop + 1, w);
    MulDistrib(uTop / vTop, 1, vTop);
    MulLtCancel(d, uTop / vTop + 1, vTop);
  }

  lemma DigitNotBelow(u: int, v: int, uTop: int, vTop: int, w: int, qhat: int)
    requires 0 < w && 0 <= uTop && 0 < vTop && BASE * w <= v
    requires uTop * w <= u && v < (vTop + 1) * w
    requires 0 <= qhat < BASE && qhat <= uTop / vTop
    ensures (qhat - 1) * v <= u
  {
    DivModDef(uTop, vTop);
    MulLe(qhat, uTop / vTop, vTop);
    MulLe(qhat * vTop, uTop, w);
    MulLe(v, (vTop + 1) * w, qhat);
    MulAssoc(qhat, vTop, w);
    MulDistrib(vTop, 1, w);
    MulDistrib(vTop * w, w, qhat);
    MulLe(qhat, BASE, w);
    MulDistrib(qhat, 1, v);
  }

  /** A value low + t*p between -p and p fixes t once its sign is known. */
  lemma TopLimbZero(low: int, t: int, p: int, d: int)
    requires 0 <= low < p && low + t * p == d && 0 <= d < p
    ensures t == 0 && low == d
  {
    if t >= 1 {
      MulLe(1, t, p);
    } else if t <= -1 {
      MulLe(t, -1, p);
    }
  }

  /** Adding the carry back to a negative top limb leaves zero. */
  lemma TopLimbWraps(t: int, k: int)
    requires -BASE < t < 0 && t + k == 0
    ensures Wrap32(t % BASE + k) == 0
  {
  }

  /** The sign of low + t*p is the sign of t. */
  lemma TopLimbSign(low: int, t: int, p: int)
    requires 0 <= low < p
    ensures low + t * p < 0 <==> t < 0
  {
    if t >= 0 {
      MulLe(0, t, p);
    } else {
      MulLe(t, -1, p);
    }
  }

  /** One pass of the main loop: the partial dividend un[j..j+vw] becomes its
      remainder, the quotient digit is returned. */
  method DivideDigit(un: array<Word>, j: nat, vw: nat, vn: array<Word>) returns (digit: Word)
    requires un != vn && 2 <= vw <= vn.Length && j + vw < un.Length
    requires vn[vw - 1] >= BASE / 2
    requires Val(un[j..j + vw + 1]) < BASE * Val(vn[..vw])
    modifies un
    ensures forall i :: 0 <= i < un.Length && !(j <= i <= j + vw) ==> un[i] == old(un[i])
    ensures un[j + vw] == 0
    ensures Val(old(un[j..j + vw + 1])) == digit * Val(vn[..vw]) + Val(un[j..j + vw])
    ensures 0 <= Val(un[j..j + vw]) < Val(vn[..vw])
  {
    hide Val, BPow, Wrap32, TopQuotient;
    ghost var u, v := un[j..j + vw + 1], vn[..vw];
    TopLimbSmall(u, v);
    var qhat, rounds := TrialDigit(un[j + vw], un[j + vw - 1], un[j + vw - 2], vn[vw - 1], vn[vw - 2]);
    TrialDigitBound(u, v, qhat);
    var t := MultiplySubtract(un, j, vw, vn, qhat);
    digit := qhat;
    ValBounds(v);
    ValBounds(un[j..j + vw]);
    TopLimbSign(Val(un[j..j + vw]), t, BPow(vw));
    ghost var low := Val(un[j..j + vw]);
    if t < 0 {
      QhatPositive(qhat, Val(u), Val(v));
      digit := digit - 1;
      MulDistrib(qhat, 1, Val(v));
      var k := AddBack(un, j, vw, vn);
      ValBounds(un[j..j + vw]);
      MulDistrib(t, k, BPow(vw));
      TopLimbZero(Val(un[j..j + vw]), t + k, BPow(vw), Val(u) - digit * Val(v));
      TopLimbWraps(t, k);
    } else {
      MulDistrib(qhat, 1, Val(v));
      TopLimbZero(low, t, BPow(vw), Val(u) - digit * Val(v));
    }
  }

  lemma QhatPositive(qhat: int, u: int, v: int)
    requires 0 <= qhat && 0 <= u && u - qhat * v < 0
    ensures qhat >= 1
  {
  }

  lemma TopLimbSmall(u: seq<Word>, v: seq<Word>)
    requires |v| >= 2 && |u| == |v| + 1
    requires Val(u) < BASE * Val(v)
    ensures u[|v|] <= v[|v| - 1]
  {
    hide Val, BPow;
    var n := |v|;
    ValTop(u, n);
    ValTop(v, n - 1);
    ValNext(u[n..], 0);
    ValNext(v[n - 1..], 0);
    ValEmpty(u[n..][..0]);
    ValEmpty(v[n - 1..][..0]);
    assert u[n..][..1] == u[n..] && v[n - 1..][..1] == v[n - 1..];
    BPowNext(0);
    BPowNext(n - 1);
    var top: int := v[n - 1];
    MulExchange(top + 1, BASE, BPow(n - 1));
    MulLtCancel(u[n], top + 1, BPow(n));
  }

  // ----- all digits

  /** Moving one digit from the partial dividend to the quotient. */
  lemma DigitMoved(n: int, q: int, w: int, v: int, below: int, d: int, r: int)
    requires n == (q * (BASE * w)) * v + (below + w * (d * v + r))
    ensures n == ((d + BASE * q) * w) * v + (below + w * r)
  {
    calc {
      ((d + BASE * q) * w) * v;
      { MulDistrib(d, BASE * q, w); MulAssoc(q, BASE, w); }
      (d * w + q * (BASE * w)) * v;
      { MulDistrib(d * w, q * (BASE * w), v); }
      (d * w) * v + (q * (BASE * w)) * v;
    }
    MulDistrib(d * v, r, w);
    MulAssoc(d, w, v);
    MulExchange(d, w, v);
  }

  method DivideAllDigits(owp: array<Word>, un: array<Word>, uw: nat, vn: array<Word>, vw: nat)
    requires un != vn && owp != un && owp != vn
    requires 2 <= vw <= uw < un.Length && vw <= vn.Length && uw <= owp.Length
    requires vn[vw - 1] >= BASE / 2
    requires Val(un[uw - vw + 1..uw + 1]) < Val(vn[..vw])
    modifies owp, un
    ensures forall i :: uw - vw < i < owp.Length ==> owp[i] == old(owp[i])
    ensures forall i :: uw < i < un.Length ==> un[i] == old(un[i])
    ensures Val(old(un[..uw + 1])) == Val(owp[..uw - vw + 1]) * Val(vn[..vw]) + Val(un[..vw])
    ensures 0 <= Val(un[..vw]) < Val(vn[..vw])
    ensures un[vw] == 0
  {
    hide Val, BPow;
    ghost var v, total, m := Val(vn[..vw]), Val(un[..uw + 1]), uw - vw + 1;
    var j := uw - vw;
    ValEmpty(owp[m..m]);
    ValBounds(un[m..uw + 1]);
    while j >= 0
      invariant -1 <= j < m
      invariant forall i :: m <= i < owp.Length ==> owp[i] == old(owp[i])
      invariant forall i :: uw < i < un.Length ==> un[i] == old(un[i])
      invariant Val(vn[..vw]) == v
      invariant total == (Val(owp[j + 1..m]) * BPow(j + 1)) * v + Val(un[..j + 1 + vw])
      invariant 0 <= Val(un[j + 1..j + 1 + vw]) < v
      invariant j + 1 < m ==> un[j + 1 + vw] == 0
    {
      ghost var u := un[..];
      PartialDividend(u, j, vw, v);
      owp[j] := DivideDigit(un, j, vw, vn);
      assert un[..j] == u[..j];
      PartialDividend(un[..], j, vw, BASE * v);
      assert owp[j..m][1..] == owp[j + 1..m];
      ValPrepend(owp[j..m]);
      BPowNext(j);
      DigitMoved(total, Val(owp[j + 1..m]), BPow(j), v, Val(u[..j]), owp[j], Val(un[j..j + vw]));
      j := j - 1;
    }
    BPowNext(0);
    assert owp[0..m] == owp[..m] && un[0..vw] == un[..vw];
  }

  /** The partial dividend at j, from the remainder above it and the limbs below. */
  lemma PartialDividend(u: seq<Word>, j: nat, vw: nat, v: int)
    requires j + vw < |u| && vw >= 1
    ensures Val(u[..j + 1 + vw]) == Val(u[..j]) + BPow(j) * Val(u[j..j + vw + 1])
    ensures Val(u[..j + vw]) == Val(u[..j]) + BPow(j) * Val(u[j..j + vw])
    ensures Val(u[j + 1..j + 1 + vw]) < v ==> Val(u[j..j + vw + 1]) < BASE * v
  {
    hide Val, BPow;
    ValSplit(u[..j + 1 + vw], j);
    assert u[..j + 1 + vw][..j] == u[..j] && u[..j + 1 + vw][j..] == u[j..j + vw + 1];
    ValSplit(u[..j + vw], j);
    assert u[..j + vw][..j] == u[..j] && u[..j + vw][j..] == u[j..j + vw];
    ValPrepend(u[j..j + vw + 1]);
    assert u[j..j + vw + 1][1..] == u[j + 1..j + 1 + vw];
  }

  /** Division by a single limb: schoolbook, one limb at a time from the top. */
  method DivideByLimb(owp: array<Word>, lwp: seq<Word>, uw: nat, d: Word) returns (k: int)
    requires d > 0 && uw <= |lwp| && uw <= owp.Length
    modifies owp
    ensures forall i :: uw <= i < owp.Length ==> owp[i] == old(owp[i])
    ensures Val(lwp[..uw]) == Val(owp[..uw]) * d + k
    ensures 0 <= k < d
  {
    hide Val, BPow;
    k := 0;
    var j := uw;
    ValEmpty(lwp[uw..uw]);
    ValEmpty(owp[uw..uw]);
    while j > 0
      invariant 0 <= j <= uw
      invariant forall i :: uw <= i < owp.Length ==> owp[i] == old(owp[i])
      invariant Val(lwp[j..uw]) == Val(owp[j..uw]) * d + k
      invariant 0 <= k < d
    {
      ghost var q, k0 := Val(owp[j..uw]), k;
      j := j - 1;
      var unw64 := Wrap64(Wrap64(k * BASE) + lwp[j]);
      DivModDef(unw64, d);
      MulLtCancel(unw64 / d, BASE, d);
      owp[j] := unw64 / d;
      k := Wrap64(unw64 - Wrap64(owp[j] * d));
      ProductOfLimbs(owp[j], d);
      ValPrepend(lwp[j..uw]);
      ValPrepend(owp[j..uw]);
      assert lwp[j..uw][1..] == lwp[j + 1..uw] && owp[j..uw][1..] == owp[j + 1..uw];
      MulDistrib(owp[j], BASE * q, d);
      MulAssoc(BASE, q, d);
    }
    assert lwp[0..uw] == lwp[..uw] && owp[0..uw] == owp[..uw];
  }

  // ----- undoing the normalisation

  function UnshiftedLimb(x: Word, above: Word, s: nat): (r: Word)
    requires s <= 31
    ensures r * Pow2(s) == x - x % Pow2(s) + (above % Pow2(s)) * BASE
  {
    if s == 0 then
      OrZero(x);
      Or(Shr(x, 0), 0)
    else
      ShrOr(x, above, s);
      UnshiftArithmetic(x, above % Pow2(s), s);
      Or(Shr(x, s), Shl(above, 32 - s))
  }

  lemma UnshiftArithmetic(x: Word, a: int, s: nat)
    requires 1 <= s <= 31
    ensures (Shr(x, s) + a * Pow2(32 - s)) * Pow2(s) == x - x % Pow2(s) + a * BASE
  {
    hide Pow2;
    var p, c := Pow2(s), Pow2(32 - s);
    Pow2Add(s, 32 - s);
    Pow2At32();
    DivModDef(x, p);
    MulDistrib(x / p, a * c, p);
    MulAssoc(a, c, p);
  }

  method Denormalize(owp: array<Word>, un: array<Word>, vw: nat, s: nat)
    requires owp != un && vw <= owp.Length && vw < un.Length && s <= 31
    modifies owp
    ensures forall i :: vw <= i < owp.Length ==> owp[i] == old(owp[i])
    ensures Val(owp[..vw]) * Pow2(s)
         == Val(un[..vw]) - un[0] % Pow2(s) + (un[vw] % Pow2(s)) * BPow(vw)
  {
    hide Val, BPow, Pow2, UnshiftedLimb;
    var i := 0;
    while i < vw
      invariant 0 <= i <= vw
      invariant forall k :: vw <= k < owp.Length ==> owp[k] == old(owp[k])
      invariant forall k :: 0 <= k < i ==> owp[k] == UnshiftedLimb(un[k], un[k + 1], s)
    {
      owp[i] := UnshiftedLimb(un[i], un[i + 1], s);
      i := i + 1;
    }
    UnshiftedValue(un[..], owp[..], vw, s);
    assert un[..][..vw] == un[..vw] && owp[..][..vw] == owp[..vw];
  }

  lemma {:induction false} UnshiftedValue(u: seq<Word>, o: seq<Word>, n: nat, s: nat)
    requires n < |u| && n <= |o| && s <= 31
    requires forall k :: 0 <= k < n ==> o[k] == UnshiftedLimb(u[k], u[k + 1], s)
    ensures Val(o[..n]) * Pow2(s) == Val(u[..n]) - u[0] % Pow2(s) + (u[n] % Pow2(s)) * BPow(n)
  {
    hide Val, BPow, Pow2;
    var p := Pow2(s);
    if n == 0 {
      ValEmpty(o[..0]);
      ValEmpty(u[..0]);
      BPowNext(0);
    } else {
      var w := BPow(n - 1);
      UnshiftedValue(u, o, n - 1, s);
      ValNext(o, n - 1);
      ValNext(u, n - 1);
      BPowNext(n - 1);
      UnshiftStep(Val(o[..n - 1]), o[n - 1], w, p, u[n - 1], u[n] % p);
    }
  }

  lemma UnshiftStep(low: int, limb: int, w: int, p: int, x: int, a: int)
    requires p > 0 && limb * p == x - x % p + a * BASE
    ensures (low + limb * w) * p == low * p + x * w - (x % p) * w + a * (BASE * w)
  {
    MulDistrib(low, limb * w, p);
    MulAssoc(limb, w, p);
    MulAssoc(limb, p, w);
    MulDistrib(x - x % p, a * BASE, w);
    MulDistrib(x, x % p, w);
    MulAssoc(a, BASE, w);
  }

  // ----- the whole operation

  /** What the copy-out of the remainder takes from un[words], a cell of the work
      buffer that is never written when the dividend has fewer limbs than the
      divisor and the divisor fills all words. */
  ghost function StaleShare(l: seq<Word>, r: seq<Word>, stale: Word): int
    requires |l| == |r|
  {
    var vw := LimbCount(r);
    if 0 < LimbCount(l) < vw && vw == |r| then
      var s := NormalShift(r[vw - 1]);
      (stale % Pow2(s)) * (Pow2(32 - s) * BPow(vw - 1))
    else 0
  }

  /** owp := lwp / rwp, or lwp % rwp; zero when the divisor is zero. un and vn are the
      function's uninitialised work buffers. */
  method ModDiv(owp: array<Word>, lwp: seq<Word>, rwp: seq<Word>, isModulus: bool,
                un: array<Word>, vn: array<Word>)
    requires owp.Length == |lwp| == |rwp| < un.Length
    requires |rwp| < vn.Length
    requires owp != un && owp != vn && un != vn
    modifies owp, un, vn
    ensures Val(rwp) == 0 ==> Val(owp[..]) == 0
    ensures Val(rwp) != 0 ==> IsResult(owp[..], lwp, rwp, isModulus, old(un[|rwp|]))
  {
    hide Val, BPow, Pow2;
    var words := |lwp|;
    ghost var stale := un[words];
    for i := 0 to words
      invariant forall k :: 0 <= k < i ==> owp[k] == 0
      invariant un[words] == stale
    {
      owp[i] := 0;
    }
    ValZeros(owp[..]);
    LimbCountBounds(lwp);
    LimbCountBounds(rwp);
    var umsbp1 := MostSetBitPlus1(lwp);
    var vmsbp1 := MostSetBitPlus1(rwp);
    if vmsbp1 == 0 || umsbp1 == 0 {
      if vmsbp1 != 0 {
        ValBounds(rwp);
        DivModUnique(0, Val(rwp), 0, 0);
      }
      return;
    }
    var uw := (umsbp1 + 31) / 32;
    var vw := (vmsbp1 + 31) / 32;
    if vw == 1 {
      ModDivByLimb(owp, lwp, rwp, isModulus, uw);
    } else {
      var s := 31 - (vmsbp1 - 1) % 32;
      assert s == NormalShift(rwp[vw - 1]);
      ModDivByLimbs(owp, lwp, rwp, isModulus, un, vn, uw, vw, s);
    }
  }

  method ModDivByLimb(owp: array<Word>, lwp: seq<Word>, rwp: seq<Word>, isModulus: bool, uw: nat)
    requires owp.Length == |lwp| == |rwp|
    requires 0 < uw == LimbCount(lwp) && LimbCount(rwp) == 1
    requires forall k :: 0 <= k < owp.Length ==> owp[k] == 0
    modifies owp
    ensures Val(rwp) > 0
    ensures Val(owp[..]) == if isModulus then Val(lwp) % Val(rwp) else Val(lwp) / Val(rwp)
  {
    hide Val, BPow, Pow2;
    LimbCountBounds(lwp);
    LimbCountBounds(rwp);
    ValNext(rwp, 0);
    ValEmpty(rwp[..0]);
    BPowNext(0);
    var k := DivideByLimb(owp, lwp, uw, rwp[0]);
    ValDropZeros(owp[..], uw);
    assert owp[..][..uw] == owp[..uw];
    DivModUnique(Val(lwp), Val(rwp), Val(owp[..uw]), k);
    if isModulus {
      owp[0] := k;
      for i := 1 to owp.Length
        invariant owp[0] == k
        invariant forall m :: 1 <= m < i ==> owp[m] == 0
      {
        owp[i] := 0;
      }
      ValDropZeros(owp[..], 1);
      ValNext(owp[..], 0);
      ValEmpty(owp[..][..0]);
    }
  }

  /** Scaling dividend and divisor by p scales the remainder and keeps the quotient. */
  lemma QuotientOfScaled(u: int, v: int, p: int, q: int, rest: int)
    requires 0 < p && 0 < v
    requires u * p == q * (v * p) + rest && 0 <= rest < v * p
    ensures u / v == q && rest == (u % v) * p
  {
    var r := u - q * v;
    MulAssoc(q, v, p);
    MulDistrib(u, q * v, p);
    MulLtCancel(-1, r, p);
    MulLtCancel(r, v, p);
    DivModUnique(u, v, q, r);
  }

  lemma DivisorNormal(r: seq<Word>, d: seq<Word>, vw: nat, s: nat)
    requires 2 <= vw == LimbCount(r) && |d| == vw && s == NormalShift(r[vw - 1])
    requires Val(d) + Carry(r[vw - 1], s) * BPow(vw) == Val(r[..vw]) * Pow2(s)
    ensures Val(d) == Val(r) * Pow2(s)
    ensures d[vw - 1] >= BASE / 2
  {
    hide Val, BPow, Pow2, LimbCount, NormalShift, Carry;
    var top, p, w := r[vw - 1], Pow2(s), BPow(vw - 1);
    NormalTop(top);
    LimbCountBounds(r);
    ValTop(r[..vw], vw - 1);
    ValOfOne(r[..vw][vw - 1..]);
    assert Carry(top, s) * BPow(vw) == 0;
    ValTop(d, vw - 1);
    ValOfOne(d[vw - 1..]);
    ScaledTop(top, w, Val(r), p, d[vw - 1]);
  }

  lemma ScaledTop(top: int, w: int, v: int, p: int, scaledTop: int)
    requires 0 < w && 0 < p && top * w <= v && v * p < (scaledTop + 1) * w
    requires BASE / 2 <= top * p
    ensures scaledTop >= BASE / 2
  {
    MulLe(top * w, v, p);
    MulAssoc(top, w, p);
    MulAssoc(top, p, w);
    MulLe(BASE / 2, top * p, w);
    MulLtCancel(BASE / 2, scaledTop + 1, w);
  }

  lemma ValOfOne(s: seq<int>)
    requires |s| == 1
    ensures Val(s) == s[0]
  {
    assert s[..0] == [];
    assert BPow(0) == 1;
  }

  lemma NormalTop(top: Word)
    requires top > 0
    ensures Carry(top, NormalShift(top)) == 0
    ensures BASE / 2 <= top * Pow2(NormalShift(top)) < BASE
  {
    hide Pow2, BitLength, Shl;
    var s, n := NormalShift(top), BitLength(top);
    BitLengthWord(top);
    BitLengthBounds(top);
    Pow2At32();
    Pow2Add(n, s);
    Pow2Add(n - 1, s);
    MulLe(Pow2(n - 1), top, Pow2(s));
    MulLe(top + 1, Pow2(n), Pow2(s));
    MulDistrib(top, 1, Pow2(s));
    CarrySplit(top, s);
  }

  /** Normalising both operands by the same shift. */
  method NormalizeBoth(lwp: seq<Word>, rwp: seq<Word>, un: array<Word>, vn: array<Word>, uw: nat, vw: nat, s: nat)
    requires |lwp| == |rwp| < un.Length && |rwp| < vn.Length && un != vn
    requires 0 < uw == LimbCount(lwp) && 2 <= vw == LimbCount(rwp) && s == NormalShift(rwp[vw - 1])
    modifies un, vn
    ensures Val(vn[..vw]) == Val(rwp) * Pow2(s) && vn[vw - 1] >= BASE / 2
    ensures Val(un[..uw + 1]) == Val(lwp) * Pow2(s) && un[uw] < Pow2(s)
    ensures forall i :: uw < i < |lwp| ==> un[i] == 0
    ensures uw < |lwp| ==> un[|lwp|] == old(un[|lwp|])
  {
    hide Val, BPow, Pow2;
    var words := |lwp|;
    for i := 0 to words
      invariant forall k :: 0 <= k < i ==> un[k] == 0 && vn[k] == 0
      invariant un[words] == old(un[words])
    {
      un[i] := 0;
      vn[i] := 0;
    }
    Normalize(rwp, vw, s, vn);
    DivisorNormal(rwp, vn[..vw], vw, s);
    un[uw] := Carry(lwp[uw - 1], s);
    CarrySplit(lwp[uw - 1], s);
    Normalize(lwp, uw, s, un);
    LimbCountBounds(lwp);
    ValNext(un[..uw + 1], uw);
    assert un[..uw + 1][..uw] == un[..uw] && un[..uw + 1][..uw + 1] == un[..uw + 1];
  }

  lemma TopBelowDivisor(u: seq<Word>, v: seq<Word>, uw: nat, s: nat)
    requires 2 <= |v| <= uw && |u| == uw + 1 && s <= 31
    requires u[uw] < Pow2(s) && v[|v| - 1] >= BASE / 2
    ensures Val(u[uw - |v| + 1..]) < Val(v)
  {
    hide Val, BPow, Pow2;
    var vw := |v|;
    var t := u[uw - vw + 1..];
    ValTop(t, vw - 1);
    ValOfOne(t[vw - 1..]);
    ValTop(v, vw - 1);
    ValOfOne(v[vw - 1..]);
    Pow2At32();
    Pow2Monotone(s, 31);
    var uTop: int := u[uw];
    MulLe(uTop + 1, v[vw - 1], BPow(vw - 1));
  }

  lemma ShortDividend(u: seq<Word>, l: seq<Word>, r: seq<Word>, p: int)
    requires 0 < LimbCount(l) < LimbCount(r) == |u| && p > 0
    requires Val(u[..LimbCount(l) + 1]) == Val(l) * p
    requires forall i :: LimbCount(l) < i < |u| ==> u[i] == 0
    ensures Val(u) == Val(l) * p < Val(r) * p
  {
    hide Val, BPow, LimbCount;
    ValDropZeros(u, LimbCount(l) + 1);
    ShorterIsSmaller(l, r);
    MulLe(Val(l) + 1, Val(r), p);
    MulDistrib(Val(l), 1, p);
  }

  /** Fewer limbs, smaller number. */
  lemma ShorterIsSmaller(l: seq<Word>, r: seq<Word>)
    requires LimbCount(l) < LimbCount(r)
    ensures Val(l) < BPow(LimbCount(r) - 1) <= Val(r)
  {
    hide Val, BPow, LimbCount;
    var uw, vw := LimbCount(l), LimbCount(r);
    LimbCountBounds(l);
    LimbCountBounds(r);
    BPowAdd(uw, vw - 1 - uw);
    MulLe(1, BPow(vw - 1 - uw), BPow(uw));
  }

  method ModDivByLimbs(owp: array<Word>, lwp: seq<Word>, rwp: seq<Word>, isModulus: bool,
                       un: array<Word>, vn: array<Word>, uw: nat, vw: nat, s: nat)
    requires owp.Length == |lwp| == |rwp| < un.Length && |rwp| < vn.Length
    requires owp != un && owp != vn && un != vn
    requires 0 < uw == LimbCount(lwp) && 2 <= vw == LimbCount(rwp) && s == NormalShift(rwp[vw - 1])
    requires forall k :: 0 <= k < owp.Length ==> owp[k] == 0
    modifies owp, un, vn
    ensures Val(rwp) > 0
    ensures Val(owp[..]) == if isModulus then Val(lwp) % Val(rwp) + StaleShare(lwp, rwp, old(un[|rwp|]))
                            else Val(lwp) / Val(rwp)
  {
    hide Val, BPow, Pow2;
    ghost var stale := un[|rwp|];
    LimbCountBounds(rwp);
    NormalizeBoth(lwp, rwp, un, vn, uw, vw, s);
    DivideNormalized(owp, lwp, rwp, un, vn, uw, vw, s);
    if isModulus {
      ghost var rest, above := un[..vw], un[vw];
      Denormalize(owp, un, vw, s);
      assert un[..vw] == rest;
      ghost var low := owp[..vw];
      for i := vw to owp.Length
        invariant forall k :: vw <= k < i ==> owp[k] == 0
        invariant owp[..vw] == low
      {
        owp[i] := 0;
      }
      ValDropZeros(owp[..], vw);
      assert owp[..][..vw] == low;
      RemainderOut(Val(owp[..]), rest, Val(lwp) % Val(rwp), above, s);
      StaleShareIs(lwp, rwp, stale, above, s);
    }
  }

  lemma StaleShareIs(l: seq<Word>, r: seq<Word>, stale: Word, above: Word, s: nat)
    requires |l| == |r| && 0 < LimbCount(l) && 0 < LimbCount(r) && s == NormalShift(r[LimbCount(r) - 1])
    requires above == if LimbCount(l) < LimbCount(r) == |r| then stale else 0
    ensures (above % Pow2(s)) * (Pow2(32 - s) * BPow(LimbCount(r) - 1)) == StaleShare(l, r, stale)
  {
    hide BPow, Pow2;
    if above == 0 {
      DivModUnique(0, Pow2(s), 0, 0);
    }
  }

  /** The main loop, or nothing at all when the dividend has fewer limbs. */
  method DivideNormalized(owp: array<Word>, lwp: seq<Word>, rwp: seq<Word>,
                          un: array<Word>, vn: array<Word>, uw: nat, vw: nat, s: nat)
    requires owp.Length == |lwp| == |rwp| < un.Length && |rwp| < vn.Length
    requires owp != un && owp != vn && un != vn
    requires 0 < uw == LimbCount(lwp) && 2 <= vw == LimbCount(rwp) && s <= 31
    requires forall k :: 0 <= k < owp.Length ==> owp[k] == 0
    requires Val(vn[..vw]) == Val(rwp) * Pow2(s) && vn[vw - 1] >= BASE / 2
    requires Val(un[..uw + 1]) == Val(lwp) * Pow2(s) && un[uw] < Pow2(s)
    requires forall i :: uw < i < |lwp| ==> un[i] == 0
    modifies owp, un
    ensures Val(rwp) > 0
    ensures Val(owp[..]) == Val(lwp) / Val(rwp)
    ensures Val(un[..vw]) == (Val(lwp) % Val(rwp)) * Pow2(s)
    ensures un[vw] == if uw < vw == |rwp| then old(un[vw]) else 0
  {
    hide Val, BPow, Pow2;
    ghost var u, v, p := Val(lwp), Val(rwp), Pow2(s);
    LimbCountBounds(rwp);
    ghost var q := 0;
    if uw >= vw {
      TopBelowDivisor(un[..uw + 1], vn[..vw], uw, s);
      assert un[..uw + 1][uw - vw + 1..] == un[uw - vw + 1..uw + 1];
      DivideAllDigits(owp, un, uw, vn, vw);
      q := Val(owp[..uw - vw + 1]);
      ValDropZeros(owp[..], uw - vw + 1);
      assert owp[..][..uw - vw + 1] == owp[..uw - vw + 1];
    } else {
      assert un[..vw][..uw + 1] == un[..uw + 1];
      ShortDividend(un[..vw], lwp, rwp, p);
      ValZeros(owp[..]);
      ValBounds(un[..vw]);
    }
    QuotientOfScaled(u, v, p, q, Val(un[..vw]));
  }

  /** The limbs copied out stand for the remainder, plus the low bits of the cell above. */
  lemma RemainderOut(o: int, u: seq<Word>, r: int, above: Word, s: nat)
    requires s <= 31 && |u| >= 1
    requires Val(u) == r * Pow2(s)
    requires o * Pow2(s) == Val(u) - u[0] % Pow2(s) + (above % Pow2(s)) * BPow(|u|)
    ensures o == r + (above % Pow2(s)) * (Pow2(32 - s) * BPow(|u| - 1))
  {
    hide Val, BPow, Pow2;
    var p, c, w, a := Pow2(s), Pow2(32 - s), BPow(|u| - 1), above % Pow2(s);
    Pow2Add(s, 32 - s);
    Pow2At32();
    ValPrepend(u);
    MulAssoc(c, p, Val(u[1..]));
    MulExchange(c, p, Val(u[1..]));
    var rest := c * Val(u[1..]);
    assert BASE * Val(u[1..]) == rest * p by {
      MulExchange(p, c, Val(u[1..]));
    }
    MulDistrib(r, rest, p);
    DivModUnique(u[0], p, r - rest, 0);
    BPowNext(|u| - 1);
    MulAssoc(c, p, w);
    MulExchange(a, p, c * w);
    MulAssoc(p, c, w);
    MulDistrib(r, a * (c * w), p);
    SameMultiple(o, r + a * (c * w), p);
  }

  lemma SameMultiple(x: int, y: int, p: int)
    requires p > 0 && x * p == y * p
    ensures x == y
  {
    MulLeCancel(x, y, p);
    MulLeCancel(y, x, p);
  }

  // ----- what the results mean

  /** The limbs a call leaves in owp, by what they stand for. */
  ghost predicate IsResult(o: seq<Word>, l: seq<Word>, r: seq<Word>, isModulus: bool, stale: Word)
    requires |o| == |l| == |r| && Val(r) != 0
  {
    Val(o) == if isModulus then Val(l) % Val(r) + StaleShare(l, r, stale) else Val(l) / Val(r)
  }

  /** The guard under which the copy-out reads the unwritten cell: the dividend leaves
      the top word empty, the divisor uses it without filling its top bit. */
  predicate ReadsUnwrittenCell(l: seq<Word>, r: seq<Word>)
    requires |l| == |r|
  {
    |l| >= 2 && l[|l| - 1] == 0 && (exists i :: 0 <= i < |l| && l[i] != 0)
    && 0 < r[|r| - 1] < BASE / 2
  }

  /** Quotient and remainder put the dividend together again, with the remainder below
      the divisor, exactly when the call stays clear of the unwritten cell. */
  lemma DivisionIsExact(l: seq<Word>, r: seq<Word>)
    requires |l| == |r| && Val(r) != 0
    ensures (forall q: seq<Word>, m: seq<Word>, stale: Word ::
               |q| == |m| == |l| && IsResult(q, l, r, false, stale) && IsResult(m, l, r, true, stale) ==>
               Val(l) == Val(q) * Val(r) + Val(m) && 0 <= Val(m) < Val(r))
            <==> !ReadsUnwrittenCell(l, r)
  {
    hide Val, BPow, Pow2;
    ValBounds(r);
    ValBounds(l);
    DivModDef(Val(l), Val(r));
    if ReadsUnwrittenCell(l, r) {
      var q, m := StaleCounterexample(l, r);
    } else {
      forall stale: Word
        ensures StaleShare(l, r, stale) == 0
      {
        NoStaleShare(l, r, stale);
      }
    }
  }

  lemma NoStaleShare(l: seq<Word>, r: seq<Word>, stale: Word)
    requires |l| == |r| && !ReadsUnwrittenCell(l, r)
    ensures StaleShare(l, r, stale) == 0
  {
    hide BPow;
    var vw := LimbCount(r);
    if 0 < LimbCount(l) < vw == |r| {
      assert l[LimbCount(l) - 1] != 0;
      var s := NormalShift(r[vw - 1]);
      BitLengthBounds(r[vw - 1]);
      Pow2At32();
      if s > 0 {
        Pow2Monotone(BitLength(r[vw - 1]), 31);
      }
      assert stale % Pow2(0) == 0;
    }
  }

  /** With all bits set in the unwritten cell the modulus is not the remainder. */
  lemma StaleCounterexample(l: seq<Word>, r: seq<Word>) returns (q: seq<Word>, m: seq<Word>)
    requires |l| == |r| && Val(r) != 0 && ReadsUnwrittenCell(l, r)
    ensures |q| == |m| == |l|
    ensures IsResult(q, l, r, false, BASE - 1) && IsResult(m, l, r, true, BASE - 1)
    ensures Val(l) != Val(q) * Val(r) + Val(m)
  {
    hide Val, BPow, Pow2;
    var n := |r|;
    var u, v, share := Val(l), Val(r), StaleShare(l, r, BASE - 1);
    var w := BPow(n - 1);
    assert LimbCount(r) == n && 0 < LimbCount(l) < n;
    ShorterIsSmaller(l, r);
    ValBounds(l);
    assert 0 <= u < w <= v;
    DivModUnique(u, v, 0, u);
    AllOnesShare(l, r);
    BPowNext(n - 1);
    BPowNext(0);
    MulLe(1, BASE, w);
    q, m := Limbs(0, n), Limbs(u + share, n);
    ValOfLimbs(0, n);
    ValOfLimbs(u + share, n);
  }

  lemma AllOnesShare(l: seq<Word>, r: seq<Word>)
    requires |l| == |r| && ReadsUnwrittenCell(l, r)
    ensures 0 < StaleShare(l, r, BASE - 1) <= (BASE - 1) * BPow(|r| - 1)
  {
    hide BPow, Pow2;
    var s := NormalShift(r[|r| - 1]);
    ShiftPositive(r[|r| - 1]);
    Pow2At32();
    Pow2Add(s, 32 - s);
    LowBitsOfAllOnes(Pow2(s), Pow2(32 - s), BPow(|r| - 1));
  }

  lemma ShiftPositive(top: Word)
    requires 0 < top < BASE / 2
    ensures NormalShift(top) >= 1 && Pow2(NormalShift(top)) >= 2
  {
    hide Pow2;
    BitLengthBounds(top);
    BitLengthWord(top);
    Pow2At32();
    assert Pow2(1) == 2 by { Pow2Small(); }
    Pow2Monotone(1, NormalShift(top));
  }

  lemma Pow2Small()
    ensures Pow2(1) == 2
  {
  }

  lemma LowBitsOfAllOnes(p: int, c: int, w: int)
    requires p >= 2 && c >= 1 && w >= 1 && p * c == BASE
    ensures 0 < ((BASE - 1) % p) * (c * w) <= (BASE - 1) * w
  {
    MulDistrib(c, 1, p);
    DivModUnique(BASE - 1, p, c - 1, p - 1);
    MulDistrib(p, 1, c);
    MulAssoc(p - 1, c, w);
    MulLe((p - 1) * c, BASE - 1, w);
    MulLe(1, p - 1, c);
    MulLe(1, (p - 1) * c, w);
  }
}
