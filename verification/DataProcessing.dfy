/** Generation of data processing instructions (igen/data_processing_instr.h:410-685). */
module DataProcessing {
  import opened Words
  import opened Bits
  import opened Machine
  import opened MachineLaws
  import opened Tracker
  import opened Registers

  /** x >> n and then the top n bits one by one set to the sign bit. */
  function Filled(x: Word, n: nat, k: nat): (r: int)
    requires k <= n < 32
  {
    Shr(x, n) + Bit(x, 31) * (BASE - Pow2(32 - k))
  }

  lemma FilledEnds(x: Word, n: nat)
    requires n < 32
    ensures Filled(x, n, 0) == Shr(x, n)
    ensures Filled(x, n, n) == ShiftArith(x, n)
  {
    hide Pow2, Shr, ShiftArith;
    Pow2At32();
    ShiftArithIs(x, n);
  }

  /** One step of the fill loop. */
  lemma FilledNext(x: Word, n: nat, k: nat)
    requires k < n < 32
    ensures 0 <= Filled(x, n, k) < BASE
    ensures WithBit(Filled(x, n, k), 31 - k, Bit(x, 31)) == Filled(x, n, k + 1)
  {
    hide Pow2, Shr, Bit;
    Pow2At32();
    ShrRange(x, n);
    var low, i, b := Shr(x, n), 31 - k, Bit(x, 31);
    Pow2Step(i);
    Pow2Monotone(32 - n, i);
    Pow2Add(k + 1, i);
    Pow2Step(k);
    Pow2Add(k, i + 1);
    var h := b * (Pow2(k) - 1);
    assert (Pow2(k) - 1) * Pow2(i + 1) == BASE - Pow2(32 - k) by {
      MulDistrib(Pow2(k), 1, Pow2(i + 1));
    }
    MulAssoc(b, Pow2(k) - 1, Pow2(i + 1));
    assert Filled(x, n, k) == h * Pow2(i + 1) + 0 * Pow2(i) + low;
    BitsAround(h, 0, low, i, i);
    assert Bit(Filled(x, n, k), i) == 0;
    assert Pow2(32 - k) == 2 * Pow2(i) && 32 - (k + 1) == i;
    MulDistrib(b, 0, Pow2(i));
    MulDistrib(BASE - Pow2(32 - k), Pow2(i), b);
  }

  /** The generator's arithmetic shift. */
  method ShiftByFill(val: Word, n: nat) returns (res: Word)
    requires n < 32
    ensures res == ShiftArith(val, n)
  {
    hide Filled, ShiftArith, Shr, WithBit, Bit;
    FilledEnds(val, n);
    var r: int := Shr(val, n);
    var k := 0;
    while k < n
      invariant 0 <= k <= n && r == Filled(val, n, k)
    {
      FilledNext(val, n, k);
      r := WithBit(r, 31 - k, Bit(val, 31));
      k := k + 1;
    }
    res := r;
  }

  /** Bit j of x after the first i swaps. */
  function SwappedBit(x: Word, i: nat, j: nat): int
    requires i <= 16 && j < 32
  {
    if j < i || j > 31 - i then Bit(x, 31 - j) else Bit(x, j)
  }

  ghost predicate AfterSwaps(x: Word, i: nat, r: Word) {
    i <= 16 && forall j :: 0 <= j < 32 ==> Bit(r, j) == SwappedBit(x, i, j)
  }

  function Swap(x: Word, i: nat): Word
    requires i < 16
  {
    WithBit(WithBit(x, i, Bit(x, 31 - i)), 31 - i, Bit(x, i))
  }

  lemma SwapNext(x: Word, i: nat, r: Word)
    requires i < 16 && AfterSwaps(x, i, r)
    ensures AfterSwaps(x, i + 1, Swap(r, i))
  {
    hide Bit, WithBit;
    forall j | 0 <= j < 32
      ensures Bit(Swap(r, i), j) == SwappedBit(x, i + 1, j)
    {
      BitOfWithBit(r, i, Bit(r, 31 - i), j);
      BitOfWithBit(WithBit(r, i, Bit(r, 31 - i)), 31 - i, Bit(r, i), j);
      assert Bit(r, j) == SwappedBit(x, i, j) && Bit(r, i) == SwappedBit(x, i, i);
      assert Bit(r, 31 - i) == SwappedBit(x, i, 31 - i);
    }
  }

  /** The generator's bit reversal, by sixteen swaps. */
  method ReverseBySwaps(val: Word) returns (res: Word)
    ensures res == ReverseWord(val)
  {
    hide Bit, WithBit, Reverse, AfterSwaps;
    res := val;
    NoSwaps(val);
    var i := 0;
    while i < 16
      invariant 0 <= i <= 16 && AfterSwaps(val, i, res)
    {
      SwapNext(val, i, res);
      var tmp := Bit(res, i);
      res := WithBit(res, i, Bit(res, 31 - i));
      res := WithBit(res, 31 - i, tmp);
      i := i + 1;
    }
    AllSwapped(val, res);
  }

  lemma NoSwaps(x: Word)
    ensures AfterSwaps(x, 0, x)
  {
  }

  lemma AllSwapped(x: Word, r: Word)
    requires AfterSwaps(x, 16, r)
    ensures r == ReverseWord(x)
  {
    hide Bit, Reverse;
    ReverseBits(x, 32);
    Pow2At32();
    forall j | 0 <= j < 32
      ensures Bit(r, j) == Bit(Reverse(x, 32), j)
    {
      assert Bit(r, j) == SwappedBit(x, 16, j);
    }
    SameBits(r, Reverse(x, 32), 32);
  }

  /** Result of an instruction on known operands. */
  method Evaluate(op: DpOp, a: Word, b: Word) returns (r: Word)
    requires op != FLOATING
    ensures Result(op, a, b, r) && r == Compute(op, a, b, 0)
  {
    ComputeIsResult(op, a, b, 0, Compute(op, a, b, 0));
    hide Result, ShiftArith, ReverseWord, Shr, Shl, AndWord, OrWord, EorWord;
    match op
    case ADD => r := Wrap32(a + b);
    case SUB => r := Wrap32(a - b);
    case ASR => r := ShiftByFill(a, b % 32);
    case LSR => r := Shr(a, b % 32);
    case LSL => r := Shl(a, b % 32);
    case ORR => r := OrWord(a, b);
    case AND => r := AndWord(a, b);
    case EOR => r := EorWord(a, b);
    case BITR => r := ReverseBySwaps(a);
  }

  /** The second operand's value, where it is known. */
  method ReadOperand(rm: RegManager, rhs: Operand) returns (found: bool, val: Word)
    requires rm.Valid()
    ensures found <==> OperandKnown(rm.Facts(), rhs)
    ensures found ==> val == KnownOperand(rm.Facts(), rhs)
  {
    match rhs
    case Reg(r) => found, val := rm.GetReg(r);
    case Imm(v) => found, val := true, Wrap32(v);
  }

  /** Records a result and the flags it leaves. */
  method Record(rm: RegManager, rd: nat, v: Word, arithmetic: bool)
    requires rm.Valid() && rm.Free(rd) && !rm.ac.0 && !rm.av.0 && !rm.avs.0
    modifies rm`rf, rm`modifiedRegs, rm`known, rm`az, rm`an, rm`ac, rm`av
    ensures rm.Valid() && rm.Changed() == old(rm.Changed()) + {rd}
    ensures var zero := if arithmetic then Unknown else Is(false);
            rm.Facts() == Known(old(rm.known)[rd := v], Is(v == 0), Is(Negative(v)), zero, zero, Unknown)
  {
    hide Represents, Negative, RegManager.Changed;
    rm.FreeIsNotFrame(rd);
    rm.SetReg(rd, v);
    rm.az := (true, v == 0);
    rm.an := (true, Negative(v));
    if !arithmetic {
      rm.ac := (true, false);
      rm.av := (true, false);
    }
  }

  /** Generates one data processing instruction: updates the known values, or gives up
      the destination. */
  method Next(rm: RegManager, op: DpOp, rd: nat, rn: nat, rhs: Operand, maxLoopIt: nat)
    requires rm.Valid() && rm.Free(rd) && Fits(Dp(op, rd, rn, rhs), rm.nregs)
    modifies rm`rf, rm`modifiedRegs, rm`known, rm`az, rm`an, rm`ac, rm`av, rm`avs
    ensures rm.Valid() && rm.Facts() == DpKnown(old(rm.Facts()), op, rd, rn, rhs, maxLoopIt != 0)
    ensures rm.Changed() == old(rm.Changed()) + {rd}
  {
    hide Compute, Represents, Negative, RegManager.Valid, RegManager.Changed;
    rm.InvalidateAllFlags();
    if op != FLOATING && (maxLoopIt == 0 || (rd != rn && (rhs.Reg? ==> rd != rhs.r))) {
      var found1, val1 := rm.GetReg(rn);
      var found2, val2 := ReadOperand(rm, rhs);
      if found1 && found2 {
        var v := Evaluate(op, val1, val2);
        Record(rm, rd, v, op == ADD || op == SUB);
        return;
      }
    }
    rm.InvalidateReg(rd);
  }
}
