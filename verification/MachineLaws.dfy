/** What the instructions of Machine mean, said without their definitions: arithmetic as
    sums and differences with their carries, logic and shifts bit by bit, conditions as
    comparisons, loads as what was stored (igen/data_processing_instr.h:418-685,
    igen/reg_move_regular.h:317-440, igen/load_store_instr.h:654-786). */
module MachineLaws {
  import opened Accesses
  import opened Words
  import opened Bits
  import opened Machine

  // ----- bits of logic and shifts

  lemma BitZero(x: nat)
    ensures Bit(x, 0) == x % 2
  {
  }

  /** Bit j of a combination is the combination of the bits. */
  lemma {:induction false} LogicBits(x: nat, y: nat, j: nat)
    ensures Bit(And(x, y), j) == 1 <==> Bit(x, j) == 1 && Bit(y, j) == 1
    ensures Bit(Or(x, y), j) == 1 <==> Bit(x, j) == 1 || Bit(y, j) == 1
    ensures Bit(Eor(x, y), j) == 1 <==> Bit(x, j) != Bit(y, j)
  {
    Halves(x, y);
    hide Bit, And, Or, Eor;
    if j == 0 {
      BitZero(x);
      BitZero(y);
      BitZero(And(x, y));
      BitZero(Or(x, y));
      BitZero(Eor(x, y));
    } else {
      LogicBits(x / 2, y / 2, j - 1);
      BitOfHalf(x, j - 1);
      BitOfHalf(y, j - 1);
      BitOfHalf(And(x, y), j - 1);
      BitOfHalf(Or(x, y), j - 1);
      BitOfHalf(Eor(x, y), j - 1);
    }
  }

  lemma Halves(x: nat, y: nat)
    ensures And(x, y) / 2 == And(x / 2, y / 2) && (And(x, y) % 2 == 1 <==> x % 2 == 1 && y % 2 == 1)
    ensures Or(x, y) / 2 == Or(x / 2, y / 2) && (Or(x, y) % 2 == 1 <==> x % 2 == 1 || y % 2 == 1)
    ensures Eor(x, y) / 2 == Eor(x / 2, y / 2) && (Eor(x, y) % 2 == 1 <==> x % 2 != y % 2)
  {
  }

  /** There are no bits above a word. */
  lemma NoBitAbove(x: nat, n: nat, j: nat)
    requires x < Pow2(n) && n <= j
    ensures Bit(x, j) == 0
  {
    hide Pow2;
    Pow2Monotone(n, j);
    DivModUnique(x, Pow2(j), 0, x);
  }

  /** Bits move down by n. */
  lemma ShrBits(x: Word, n: nat, j: nat)
    requires n < 32
    ensures Bit(Shr(x, n), j) == Bit(x, j + n)
  {
    hide Pow2;
    Pow2Add(n, j);
    DivDiv(x, Pow2(n), Pow2(j));
  }

  /** Bits move up by n, zeros from below. */
  lemma ShlBits(x: Word, n: nat, j: nat)
    requires n < 32 && j < 32
    ensures Bit(Shl(x, n), j) == if j < n then 0 else Bit(x, j - n)
  {
    hide Pow2, Bit;
    var p := Pow2(n);
    Pow2Step(n);
    LowBits(x * p, j);
    BitsAround(x / 2, x % 2, 0, n, j);
    MulDistrib(2 * (x / 2), x % 2, p);
    MulAssoc(x / 2, 2, p);
    if j == n {
      BitZero(x);
    } else if j > n {
      BitOfHalf(x, j - n - 1);
    } else {
      BitOfNothing(j);
    }
  }

  lemma BitOfNothing(j: nat)
    ensures Bit(0, j) == 0
  {
  }

  /** Dropping what does not fit the word keeps its bits. */
  lemma LowBits(x: nat, j: nat)
    requires j < 32
    ensures Bit(x % BASE, j) == Bit(x, j)
  {
    hide Pow2, Bit;
    Pow2At32();
    Pow2Add(j + 1, 31 - j);
    DivModDef(x, BASE);
    var q, c := x / BASE, Pow2(31 - j);
    MulExchange(q, c, Pow2(j + 1));
    MulAssoc(q, c, Pow2(j + 1));
    BitLow(x, x % BASE, q * c, j);
  }

  /** The arithmetic shift is the logical one with ones from above for the sign. */
  lemma ShiftArithIs(x: Word, n: nat)
    requires n < 32
    ensures ShiftArith(x, n) == Shr(x, n) + Bit(x, 31) * (BASE - Pow2(32 - n))
  {
    hide Pow2, Shr;
    Pow2At32();
    SignBit(x);
    var p, c := Pow2(n), Pow2(32 - n);
    Pow2Add(n, 32 - n);
    ShrRange(x, n);
    DivModDef(x, p);
    var q, r := x / p, x % p;
    if x >= BASE / 2 {
      MulDistrib(q, c, p);
      DivModUnique(x - BASE, p, q - c, r);
      MulLe(1, p, c);
    }
  }

  lemma {:induction false} Ones(n: nat, j: nat)
    requires j < n
    ensures Bit(Pow2(n) - 1, j) == 1
  {
    assert Pow2(n) == 2 * Pow2(n - 1);
    if j > 0 {
      hide Bit;
      BitOfHalf(Pow2(n) - 1, j - 1);
      assert (Pow2(n) - 1) / 2 == Pow2(n - 1) - 1;
      Ones(n - 1, j - 1);
    }
  }

  /** Bits above the low m ones. */
  lemma HighBits(h: nat, l: nat, m: nat, j: nat)
    requires l < Pow2(m) && m <= j
    ensures h * Pow2(m) >= 0 && Bit(h * Pow2(m) + l, j) == Bit(h, j - m)
  {
    hide Pow2;
    MulLe(0, h, Pow2(m));
    DivModUnique(h * Pow2(m) + l, Pow2(m), h, l);
    Pow2Add(m, j - m);
    DivDiv(h * Pow2(m) + l, Pow2(m), Pow2(j - m));
  }

  /** Bits move down, copies of the sign from above. */
  lemma AsrBits(x: Word, n: nat, j: nat)
    requires n < 32 && j < 32
    ensures Bit(ShiftArith(x, n), j) == Bit(x, if j + n < 32 then j + n else 31)
  {
    hide Pow2, Bit, Shr, ShiftArith;
    var m := 32 - n;
    Pow2At32();
    SignBit(x);
    ShiftArithIs(x, n);
    ShrBits(x, n, j);
    if x < BASE / 2 {
      if j >= m {
        NoBitAbove(x, 32, j + n);
      }
    } else {
      Pow2Add(n, m);
      ShrRange(x, n);
      var q := Pow2(n) - 1;
      MulDistrib(Pow2(n), 1, Pow2(m));
      if j < m {
        Pow2Add(j + 1, m - j - 1);
        MulExchange(q, Pow2(m - j - 1), Pow2(j + 1));
        MulAssoc(q, Pow2(m - j - 1), Pow2(j + 1));
        BitLow(ShiftArith(x, n), Shr(x, n), q * Pow2(m - j - 1), j);
      } else {
        HighBits(q, Shr(x, n), m, j);
        Ones(n, j - m);
      }
    }
  }

  // ----- data processing

  /** Bit j of the result of logic and shifts. */
  predicate ResultBit(op: DpOp, a: Word, b: Word, r: Word, j: nat)
    requires j < 32
  {
    var n := b % 32;
    match op
    case ASR => Bit(r, j) == Bit(a, if j + n < 32 then j + n else 31)
    case LSR => Bit(r, j) == if j + n < 32 then Bit(a, j + n) else 0
    case LSL => Bit(r, j) == if j < n then 0 else Bit(a, j - n)
    case ORR => Bit(r, j) == 1 <==> Bit(a, j) == 1 || Bit(b, j) == 1
    case AND => Bit(r, j) == 1 <==> Bit(a, j) == 1 && Bit(b, j) == 1
    case EOR => Bit(r, j) == 1 <==> Bit(a, j) != Bit(b, j)
    case BITR => Bit(r, j) == Bit(a, 31 - j)
    case _ => true
  }

  /** Carries fall out of a sum, a difference borrows, logic and shifts go bit by bit. */
  ghost predicate Result(op: DpOp, a: Word, b: Word, r: Word) {
    match op
    case ADD => r == a + b || r == a + b - BASE
    case SUB => r + b == a || r + b == a + BASE
    case FLOATING => true
    case _ => forall j :: 0 <= j < 32 ==> ResultBit(op, a, b, r, j)
  }

  /** The machine's result is the one word that is a result of the operation. */
  lemma ComputeIsResult(op: DpOp, a: Word, b: Word, v: Word, r: Word)
    requires op != FLOATING
    ensures Result(op, a, b, r) <==> r == Compute(op, a, b, v)
  {
    hide Result, Compute;
    ComputeResult(op, a, b, v);
    if Result(op, a, b, r) {
      OneResult(op, a, b, r, Compute(op, a, b, v));
    }
  }

  lemma ComputeResult(op: DpOp, a: Word, b: Word, v: Word)
    ensures Result(op, a, b, Compute(op, a, b, v))
  {
    hide Pow2, Bit, Shr, Shl, ShiftArith, AndWord, OrWord, EorWord, ReverseWord;
    if op != ADD && op != SUB && op != FLOATING {
      forall j | 0 <= j < 32
        ensures ResultBit(op, a, b, Compute(op, a, b, v), j)
      {
        ComputeBit(op, a, b, v, j);
      }
    }
  }

  lemma ComputeBit(op: DpOp, a: Word, b: Word, v: Word, j: nat)
    requires j < 32
    ensures ResultBit(op, a, b, Compute(op, a, b, v), j)
  {
    hide Pow2, Bit, Shr, Shl, ShiftArith, And, Or, Eor, Reverse, Wrap32;
    AsrBits(a, b % 32, j);
    ShrBits(a, b % 32, j);
    ShlBits(a, b % 32, j);
    LogicBits(a, b, j);
    Pow2At32();
    ReverseBits(a, 32);
    if j + b % 32 >= 32 {
      NoBitAbove(a, 32, j + b % 32);
    }
  }

  lemma OneResult(op: DpOp, a: Word, b: Word, r: Word, q: Word)
    requires op != FLOATING && Result(op, a, b, r) && Result(op, a, b, q)
    ensures r == q
  {
    hide Bit;
    if op != ADD && op != SUB {
      Pow2At32();
      forall j | 0 <= j < 32
        ensures Bit(r, j) == Bit(q, j)
      {
        assert ResultBit(op, a, b, r, j) && ResultBit(op, a, b, q, j);
      }
      SameBits(r, q, 32);
    }
  }

  // ----- flags and conditions

  lemma SignedIs(x: Word)
    ensures Signed32(x) == x - BASE * Bit(x, 31)
  {
    SignBit(x);
  }

  /** Zero and sign of the result; carry out or no borrow; the sign the result should have
      had; overflow once seen stays noted. */
  lemma FlagsMean(f: Flags, op: DpOp, a: Word, b: Word, o: Oracle)
    requires op != FLOATING
    ensures var r, g := Compute(op, a, b, o.value), FlagsAfter(f, op, a, b, o);
            && (g.az <==> r == 0) && (g.an <==> Bit(r, 31) == 1)
            && (op == ADD ==> r + (if g.ac then BASE else 0) == a + b
                              && (g.an != g.av <==> Signed32(a) + Signed32(b) < 0))
            && (op == SUB ==> r + b == a + (if g.ac then 0 else BASE)
                              && (g.an != g.av <==> Signed32(a) < Signed32(b)))
            && (op != ADD && op != SUB ==> !g.ac && !g.av)
            && (g.avs <==> f.avs || g.av)
  {
    hide ShiftArith, ReverseWord, Shr, Shl, AndWord, OrWord, EorWord, Bit;
    SignBit(Compute(op, a, b, o.value));
  }

  /** After a comparison every integer condition is what its name says. */
  lemma ConditionsCompare(f: Flags, a: Word, b: Word, o: Oracle, p: Oracle)
    ensures var g := FlagsAfter(f, SUB, a, b, o);
            && (Holds(EQ, g, p) <==> a == b) && (Holds(NE, g, p) <==> a != b)
            && (Holds(GTU, g, p) <==> a > b) && (Holds(GTEU, g, p) <==> a >= b)
            && (Holds(LTEU, g, p) <==> a <= b) && (Holds(LTU, g, p) <==> a < b)
            && (Holds(GT, g, p) <==> Signed32(a) > Signed32(b)) && (Holds(GTE, g, p) <==> Signed32(a) >= Signed32(b))
            && (Holds(LT, g, p) <==> Signed32(a) < Signed32(b)) && (Holds(LTE, g, p) <==> Signed32(a) <= Signed32(b))
            && Holds(Always, g, p)
  {
    hide Compute, Bit;
    FlagsMean(f, SUB, a, b, o);
    assert Compute(SUB, a, b, o.value) == 0 <==> a == b by {
      ComputeIsResult(SUB, a, b, o.value, 0);
    }
  }

  // ----- memory

  /** What an access of this size keeps of a word. */
  function Part(v: Word, z: Size): Word {
    match z case 0 => v % 0x100 case 1 => v % 0x1_0000 case _ => v
  }

  /** Bytes stored are the word read. */
  lemma StoredWord(mem: int -> Byte, a: int, z: Size, lo: Word, hi: Word)
    ensures WordAt(Stored(mem, a, BytesOf(z), lo, hi), a, if z == 3 then 4 else BytesOf(z)) == Part(lo, z)
    ensures z == 3 ==> WordAt(Stored(mem, a, 8, lo, hi), a + 4, 4) == hi
  {
    var n := BytesOf(z);
    assert forall j :: 0 <= j < n ==> Stored(mem, a, n, lo, hi)(a + j) == ByteOf(hi, lo, j);
    BytesMakeWord(lo);
    BytesMakeWord(hi);
  }

  lemma BytesMakeWord(v: Word)
    ensures v % 0x100 + 0x100 * ((v / 0x100) % 0x100) == v % 0x1_0000
    ensures v % 0x100 + 0x100 * ((v / 0x100) % 0x100) + 0x1_0000 * ((v / 0x1_0000) % 0x100)
            + 0x100_0000 * (v / 0x100_0000) == v
  {
    assert (v / 0x100) / 0x100 == v / 0x1_0000 && (v / 0x1_0000) / 0x100 == v / 0x100_0000;
    var b1, b2 := v / 0x100, v / 0x1_0000;
    assert v == 0x100 * b1 + v % 0x100 && b1 == 0x100 * b2 + b1 % 0x100;
    assert b2 == 0x100 * (v / 0x100_0000) + b2 % 0x100;
    assert v == 0x1_0000 * b2 + (v % 0x100 + 0x100 * (b1 % 0x100));
  }

  /** A load from where a store has been gives back what was stored, as far as its size
      goes, whatever the modes the two use. */
  lemma LoadAfterStore(s: State, a: Access, t: State, l: Access, o: Oracle)
    requires Fits(LoadStore(a), |s.regs|) && Fits(LoadStore(l), |t.regs|) && !a.load && l.load && l.size == a.size
    requires t.mem == Exec(s, LoadStore(a), o).mem && Address(t, l) == Address(s, a)
    requires PostModifies(l.mode) ==> l.rd != l.rn && (l.size == 3 ==> l.rd + 1 != l.rn)
    ensures var r := Exec(t, LoadStore(l), o).regs;
            r[l.rd] == Part(s.regs[a.rd], a.size) && (l.size == 3 ==> r[l.rd + 1] == s.regs[a.rd + 1])
  {
    hide Address, WordAt, BaseAfter, Part;
    StoredWord(s.mem, Address(s, a), a.size, s.regs[a.rd], if a.size == 3 then s.regs[a.rd + 1] else 0);
  }

  /** A test-and-set brings the word in memory; afterwards memory holds the same word,
      or, where it was zero, the register's. */
  lemma TestAndSet(s: State, a: Access, o: Oracle)
    requires Fits(LoadStore(a), |s.regs|) && a.testSet && a.mode == RegOffset
    ensures var t, was := Exec(s, LoadStore(a), o), WordAt(s.mem, Address(s, a), 4);
            && t.regs[a.rd] == was
            && WordAt(t.mem, Address(s, a), 4) == if was == 0 then s.regs[a.rd] else was
  {
    hide Address, WordAt;
    StoredWord(s.mem, Address(s, a), 2, s.regs[a.rd], 0);
  }

  /** Post-modification leaves the base where the offset form would have gone. */
  lemma BaseIsOffsetAddress(s: State, a: Access, o: Oracle)
    requires Fits(LoadStore(a), |s.regs|) && PostModifies(a.mode)
    ensures Exec(s, LoadStore(a), o).regs[a.rn]
         == Address(s, a.(mode := if a.mode == PostModImm then ImmOffset else RegOffset))
    ensures Address(s, a) == s.regs[a.rn]
  {
    hide Moved, WordAt, MemAfter;
  }

  /** Going there and back again is staying. */
  lemma MovedBack(base: Word, distance: int, sub: bool)
    ensures Moved(Moved(base, distance, sub), distance, !sub) == base
    ensures 0 <= base + distance < BASE ==> Moved(base, distance, false) == base + distance
  {
  }
}
