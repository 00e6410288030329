/** What the generated instructions do: registers, status flags and byte memory.
    Results of floating point and of special registers come from an oracle. */
module Machine {
  import opened Accesses
  import opened Words
  import opened Bits

  datatype Flags = Flags(az: bool, an: bool, ac: bool, av: bool, avs: bool)

  datatype State = State(regs: seq<Word>, flags: Flags, mem: int -> Byte)

  /** What the model does not compute. */
  datatype Oracle = Oracle(value: Word, flags: Flags, cond: bool)

  datatype Cond = EQ | NE | GTU | GTEU | LTEU | LTU | GT | GTE | LT | LTE | BEQ | BNE | BLT | BLTE | Always

  datatype DpOp = ADD | SUB | ASR | LSR | LSL | ORR | AND | EOR | BITR | FLOATING

  datatype Operand = Reg(r: nat) | Imm(v: int)

  datatype Mode = ImmOffset | RegOffset | PostModImm | PostModReg

  datatype Access = Access(load: bool, size: Size, mode: Mode, sub: bool, rd: nat, rn: nat, rm: nat, imm: nat,
                           testSet: bool)

  datatype Instr =
    | Dp(op: DpOp, rd: nat, rn: nat, rhs: Operand)
    | MovImm(rd: nat, v: Word)
    | Movt(rd: nat, high: nat)
    | Mov(cond: Cond, rd: nat, rn: nat)
    | ReadSpecial(rd: nat)
    | Special                        // nop, writes of loop registers
    | LoadStore(a: Access)
    | Branch(linked: bool)
    | FarBranch(rj: nat, target: Word, linked: bool)   // the target moved to a register, jump through it

  /** All register numbers exist. */
  predicate Fits(i: Instr, n: nat) {
    match i
    case Dp(_, rd, rn, rhs) => rd < n && rn < n && (rhs.Reg? ==> rhs.r < n)
    case MovImm(rd, _) => rd < n
    case Movt(rd, high) => rd < n && high < 0x1_0000
    case Mov(_, rd, rn) => rd < n && rn < n
    case ReadSpecial(rd) => rd < n
    case Special => true
    case LoadStore(a) =>
      && a.rd < n && a.rn < n && a.rm < n
      && (a.size == 3 ==> a.rd + 1 < n) && (a.testSet ==> a.load && a.size == 2)
    case Branch(_) => 14 < n
    case FarBranch(rj, _, _) => 14 < n && rj < n
  }

  // ----- arithmetic and logic

  function Signed32(x: Word): int {
    if x < BASE / 2 then x else x - BASE
  }

  /** Arithmetic shift right: division rounding down. */
  function ShiftArith(x: Word, n: nat): Word
    requires n < 32
  {
    Wrap32(Signed32(x) / Pow2(n))
  }

  /** The low n bits of x in reverse. */
  function Reverse(x: nat, n: nat): (r: nat) {
    if n == 0 then 0 else 2 * Reverse(x, n - 1) + Bit(x, n - 1)
  }

  lemma {:induction false} ReverseBits(x: nat, n: nat)
    ensures Reverse(x, n) < Pow2(n)
    ensures forall j :: 0 <= j < n ==> Bit(Reverse(x, n), j) == Bit(x, n - 1 - j)
  {
    if n > 0 {
      ReverseBits(x, n - 1);
      forall j | 0 <= j < n
        ensures Bit(Reverse(x, n), j) == Bit(x, n - 1 - j)
      {
        ReverseBit(Reverse(x, n - 1), Bit(x, n - 1), j);
        if j > 0 {
          assert Bit(Reverse(x, n - 1), j - 1) == Bit(x, n - 1 - 1 - (j - 1));
        }
      }
    }
  }

  /** Bits of a number with one more low bit. */
  lemma ReverseBit(r: nat, b: int, j: nat)
    requires b == 0 || b == 1
    ensures Bit(2 * r + b, j) == if j == 0 then b else Bit(r, j - 1)
  {
    if j > 0 {
      hide Bit;
      BitOfHalf(2 * r + b, j - 1);
      assert (2 * r + b) / 2 == r;
    }
  }

  function ReverseWord(x: Word): Word {
    ReverseBits(x, 32);
    Pow2At32();
    Reverse(x, 32)
  }

  /** Result of a data processing instruction; v is the oracle's. */
  function Compute(op: DpOp, a: Word, b: Word, v: Word): Word {
    match op
    case ADD => Wrap32(a + b)
    case SUB => Wrap32(a - b)
    case ASR => ShiftArith(a, b % 32)
    case LSR => Shr(a, b % 32)
    case LSL => Shl(a, b % 32)
    case ORR => OrWord(a, b)
    case AND => AndWord(a, b)
    case EOR => EorWord(a, b)
    case BITR => ReverseWord(a)
    case FLOATING => v
  }

  /** Carry (no borrow) and overflow of an addition or subtraction. */
  function CarryOf(op: DpOp, a: Word, b: Word): bool {
    match op case ADD => a + b >= BASE case SUB => a >= b case _ => false
  }

  function OverflowOf(op: DpOp, a: Word, b: Word): bool {
    match op
    case ADD => Signed32(Wrap32(a + b)) != Signed32(a) + Signed32(b)
    case SUB => Signed32(Wrap32(a - b)) != Signed32(a) - Signed32(b)
    case _ => false
  }

  predicate Negative(x: Word) {
    x >= BASE / 2
  }

  function FlagsAfter(f: Flags, op: DpOp, a: Word, b: Word, o: Oracle): Flags {
    if op == FLOATING then o.flags
    else
      var r := Compute(op, a, b, o.value);
      Flags(r == 0, Negative(r), CarryOf(op, a, b), OverflowOf(op, a, b), f.avs || OverflowOf(op, a, b))
  }

  function OperandValue(s: State, x: Operand): Word
    requires x.Reg? ==> x.r < |s.regs|
  {
    match x case Reg(r) => s.regs[r] case Imm(v) => Wrap32(v)
  }

  /** Conditions on the integer flags; those on floating point flags are the oracle's. */
  predicate Holds(c: Cond, f: Flags, o: Oracle) {
    match c
    case EQ => f.az
    case NE => !f.az
    case GTU => !f.az && f.ac
    case GTEU => f.ac
    case LTEU => f.az || !f.ac
    case LTU => !f.ac
    case GT => !f.az && f.av == f.an
    case GTE => f.av == f.an
    case LT => f.av != f.an
    case LTE => f.az || f.av != f.an
    case Always => true
    case _ => o.cond
  }

  // ----- memory accesses

  function Moved(base: Word, distance: int, sub: bool): Word {
    if sub then Wrap32(base - distance) else Wrap32(base + distance)
  }

  function Address(s: State, a: Access): Word
    requires Fits(LoadStore(a), |s.regs|)
  {
    match a.mode
    case ImmOffset => Moved(s.regs[a.rn], a.imm * BytesOf(a.size), a.sub)
    case RegOffset => Moved(s.regs[a.rn], s.regs[a.rm], a.sub)
    case _ => s.regs[a.rn]
  }

  /** The n bytes from a on, low byte first. */
  function WordAt(mem: int -> Byte, a: int, n: nat): Word {
    mem(a) + (if n > 1 then 0x100 * mem(a + 1) else 0)
    + (if n > 2 then 0x1_0000 * mem(a + 2) else 0) + (if n > 3 then 0x100_0000 * mem(a + 3) else 0)
  }

  /** mem with n bytes of hi:lo stored at a. */
  function Stored(mem: int -> Byte, a: int, n: nat, lo: Word, hi: Word): int -> Byte {
    (x: int) => if a <= x < a + n && x - a < 8 then ByteOf(hi, lo, x - a) else mem(x)
  }

  /** Registers after a load or a store, before the base is modified. */
  function RegsLoaded(s: State, a: Access): (r: seq<Word>)
    requires Fits(LoadStore(a), |s.regs|)
    ensures |r| == |s.regs|
  {
    var at: int := Address(s, a);
    if !a.load then s.regs
    else if a.size == 3 then s.regs[a.rd := WordAt(s.mem, at, 4)][a.rd + 1 := WordAt(s.mem, at + 4, 4)]
    else s.regs[a.rd := WordAt(s.mem, at, BytesOf(a.size))]
  }

  /** A store writes; a test-and-set may write, when it finds zero. */
  function MemAfter(s: State, a: Access): int -> Byte
    requires Fits(LoadStore(a), |s.regs|)
  {
    var at: int := Address(s, a);
    if !a.load then Stored(s.mem, at, BytesOf(a.size), s.regs[a.rd], if a.size == 3 then s.regs[a.rd + 1] else 0)
    else if a.testSet && WordAt(s.mem, at, 4) == 0 then Stored(s.mem, at, 4, s.regs[a.rd], 0)
    else s.mem
  }

  function BaseAfter(s: State, a: Access): Word
    requires Fits(LoadStore(a), |s.regs|)
  {
    match a.mode
    case PostModImm => Moved(s.regs[a.rn], a.imm * BytesOf(a.size), a.sub)
    case PostModReg => Moved(s.regs[a.rn], s.regs[a.rm], a.sub)
    case _ => s.regs[a.rn]
  }

  predicate PostModifies(m: Mode) {
    m == PostModImm || m == PostModReg
  }

  function ExecAccess(s: State, a: Access): State
    requires Fits(LoadStore(a), |s.regs|)
  {
    var regs := RegsLoaded(s, a);
    State(if PostModifies(a.mode) then regs[a.rn := BaseAfter(s, a)] else regs, s.flags, MemAfter(s, a))
  }

  function Exec(s: State, i: Instr, o: Oracle): (t: State)
    requires Fits(i, |s.regs|)
    ensures |t.regs| == |s.regs|
  {
    match i
    case Dp(op, rd, rn, rhs) =>
      var a, b := s.regs[rn], OperandValue(s, rhs);
      s.(regs := s.regs[rd := Compute(op, a, b, o.value)], flags := FlagsAfter(s.flags, op, a, b, o))
    case MovImm(rd, v) => s.(regs := s.regs[rd := v])
    case Movt(rd, high) => s.(regs := s.regs[rd := high * 0x1_0000 + s.regs[rd] % 0x1_0000])
    case Mov(c, rd, rn) => if Holds(c, s.flags, o) then s.(regs := s.regs[rd := s.regs[rn]]) else s
    case ReadSpecial(rd) => s.(regs := s.regs[rd := o.value])
    case Special => s
    case LoadStore(a) => ExecAccess(s, a)
    case Branch(linked) => if linked then s.(regs := s.regs[14 := o.value]) else s
    case FarBranch(rj, target, linked) =>
      var regs := s.regs[rj := target];
      s.(regs := if linked then regs[14 := o.value] else regs)
  }
}
