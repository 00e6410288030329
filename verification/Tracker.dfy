/** What igen knows about registers and flags while it emits instructions, and that it is
    right about it (igen/data_processing_instr.h, igen/reg_move_regular.h,
    igen/load_store_instr.h). */
module Tracker {
  import opened Accesses
  import opened Words
  import opened Bits
  import opened Machine

  datatype Tri = Unknown | Is(b: bool)

  /** Known register values and flags. */
  datatype Known = Known(regs: map<nat, Word>, az: Tri, an: Tri, ac: Tri, av: Tri, avs: Tri)

  ghost predicate RegsAgree(known: map<nat, Word>, regs: seq<Word>) {
    forall r :: r in known ==> r < |regs| && regs[r] == known[r]
  }

  predicate FlagAgrees(t: Tri, b: bool) {
    t == Unknown || t == Is(b)
  }

  predicate FlagsAgree(k: Known, f: Flags) {
    FlagAgrees(k.az, f.az) && FlagAgrees(k.an, f.an) && FlagAgrees(k.ac, f.ac)
    && FlagAgrees(k.av, f.av) && FlagAgrees(k.avs, f.avs)
  }

  /** Everything known is so in state s. */
  ghost predicate Agrees(k: Known, s: State) {
    RegsAgree(k.regs, s.regs) && FlagsAgree(k, s.flags)
  }

  function WithoutFlags(k: Known): Known {
    k.(az := Unknown, an := Unknown, ac := Unknown, av := Unknown, avs := Unknown)
  }

  function Set(k: Known, r: nat, v: Word): Known {
    k.(regs := k.regs[r := v])
  }

  function Forget(k: Known, r: nat): Known {
    k.(regs := k.regs - {r})
  }

  /** A register that gets a known value, or any value. */
  lemma SetAgrees(k: Known, r: nat, v: Word, s: State)
    requires r < |s.regs| && Agrees(k, s)
    ensures Agrees(Set(k, r, v), s.(regs := s.regs[r := v]))
    ensures Agrees(Forget(k, r), s.(regs := s.regs[r := v]))
    ensures Agrees(Forget(k, r), s)
  {
  }

  // ----- data processing

  predicate Modelled(op: DpOp) {
    op != FLOATING
  }

  predicate LogicOrShift(op: DpOp) {
    op != ADD && op != SUB && op != FLOATING
  }

  /** The operand's value where it is known. */
  predicate OperandKnown(k: Known, x: Operand) {
    match x case Reg(r) => r in k.regs case Imm(_) => true
  }

  function KnownOperand(k: Known, x: Operand): Word
    requires OperandKnown(k, x)
  {
    match x case Reg(r) => k.regs[r] case Imm(v) => Wrap32(v)
  }

  /** In a loop nothing is computed from its own result. */
  predicate Repeatable(looping: bool, rd: nat, rn: nat, rhs: Operand) {
    !looping || (rd != rn && (rhs.Reg? ==> rd != rhs.r))
  }

  function DpKnown(k: Known, op: DpOp, rd: nat, rn: nat, rhs: Operand, looping: bool): Known {
    if Modelled(op) && Repeatable(looping, rd, rn, rhs) && rn in k.regs && OperandKnown(k, rhs) then
      var v := Compute(op, k.regs[rn], KnownOperand(k, rhs), 0);
      var zero := if LogicOrShift(op) then Is(false) else Unknown;
      Known(k.regs[rd := v], Is(v == 0), Is(Negative(v)), zero, zero, Unknown)
    else
      Forget(WithoutFlags(k), rd)
  }

  lemma DpSound(k: Known, op: DpOp, rd: nat, rn: nat, rhs: Operand, looping: bool, s: State, o: Oracle)
    requires Fits(Dp(op, rd, rn, rhs), |s.regs|) && Agrees(k, s)
    ensures Agrees(DpKnown(k, op, rd, rn, rhs, looping), Exec(s, Dp(op, rd, rn, rhs), o))
  {
    hide Wrap32, Signed32, Negative, ShiftArith, ReverseWord, Shl, Shr, AndWord, OrWord, EorWord;
    if Modelled(op) && rn in k.regs && OperandKnown(k, rhs) {
      assert s.regs[rn] == k.regs[rn];
      assert OperandValue(s, rhs) == KnownOperand(k, rhs);
    }
  }

  /** After an instruction on known operands, not one that a loop repeats on its own
      result, the destination is known and so are zero and sign flag, after logic and
      shifts also carry and overflow; otherwise the destination is lost. No other register
      is learned or lost. */
  lemma DpKnows(k: Known, op: DpOp, rd: nat, rn: nat, rhs: Operand, looping: bool)
    ensures var k' := DpKnown(k, op, rd, rn, rhs, looping);
            var computed := && op != FLOATING && rn in k.regs && (rhs.Reg? ==> rhs.r in k.regs)
                            && (looping ==> rd != rn && (rhs.Reg? ==> rd != rhs.r));
            && k'.regs.Keys == (if computed then k.regs.Keys + {rd} else k.regs.Keys - {rd})
            && (forall r :: r in k.regs && r != rd ==> k'.regs[r] == k.regs[r])
            && (k'.az.Is? <==> computed) && (k'.an.Is? <==> computed)
            && (k'.ac.Is? <==> computed && op != ADD && op != SUB)
            && (k'.av.Is? <==> computed && op != ADD && op != SUB)
  {
    hide Compute;
  }

  // ----- register moves

  /** The condition's value where the flags decide it. */
  function KnownCond(k: Known, c: Cond): Tri {
    match c
    case Always => Is(true)
    case EQ => k.az
    case NE => if k.az.Is? then Is(!k.az.b) else Unknown
    case GTU => if k.ac.Is? && k.az.Is? then Is(!k.az.b && k.ac.b) else Unknown
    case GTEU => k.ac
    case LTEU => if k.ac.Is? && k.az.Is? then Is(k.az.b || !k.ac.b) else Unknown
    case LTU => if k.ac.Is? then Is(!k.ac.b) else Unknown
    case GT => if k.az.Is? && k.av.Is? && k.an.Is? then Is(!k.az.b && k.av.b == k.an.b) else Unknown
    case GTE => if k.av.Is? && k.an.Is? then Is(k.av.b == k.an.b) else Unknown
    case LT => if k.av.Is? && k.an.Is? then Is(k.av.b != k.an.b) else Unknown
    case LTE => if k.az.Is? && k.av.Is? && k.an.Is? then Is(k.az.b || k.av.b != k.an.b) else Unknown
    case _ => Unknown
  }

  /** Where it is decided, it is decided as the machine does. */
  lemma KnownCondSound(k: Known, c: Cond, f: Flags, o: Oracle)
    requires FlagsAgree(k, f)
    ensures KnownCond(k, c).Is? ==> KnownCond(k, c).b == Holds(c, f, o)
  {
  }

  datatype Flag = AZ | AN | AC | AV

  predicate FlagKnown(k: Known, x: Flag) {
    match x case AZ => k.az.Is? case AN => k.an.Is? case AC => k.ac.Is? case AV => k.av.Is?
  }

  function Toggled(f: Flags, x: Flag): Flags {
    match x
    case AZ => f.(az := !f.az)
    case AN => f.(an := !f.an)
    case AC => f.(ac := !f.ac)
    case AV => f.(av := !f.av)
  }

  /** Somewhere the outcome of the condition hangs on the flag. */
  ghost predicate Matters(c: Cond, x: Flag) {
    exists f: Flags, o: Oracle :: Holds(c, f, o) != Holds(c, Toggled(f, x), o)
  }

  predicate IntegerCond(c: Cond) {
    c != BEQ && c != BNE && c != BLT && c != BLTE
  }

  function FlagsRead(c: Cond): set<Flag> {
    match c
    case EQ | NE => {AZ}
    case GTU | LTEU => {AZ, AC}
    case GTEU | LTU => {AC}
    case GT | LTE => {AZ, AN, AV}
    case GTE | LT => {AN, AV}
    case _ => {}
  }

  lemma ReadMatters(c: Cond, x: Flag)
    ensures Matters(c, x) <==> x in FlagsRead(c)
  {
    var o := Oracle(0, Flags(false, false, false, false, false), false);
    var f := Flags(false, false, (c == GTU || c == LTEU) && x == AZ, false, false);
    assert Holds(c, f, o) != Holds(c, Toggled(f, x), o) <==> x in FlagsRead(c);
  }

  /** A condition on integer flags is decided exactly when all flags that matter to it are known. */
  lemma DecidedIff(k: Known, c: Cond)
    requires IntegerCond(c)
    ensures KnownCond(k, c).Is? <==> forall x: Flag :: Matters(c, x) ==> FlagKnown(k, x)
  {
    hide Matters, FlagKnown;
    forall x: Flag
      ensures Matters(c, x) <==> x in FlagsRead(c)
    {
      ReadMatters(c, x);
    }
    DecidedWhenRead(k, c);
  }

  lemma DecidedWhenRead(k: Known, c: Cond)
    requires IntegerCond(c)
    ensures KnownCond(k, c).Is? <==> forall x: Flag :: x in FlagsRead(c) ==> FlagKnown(k, x)
  {
    assert KnownCond(k, c).Is? <==>
             && (AZ in FlagsRead(c) ==> FlagKnown(k, AZ)) && (AN in FlagsRead(c) ==> FlagKnown(k, AN))
             && (AC in FlagsRead(c) ==> FlagKnown(k, AC)) && (AV in FlagsRead(c) ==> FlagKnown(k, AV));
  }

  /** A move whose condition is known false changes nothing; one whose condition or
      source is unknown loses the destination. */
  function MovKnown(k: Known, c: Cond, rd: nat, rn: nat): Known {
    if rn in k.regs && KnownCond(k, c).Is? then (if KnownCond(k, c).b then Set(k, rd, k.regs[rn]) else k)
    else Forget(k, rd)
  }

  function MovtKnown(k: Known, rd: nat, high: nat): Known
    requires high < 0x1_0000
  {
    if rd in k.regs then Set(k, rd, high * 0x1_0000 + k.regs[rd] % 0x1_0000) else Forget(k, rd)
  }

  lemma MovSound(k: Known, c: Cond, rd: nat, rn: nat, s: State, o: Oracle)
    requires rd < |s.regs| && rn < |s.regs| && Agrees(k, s)
    ensures Agrees(MovKnown(k, c, rd, rn), Exec(s, Mov(c, rd, rn), o))
  {
    hide Holds, KnownCond, Set, Forget, FlagsAgree;
    KnownCondSound(k, c, s.flags, o);
    assert rn in k.regs ==> s.regs[rn] == k.regs[rn];
    SetAgrees(k, rd, s.regs[rn], s);
  }

  /** A decided move of a known value is followed; a decided move that does not happen
      changes nothing; any other loses the destination. */
  lemma MovKnows(k: Known, c: Cond, rd: nat, rn: nat)
    ensures var k' := MovKnown(k, c, rd, rn);
            && k'.regs.Keys == (if rn !in k.regs || KnownCond(k, c) == Unknown then k.regs.Keys - {rd}
                                else if KnownCond(k, c) == Is(true) then k.regs.Keys + {rd}
                                else k.regs.Keys)
            && (forall r :: r in k.regs && r != rd ==> k'.regs[r] == k.regs[r])
            && k'.(regs := k.regs) == k
  {
    hide KnownCond;
  }

  // ----- loads and stores

  /** Registers and recorded bytes an access relies on. */
  predicate AddressKnown(k: Known, a: Access) {
    a.rn in k.regs && (a.mode == RegOffset ==> a.rm in k.regs)
  }

  function KnownAddress(k: Known, a: Access): Word
    requires AddressKnown(k, a)
  {
    match a.mode
    case ImmOffset => Moved(k.regs[a.rn], a.imm * BytesOf(a.size), a.sub)
    case RegOffset => Moved(k.regs[a.rn], k.regs[a.rm], a.sub)
    case _ => k.regs[a.rn]
  }

  /** The tracker's register numbers reach the tracker's address in the machine. */
  lemma AddressSound(k: Known, a: Access, s: State)
    requires Fits(LoadStore(a), |s.regs|) && Agrees(k, s) && AddressKnown(k, a)
    ensures Address(s, a) == KnownAddress(k, a)
  {
  }

  /** The base register after the access: computed only outside loops. */
  function BaseKnown(k: Known, a: Access, looping: bool): Known
    requires a.rn in k.regs
  {
    if !PostModifies(a.mode) then k
    else if !looping && (a.mode == PostModReg ==> a.rm in k.regs) then
      Set(k, a.rn, Moved(k.regs[a.rn], if a.mode == PostModReg then k.regs[a.rm] else a.imm * BytesOf(a.size), a.sub))
    else Forget(k, a.rn)
  }

  predicate BytesRecorded(bytes: map<int, Byte>, at: int, n: nat) {
    forall j :: at <= j < at + n ==> j in bytes
  }

  /** The n bytes recorded from a on, low byte first. */
  function RecordedWord(bytes: map<int, Byte>, a: int, n: nat): Word
    requires 1 <= n <= 4 && BytesRecorded(bytes, a, n)
  {
    WordAt((j: int) => if j in bytes then bytes[j] else 0, a, n)
  }

  /** A load's destination: what is recorded in memory, unless the load is not protected. */
  function LoadKnown(k: Known, a: Access, at: int, protected: bool, bytes: map<int, Byte>): Known
    requires protected ==> BytesRecorded(bytes, at, 8)
  {
    if !protected then
      if a.size == 3 then Forget(Forget(k, a.rd), a.rd + 1) else Forget(k, a.rd)
    else if a.testSet then Forget(k, a.rd)
    else if a.size == 3 then Set(Set(k, a.rd, RecordedWord(bytes, at, 4)), a.rd + 1, RecordedWord(bytes, at + 4, 4))
    else Set(k, a.rd, RecordedWord(bytes, at, BytesOf(a.size)))
  }

  function AccessKnown(k: Known, a: Access, looping: bool, protected: bool, bytes: map<int, Byte>): Known
    requires AddressKnown(k, a)
    requires a.load && protected ==> BytesRecorded(bytes, KnownAddress(k, a), 8)
  {
    var after := BaseKnown(k, a, looping);
    if a.load then LoadKnown(after, a, KnownAddress(k, a), protected, bytes) else after
  }

  /** Which registers are known after an access: the destination of a protected load, both
      halves of a double, but not of a test-and-set; a modified base outside loops. */
  lemma AccessKnows(k: Known, a: Access, looping: bool, protected: bool, bytes: map<int, Byte>)
    requires AddressKnown(k, a) && DestinationApart(a) && (a.testSet ==> a.load && a.size == 2)
    requires a.load && protected ==> BytesRecorded(bytes, KnownAddress(k, a), 8)
    ensures var k' := AccessKnown(k, a, looping, protected, bytes);
            && (forall r :: r in AccessTouched(a) ==>
                  (r in k'.regs <==> if PostModifies(a.mode) && r == a.rn then
                                       !looping && (a.mode == PostModReg ==> a.rm in k.regs)
                                     else protected && !a.testSet))
            && (forall r :: r !in AccessTouched(a) ==>
                  (r in k'.regs <==> r in k.regs) && (r in k.regs ==> k'.regs[r] == k.regs[r]))
            && k'.(regs := k.regs) == k
  {
    hide KnownAddress, Moved, RecordedWord;
  }

  /** The destination is not the base of a post-modifying access. */
  predicate DestinationApart(a: Access) {
    PostModifies(a.mode) ==> a.rd != a.rn && (a.size == 3 ==> a.rd + 1 != a.rn)
  }

  ghost predicate MemAgrees(bytes: map<int, Byte>, mem: int -> Byte) {
    forall j :: j in bytes ==> mem(j) == bytes[j]
  }

  lemma RecordedIs(bytes: map<int, Byte>, mem: int -> Byte, at: int, n: nat)
    requires 1 <= n <= 4 && BytesRecorded(bytes, at, n) && MemAgrees(bytes, mem)
    ensures RecordedWord(bytes, at, n) == WordAt(mem, at, n)
  {
    assert at in bytes && (n > 1 ==> at + 1 in bytes) && (n > 2 ==> at + 2 in bytes) && (n > 3 ==> at + 3 in bytes);
  }

  /** The base register. */
  lemma BaseSound(k: Known, a: Access, looping: bool, s: State)
    requires Fits(LoadStore(a), |s.regs|) && Agrees(k, s) && AddressKnown(k, a) && DestinationApart(a)
    ensures PostModifies(a.mode) ==>
              RegsAgree(BaseKnown(k, a, looping).regs, s.regs[a.rn := BaseAfter(s, a)])
    ensures !PostModifies(a.mode) ==> BaseKnown(k, a, looping) == k
    ensures FlagsAgree(BaseKnown(k, a, looping), s.flags)
  {
    hide Moved;
    assert s.regs[a.rn] == k.regs[a.rn];
    if a.mode == PostModReg && a.rm in k.regs {
      assert s.regs[a.rm] == k.regs[a.rm];
    }
  }

  /** A load or store leaves known what the tracker says, given that memory holds the
      recorded bytes. */
  lemma AccessSound(k: Known, a: Access, looping: bool, protected: bool, bytes: map<int, Byte>, s: State, o: Oracle)
    requires Fits(LoadStore(a), |s.regs|) && Agrees(k, s) && MemAgrees(bytes, s.mem)
    requires AddressKnown(k, a) && DestinationApart(a)
    requires a.load && protected ==> BytesRecorded(bytes, KnownAddress(k, a), 8)
    ensures Agrees(AccessKnown(k, a, looping, protected, bytes), Exec(s, LoadStore(a), o))
  {
    hide Address, KnownAddress, BaseAfter, BaseKnown, WordAt, RecordedWord, MemAfter;
    AddressSound(k, a, s);
    BaseSound(k, a, looping, s);
    var at: int := Address(s, a);
    if a.load && protected {
      if a.size == 3 {
        RecordedIs(bytes, s.mem, at, 4);
        RecordedIs(bytes, s.mem, at + 4, 4);
      } else {
        RecordedIs(bytes, s.mem, at, BytesOf(a.size));
      }
    }
  }

  /** Memory changes only at the accessed bytes, and not at all by an ordinary load. */
  lemma AccessFrame(a: Access, s: State, o: Oracle, j: int)
    requires Fits(LoadStore(a), |s.regs|)
    requires (a.load && !a.testSet) || !(Address(s, a) <= j < Address(s, a) + BytesOf(a.size))
    ensures Exec(s, LoadStore(a), o).mem(j) == s.mem(j)
  {
  }

  // ----- registers changed

  function AccessTouched(a: Access): set<nat> {
    (if a.load then if a.size == 3 then {a.rd, a.rd + 1} else {a.rd} else {})
    + if PostModifies(a.mode) then {a.rn} else {}
  }

  /** The registers an instruction may change. A move whose source is known and whose
      condition is known to be false changes none. */
  function Touched(k: Known, i: Instr): set<nat> {
    match i
    case Dp(_, rd, _, _) => {rd}
    case MovImm(rd, _) => {rd}
    case Movt(rd, _) => {rd}
    case Mov(c, rd, rn) => if rn in k.regs && KnownCond(k, c) == Is(false) then {} else {rd}
    case ReadSpecial(rd) => {rd}
    case Special => {}
    case LoadStore(a) => AccessTouched(a)
    case Branch(linked) => if linked then {14} else {}
    case FarBranch(rj, _, linked) => if linked then {rj, 14} else {rj}
  }

  /** Wherever what is known is so, an instruction changes no other register. */
  lemma OthersUntouched(k: Known, i: Instr, s: State, o: Oracle, r: nat)
    requires Fits(i, |s.regs|) && Agrees(k, s) && r < |s.regs| && r !in Touched(k, i)
    ensures Exec(s, i, o).regs[r] == s.regs[r]
  {
    hide Holds, KnownCond, RegsAgree, FlagsAgree, Compute, FlagsAfter, Address, WordAt, MemAfter, BaseAfter;
    if i.Mov? {
      KnownCondSound(k, i.cond, s.flags, o);
    }
  }
}
