/** Generation of register moves (igen/reg_move_regular.h:281-446). */
module RegisterMoves {
  import opened Machine
  import opened Tracker
  import opened Registers

  predicate IsMove(i: Instr) {
    i.MovImm? || i.Movt? || i.Mov? || i.ReadSpecial? || i.Special?
  }

  function Destination(i: Instr): nat
    requires IsMove(i) && !i.Special?
  {
    match i case MovImm(rd, _) => rd case Movt(rd, _) => rd case Mov(_, rd, _) => rd case ReadSpecial(rd) => rd
  }

  function MoveKnown(k: Known, i: Instr): Known
    requires IsMove(i) && (i.Movt? ==> i.high < 0x1_0000)
  {
    match i
    case MovImm(rd, v) => Set(k, rd, v)
    case Movt(rd, high) => MovtKnown(k, rd, high)
    case Mov(c, rd, rn) => MovKnown(k, c, rd, rn)
    case ReadSpecial(rd) => Forget(k, rd)
    case Special => k
  }

  lemma KnownValue(k: Known, r: nat, s: State)
    requires Agrees(k, s) && r < |s.regs|
    ensures r in k.regs ==> k.regs[r] == s.regs[r]
  {
  }

  lemma MoveSound(k: Known, i: Instr, s: State, o: Oracle)
    requires IsMove(i) && Fits(i, |s.regs|) && Agrees(k, s)
    ensures Agrees(MoveKnown(k, i), Exec(s, i, o))
  {
    hide Holds, KnownCond, MovKnown, Set, Forget, FlagsAgree, RegsAgree;
    match i
    case MovImm(rd, v) => SetAgrees(k, rd, v, s);
    case Movt(rd, high) =>
      KnownValue(k, rd, s);
      SetAgrees(k, rd, high * 0x1_0000 + s.regs[rd] % 0x1_0000, s);
    case Mov(c, rd, rn) => MovSound(k, c, rd, rn, s, o);
    case ReadSpecial(rd) => SetAgrees(k, rd, o.value, s);
    case Special =>
  }

  /** A full move makes its register known, moving the high half keeps it known if it was,
      a special register's value never is; flags and other registers stay. */
  lemma MoveKnows(k: Known, i: Instr)
    requires IsMove(i) && !i.Mov? && (i.Movt? ==> i.high < 0x1_0000)
    ensures var k' := MoveKnown(k, i);
            && (i.MovImm? ==> k'.regs.Keys == k.regs.Keys + {i.rd})
            && (i.Movt? || i.Special? ==> k'.regs.Keys == k.regs.Keys)
            && (i.ReadSpecial? ==> k'.regs.Keys == k.regs.Keys - {i.rd})
            && k'.(regs := k.regs) == k
            && forall r :: r in k.regs && (i.Special? || r != i.rd) ==> k'.regs[r] == k.regs[r]
  {
  }

  /** Evaluates a condition on the known flags. */
  method EvaluateCond(rm: RegManager, c: Cond) returns (decided: bool, value: bool)
    requires rm.Valid()
    ensures decided <==> KnownCond(rm.Facts(), c).Is?
    ensures decided ==> value == KnownCond(rm.Facts(), c).b
  {
    decided, value := false, false;
    match c
    case Always => decided, value := true, true;
    case EQ => if rm.az.0 { decided, value := true, rm.az.1; }
    case NE => if rm.az.0 { decided, value := true, !rm.az.1; }
    case GTU => if rm.ac.0 && rm.az.0 { decided, value := true, !rm.az.1 && rm.ac.1; }
    case GTEU => if rm.ac.0 { decided, value := true, rm.ac.1; }
    case LTEU => if rm.ac.0 && rm.az.0 { decided, value := true, rm.az.1 || !rm.ac.1; }
    case LTU => if rm.ac.0 { decided, value := true, !rm.ac.1; }
    case GT => if rm.az.0 && rm.av.0 && rm.an.0 { decided, value := true, !rm.az.1 && rm.av.1 == rm.an.1; }
    case GTE => if rm.av.0 && rm.an.0 { decided, value := true, rm.av.1 == rm.an.1; }
    case LT => if rm.av.0 && rm.an.0 { decided, value := true, rm.av.1 != rm.an.1; }
    case LTE => if rm.az.0 && rm.av.0 && rm.an.0 { decided, value := true, rm.az.1 || rm.av.1 != rm.an.1; }
    case _ =>
  }

  /** Generates one move. One whose condition is known to be false is not recorded. */
  method Next(rm: RegManager, i: Instr)
    requires rm.Valid() && IsMove(i) && Fits(i, rm.nregs) && (!i.Special? ==> rm.Free(Destination(i)))
    modifies rm`rf, rm`modifiedRegs, rm`known
    ensures rm.Valid() && rm.Facts() == MoveKnown(old(rm.Facts()), i)
    ensures rm.Changed() == old(rm.Changed()) + Touched(old(rm.Facts()), i)
  {
    hide KnownCond, Represents, RegManager.Changed;
    match i
    case ReadSpecial(rd) => rm.InvalidateReg(rd);
    case MovImm(rd, v) => rm.SetReg(rd, v);
    case Movt(rd, high) =>
      var found, val := rm.GetReg(rd);
      if found {
        rm.SetReg(rd, high * 0x1_0000 + val % 0x1_0000);
      } else {
        rm.InvalidateReg(rd);
      }
    case Mov(c, rd, rn) =>
      var found, val := rm.GetReg(rn);
      var decided, value := EvaluateCond(rm, c);
      if found && decided {
        if value {
          rm.SetReg(rd, val);
        }
      } else {
        rm.InvalidateReg(rd);
      }
    case Special =>
  }
}
