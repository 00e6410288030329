/** The code that sets up the registers at the start of a test (igen/regs.h:387-400,
    igen/main.cpp:436-490). */
module StartCode {
  import opened Words
  import opened Machine
  import opened Tracker
  import opened Registers

  ghost predicate CodeFits(code: seq<Instr>, n: nat) {
    forall i :: 0 <= i < |code| ==> Fits(code[i], n)
  }

  function ExecAll(s: State, code: seq<Instr>, o: Oracle): (t: State)
    requires CodeFits(code, |s.regs|)
    ensures |t.regs| == |s.regs|
  {
    if code == [] then s else Exec(ExecAll(s, code[..|code| - 1], o), code[|code| - 1], o)
  }

  /** A register is set by its low half and, where it is needed, its high half. */
  function SetupOf(q: Pair): (r: seq<Instr>)
    ensures |r| >= 1
  {
    [MovImm(q.reg, q.val % 0x1_0000)] + if q.val >= 0x1_0000 then [Movt(q.reg, q.val / 0x1_0000)] else []
  }

  function SetupCode(list: seq<Pair>): seq<Instr> {
    if list == [] then [] else SetupCode(list[..|list| - 1]) + SetupOf(list[|list| - 1])
  }

  lemma {:induction false} SetupFits(list: seq<Pair>, n: nat)
    requires AllBelow(list, n)
    ensures CodeFits(SetupCode(list), n)
  {
    if list != [] {
      SetupFits(list[..|list| - 1], n);
    }
  }

  /** One register set; the others stay. */
  lemma SetupSetsOne(s: State, code: seq<Instr>, q: Pair, o: Oracle)
    requires CodeFits(code, |s.regs|) && q.reg < |s.regs|
    ensures CodeFits(code + SetupOf(q), |s.regs|)
    ensures ExecAll(s, code + SetupOf(q), o) == var t := ExecAll(s, code, o); t.(regs := t.regs[q.reg := q.val])
  {
    hide ExecAll, Exec;
    var low := MovImm(q.reg, q.val % 0x1_0000);
    ExecAllMore(s, code, low, o);
    LowThenHigh(ExecAll(s, code, o), q, o);
    if q.val >= 0x1_0000 {
      ExecAllMore(s, code + [low], Movt(q.reg, q.val / 0x1_0000), o);
      assert code + SetupOf(q) == code + [low] + [Movt(q.reg, q.val / 0x1_0000)];
    } else {
      assert code + SetupOf(q) == code + [low];
    }
  }

  lemma ExecAllMore(s: State, code: seq<Instr>, i: Instr, o: Oracle)
    requires CodeFits(code, |s.regs|) && Fits(i, |s.regs|)
    ensures CodeFits(code + [i], |s.regs|)
    ensures ExecAll(s, code + [i], o) == Exec(ExecAll(s, code, o), i, o)
  {
    hide Exec;
    assert (code + [i])[..|code|] == code;
  }

  lemma LowThenHigh(t: State, q: Pair, o: Oracle)
    requires q.reg < |t.regs|
    ensures var u := Exec(t, MovImm(q.reg, q.val % 0x1_0000), o);
            if q.val >= 0x1_0000 then Exec(u, Movt(q.reg, q.val / 0x1_0000), o) == t.(regs := t.regs[q.reg := q.val])
            else u == t.(regs := t.regs[q.reg := q.val])
  {
    assert q.val / 0x1_0000 * 0x1_0000 + q.val % 0x1_0000 == q.val;
  }

  /** After the setup code every listed register has its value. */
  lemma {:induction false} SetupSets(s: State, list: seq<Pair>, o: Oracle)
    requires AllBelow(list, |s.regs|)
    ensures CodeFits(SetupCode(list), |s.regs|)
    ensures RegsAgree(TableOf(list), ExecAll(s, SetupCode(list), o).regs)
    ensures ExecAll(s, SetupCode(list), o).mem == s.mem
  {
    SetupFits(list, |s.regs|);
    if list != [] {
      var rest, last := list[..|list| - 1], list[|list| - 1];
      SetupSets(s, rest, o);
      SetupSetsOne(s, SetupCode(rest), last, o);
    }
  }

  // ----- code that leaves registers alone

  const NOTHING := Known(map[], Unknown, Unknown, Unknown, Unknown, Unknown)

  /** None of the instructions changes one of these registers or memory. */
  ghost predicate Leaves(code: seq<Instr>, consts: map<nat, Word>) {
    && (forall i :: 0 <= i < |code| ==> !code[i].LoadStore?)
    && (forall i, r :: 0 <= i < |code| && r in consts ==> r !in Touched(NOTHING, code[i]))
  }

  lemma {:induction false} LeavesAgree(s: State, a: seq<Instr>, b: seq<Instr>, consts: map<nat, Word>, o: Oracle)
    requires CodeFits(a, |s.regs|) && CodeFits(b, |s.regs|) && Leaves(b, consts)
    requires RegsAgree(consts, ExecAll(s, a, o).regs)
    ensures CodeFits(a + b, |s.regs|)
    ensures RegsAgree(consts, ExecAll(s, a + b, o).regs) && ExecAll(s, a + b, o).mem == ExecAll(s, a, o).mem
  {
    hide ExecAll, Exec, Touched;
    if b == [] {
      assert a + b == a;
    } else {
      var rest, last := b[..|b| - 1], b[|b| - 1];
      LeavesAgree(s, a, rest, consts, o);
      assert a + b == (a + rest) + [last];
      ExecAllMore(s, a + rest, last, o);
      var t := ExecAll(s, a + rest, o);
      MemoryLeft(t, last, o);
      forall r | r in consts
        ensures Exec(t, last, o).regs[r] == t.regs[r]
      {
        OthersUntouched(NOTHING, last, t, o, r);
      }
    }
  }

  lemma MemoryLeft(s: State, i: Instr, o: Oracle)
    requires Fits(i, |s.regs|) && !i.LoadStore?
    ensures Exec(s, i, o).mem == s.mem
  {
  }

  // ----- the start of a test

  /** The choices made before the test starts: register values, whether pointer registers
      are set up, the address of the save areas, the values of the configuration
      registers, and where the return from reset goes. */
  datatype StartDraws = StartDraws(values: nat -> Word, many: bool, frame: Word, config: seq<Word>, rds: Word,
                                   rdsFirst: bool)

  /** Both halves of a register. */
  function FullSet(q: Pair): seq<Instr> {
    [MovImm(q.reg, q.val % 0x1_0000), Movt(q.reg, q.val / 0x1_0000)]
  }

  /** Configuration registers are written through r1. */
  function ConfigCode(values: seq<Word>): seq<Instr> {
    if values == [] then []
    else ConfigCode(values[..|values| - 1]) + FullSet(Pair(1, values[|values| - 1])) + [Special]
  }

  function RdsCode(rds: Word): seq<Instr> {
    [MovImm(0, rds % 0x1_0000), Special]
  }

  /** Loop and frame register are set apart from the others. */
  function FixedCode(loopReg: nat, loopCount: nat, frameReg: nat, frame: Word): seq<Instr> {
    [MovImm(loopReg, loopCount % 0x1_0000)] + FullSet(Pair(frameReg, frame))
  }

  method PrintMe(rm: RegManager, loopCount: nat, frame: Word) returns (code: seq<Instr>)
    requires rm.Valid()
    ensures code == SetupCode(rm.rf) + FixedCode(rm.loopCountReg, loopCount, rm.intFrameReg, frame)
  {
    code := [];
    var it := 0;
    while it < |rm.rf|
      invariant 0 <= it <= |rm.rf| && code == SetupCode(rm.rf[..it])
    {
      assert rm.rf[..it + 1][..it] == rm.rf[..it];
      code := code + [MovImm(rm.rf[it].reg, rm.rf[it].val % 0x1_0000)];
      if rm.rf[it].val >= 0x1_0000 {
        code := code + [Movt(rm.rf[it].reg, rm.rf[it].val / 0x1_0000)];
      }
      it := it + 1;
    }
    assert rm.rf[..it] == rm.rf;
    code := code + FixedCode(rm.loopCountReg, loopCount, rm.intFrameReg, frame);
  }

  method PrintConfig(values: seq<Word>) returns (code: seq<Instr>)
    ensures code == ConfigCode(values)
  {
    code := [];
    var i := 0;
    while i < |values|
      invariant 0 <= i <= |values| && code == ConfigCode(values[..i])
    {
      assert values[..i + 1][..i] == values[..i];
      code := code + FullSet(Pair(1, values[i])) + [Special];
      i := i + 1;
    }
    assert values[..i] == values;
  }

  lemma {:induction false} ConfigLeaves(values: seq<Word>, consts: map<nat, Word>, n: nat)
    requires 1 !in consts && 1 < n
    ensures Leaves(ConfigCode(values), consts) && CodeFits(ConfigCode(values), n)
  {
    if values != [] {
      ConfigLeaves(values[..|values| - 1], consts, n);
    }
  }

  // ----- pointer registers

  /** The registers of the list have their values. */
  ghost predicate Among(list: seq<Pair>, known: map<nat, Word>) {
    forall i :: 0 <= i < |list| ==> list[i].reg in known && known[list[i].reg] == list[i].val
  }

  lemma {:induction false} AmongTable(list: seq<Pair>, known: map<nat, Word>)
    requires Among(list, known)
    ensures forall r :: r in TableOf(list) ==> r in known && TableOf(list)[r] == known[r]
  {
    if list != [] {
      AmongTable(list[..|list| - 1], known);
    }
  }

  lemma NoneAmong(known: map<nat, Word>)
    ensures Among([], known)
  {
  }

  lemma AmongMore(list: seq<Pair>, known: map<nat, Word>, more: seq<Pair>)
    requires |more| == |list| + 1 && more[..|list|] == list && Among(list, known)
    requires forall i, j :: 0 <= i < j < |more| ==> more[i].reg != more[j].reg
    ensures Among(more, known[more[|list|].reg := more[|list|].val])
  {
    forall i | 0 <= i < |list|
      ensures more[i] == list[i]
    {
      assert more[..|list|][i] == more[i];
    }
  }

  /** Pointer registers, as many as there are ranges and room. */
  method CreatePointers(rm: RegManager, v: seq<Word>, many: bool)
    requires rm.Valid() && rm.constRegs == []
    modifies rm
    ensures rm.Valid() && Among(rm.constRegs, rm.known) && old(rm.known.Keys) <= rm.known.Keys
    ensures |rm.constRegs| == if !many then 0 else if |v| < rm.nregs / 4 then |v| else rm.nregs / 4
    ensures forall i :: 0 <= i < |rm.constRegs| ==> rm.constRegs[i].val == v[i]
  {
    hide Represents, AllBelow, ChangedRegs, RegManager.Protected, Among;
    NoneAmong(rm.known);
    var numberLsRegs := if |v| < rm.nregs / 4 then |v| else rm.nregs / 4;
    var k := 0;
    while k < numberLsRegs
      invariant 0 <= k <= numberLsRegs && rm.Valid() && Among(rm.constRegs, rm.known)
      invariant |rm.constRegs| == if many then k else 0
      invariant old(rm.known.Keys) <= rm.known.Keys
      invariant forall i :: 0 <= i < |rm.constRegs| ==> rm.constRegs[i].val == v[i]
    {
      if many {
        ghost var list, known := rm.constRegs, rm.known;
        rm.CreateSetMemPointerReg(v[k]);
        rm.PointersDistinct();
        AmongMore(list, known, rm.constRegs);
      }
      k := k + 1;
    }
  }

  // ----- the whole start code

  /** Wherever it is run, the code ends with these registers holding their values, and
      with memory as it was. */
  ghost predicate Sets(code: seq<Instr>, consts: map<nat, Word>, n: nat) {
    && CodeFits(code, n)
    && forall s: State, o: Oracle :: |s.regs| == n ==>
         RegsAgree(consts, ExecAll(s, code, o).regs) && ExecAll(s, code, o).mem == s.mem
  }

  lemma SameTable(list: seq<Pair>, known: map<nat, Word>)
    requires Represents(list, known)
    ensures TableOf(list) == known
  {
    TableRepresents(list);
  }

  /** What follows the setting of the registers leaves the pointers alone. */
  lemma SetsMore(a: seq<Instr>, b: seq<Instr>, consts: map<nat, Word>, n: nat)
    requires Sets(a, consts, n) && CodeFits(b, n) && Leaves(b, consts)
    ensures Sets(a + b, consts, n)
  {
    hide ExecAll, RegsAgree, Leaves, CodeFits;
    forall s: State, o: Oracle | |s.regs| == n
      ensures CodeFits(a + b, n) && RegsAgree(consts, ExecAll(s, a + b, o).regs)
      ensures ExecAll(s, a + b, o).mem == s.mem
    {
      LeavesAgree(s, a, b, consts, o);
    }
    var zero := State(seq(n, _ => 0), Flags(false, false, false, false, false), _ => 0);
    LeavesAgree(zero, a, b, consts, Oracle(0, zero.flags, false));
  }

  /** The printed values of all registers set the pointers among them, whatever ran before. */
  lemma RegistersSet(list: seq<Pair>, known: map<nat, Word>, consts: seq<Pair>, n: nat, before: seq<Instr>)
    requires Represents(list, known) && AllBelow(list, n) && Among(consts, known)
    requires CodeFits(before, n) && Leaves(before, map[])
    ensures Sets(before + SetupCode(list), TableOf(consts), n)
  {
    hide ExecAll, SetupCode, Represents, CodeFits;
    SameTable(list, known);
    AmongTable(consts, known);
    SetupFits(list, n);
    FitsMore(before, SetupCode(list), n);
    forall s: State, o: Oracle | |s.regs| == n
      ensures RegsAgree(TableOf(consts), ExecAll(s, before + SetupCode(list), o).regs)
      ensures ExecAll(s, before + SetupCode(list), o).mem == s.mem
    {
      NoneRun(s, o);
      LeavesAgree(s, [], before, map[], o);
      assert [] + before == before;
      ExecAllConcat(s, before, SetupCode(list), o);
      SetupSets(ExecAll(s, before, o), list, o);
    }
  }

  lemma NoneRun(s: State, o: Oracle)
    ensures CodeFits([], |s.regs|) && ExecAll(s, [], o) == s
  {
  }

  lemma FitsMore(a: seq<Instr>, b: seq<Instr>, n: nat)
    requires CodeFits(a, n) && CodeFits(b, n)
    ensures CodeFits(a + b, n)
  {
  }

  lemma {:induction false} ExecAllConcat(s: State, a: seq<Instr>, b: seq<Instr>, o: Oracle)
    requires CodeFits(a, |s.regs|) && CodeFits(b, |s.regs|)
    ensures CodeFits(a + b, |s.regs|)
    ensures ExecAll(s, a + b, o) == ExecAll(ExecAll(s, a, o), b, o)
  {
    hide Exec;
    if b == [] {
      assert a + b == a;
    } else {
      var rest, last := b[..|b| - 1], b[|b| - 1];
      ExecAllConcat(s, a, rest, o);
      assert a + b == (a + rest) + [last];
      ExecAllMore(s, a + rest, last, o);
    }
  }

  /** Then the loop register is set. */
  lemma LoopSet(a: seq<Instr>, loopReg: nat, v: Word, consts: map<nat, Word>, n: nat)
    requires Sets(a, consts, n) && loopReg !in consts && loopReg < n
    ensures Sets(a + [MovImm(loopReg, v)], consts[loopReg := v], n)
  {
    hide ExecAll;
    forall s: State, o: Oracle | |s.regs| == n
      ensures CodeFits(a + [MovImm(loopReg, v)], n)
      ensures RegsAgree(consts[loopReg := v], ExecAll(s, a + [MovImm(loopReg, v)], o).regs)
      ensures ExecAll(s, a + [MovImm(loopReg, v)], o).mem == s.mem
    {
      ExecAllMore(s, a, MovImm(loopReg, v), o);
    }
  }

  /** Then the frame register is set. */
  lemma FrameSet(a: seq<Instr>, frameReg: nat, frame: Word, consts: map<nat, Word>, n: nat)
    requires Sets(a, consts, n) && frameReg !in consts && frameReg < n
    ensures Sets(a + FullSet(Pair(frameReg, frame)), consts[frameReg := frame], n)
  {
    hide ExecAll;
    var low, high := MovImm(frameReg, frame % 0x1_0000), Movt(frameReg, frame / 0x1_0000);
    assert a + FullSet(Pair(frameReg, frame)) == a + [low] + [high];
    forall s: State, o: Oracle | |s.regs| == n
      ensures CodeFits(a + [low] + [high], n)
      ensures RegsAgree(consts[frameReg := frame], ExecAll(s, a + [low] + [high], o).regs)
      ensures ExecAll(s, a + [low] + [high], o).mem == s.mem
    {
      ExecAllMore(s, a, low, o);
      ExecAllMore(s, a + [low], high, o);
      assert frame / 0x1_0000 * 0x1_0000 + frame % 0x1_0000 == frame;
    }
  }

  lemma TailLeaves(config: seq<Word>, rds: seq<Instr>, val: Word, consts: map<nat, Word>, n: nat)
    requires 1 < n && CodeFits(rds, n) && Leaves(rds, consts) && 1 !in consts
    ensures var code := ConfigCode(config) + rds + FullSet(Pair(1, val)); CodeFits(code, n) && Leaves(code, consts)
  {
    hide ConfigCode;
    ConfigLeaves(config, consts, n);
  }

  /** The pointer registers with their values, the loop register with its count and the
      frame register. */
  ghost function StartTable(rm: RegManager, loopCount: nat, frame: Word): map<nat, Word>
    reads rm`constRegs, rm`loopCountReg, rm`intFrameReg
  {
    var withLoop: map<nat, Word> := TableOf(rm.constRegs)[rm.loopCountReg := loopCount % 0x1_0000];
    withLoop[rm.intFrameReg := frame]
  }

  /** Initialises the registers, sets up the pointer registers and prints the code that
      starts the test: run anywhere, it leaves the pointers, the loop and the frame
      register with their values. */
  method StartTest(rm: RegManager, v: seq<Word>, d: StartDraws, loopCount: nat) returns (code: seq<Instr>)
    requires rm.Valid() && rm.rf == [] && rm.constRegs == []
    modifies rm
    ensures rm.Valid() && Sets(code, StartTable(rm, loopCount, d.frame), rm.nregs)
    ensures |rm.constRegs| == if !d.many then 0 else if |v| < rm.nregs / 4 then |v| else rm.nregs / 4
    ensures forall i :: 0 <= i < |rm.constRegs| ==> rm.constRegs[i].val == v[i]
  {
    hide Represents, AllBelow, ChangedRegs, Sets, SetupCode, ConfigCode, TableOf, CodeFits, Leaves, FixedCode,
        FullSet, RdsCode, Among;
    rm.Init(d.values);
    CreatePointers(rm, v, d.many);
    var before, after := [], RdsCode(d.rds);
    if d.rdsFirst {
      before, after := after, before;
    }
    code := PrintMe(rm, loopCount, d.frame);
    var config := PrintConfig(d.config);
    var found, val := rm.GetReg(1);
    assert found;
    StartSets(rm, before, after, loopCount, d, val);
    code := before + code + config + after + FullSet(Pair(1, val));
    rm.SetReg(1, val);
  }

  lemma StartSets(rm: RegManager, before: seq<Instr>, after: seq<Instr>, loopCount: nat, d: StartDraws, val: Word)
    requires rm.Valid() && Among(rm.constRegs, rm.known)
    requires before in {[], RdsCode(d.rds)} && after in {[], RdsCode(d.rds)}
    ensures Sets(before + (SetupCode(rm.rf) + FixedCode(rm.loopCountReg, loopCount, rm.intFrameReg, d.frame))
                 + ConfigCode(d.config) + after + FullSet(Pair(1, val)),
                 StartTable(rm, loopCount, d.frame), rm.nregs)
  {
    hide Sets, SetupCode, ConfigCode, TableOf, Among, FullSet, RegManager.Valid;
    PointersApart(rm);
    RegistersSet(rm.rf, rm.known, rm.constRegs, rm.nregs, before);
    var consts, a := TableOf(rm.constRegs), before + SetupCode(rm.rf);
    var loop, frame := [MovImm(rm.loopCountReg, loopCount % 0x1_0000)], FullSet(Pair(rm.intFrameReg, d.frame));
    LoopSet(a, rm.loopCountReg, loopCount % 0x1_0000, consts, rm.nregs);
    FrameSet(a + loop, rm.intFrameReg, d.frame, consts[rm.loopCountReg := loopCount % 0x1_0000], rm.nregs);
    var tail, all := ConfigCode(d.config) + after + FullSet(Pair(1, val)), StartTable(rm, loopCount, d.frame);
    TailLeaves(d.config, after, val, all, rm.nregs);
    SetsMore(a + loop + frame, tail, all, rm.nregs);
    assert before + (SetupCode(rm.rf) + (loop + frame)) + ConfigCode(d.config) + after + FullSet(Pair(1, val))
        == a + loop + frame + tail;
  }

  lemma PointersApart(rm: RegManager)
    requires rm.Valid()
    ensures forall r :: r in TableOf(rm.constRegs) ==> r > 1 && r != rm.loopCountReg && r != rm.intFrameReg
    ensures Represents(rm.rf, rm.known) && AllBelow(rm.rf, rm.nregs)
    ensures 1 < rm.loopCountReg < rm.nregs && 1 < rm.intFrameReg < rm.nregs && rm.loopCountReg != rm.intFrameReg
  {
    rm.PointersDistinct();
    TableRepresents(rm.constRegs);
  }
}
