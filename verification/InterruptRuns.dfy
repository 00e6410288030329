/** Runs of generated code that interrupts cut into, and the generated interrupt routines
    themselves: what is known stays right, and the list of changed registers covers all
    that a run of a routine changes (igen/regs.h:195-221, igen/main.cpp:627-770). */
module InterruptRuns {
  import opened Accesses
  import opened Words
  import opened Machine
  import opened Tracker
  import opened ProgramRuns
  import I = Interrupts

  /** Generated bodies with the interrupt routines; base is the address of the save areas. */
  datatype Env = Env(bodies: seq<seq<Gen>>, p: Setup, relied: map<int, Byte>, isrs: I.Isrs, base: int)

  /** The linker puts the save areas where the generated code does not go. */
  ghost predicate AreasApart(e: Env) {
    && (forall j :: j in e.relied ==> !I.InAreas(e.isrs, e.base, j))
    && (forall k, i, j :: 0 <= k < |e.bodies| && 0 <= i < |e.bodies[k]| && j in e.bodies[k][i].writes ==>
          !I.InAreas(e.isrs, e.base, j))
  }

  ghost predicate Ready(e: Env) {
    && WellFormed(e.bodies, e.p, e.relied) && I.Legal(e.isrs) && I.Short(e.isrs)
    && e.isrs.n == e.p.n && e.isrs.frame == e.p.frame && AreasApart(e)
  }

  // ----- one machine state, seen by the generated code and by the interrupt hardware

  function StatusOf(f: Flags): int {
    (if f.az then 1 else 0) + (if f.an then 2 else 0) + (if f.ac then 4 else 0) + (if f.av then 8 else 0)
    + (if f.avs then 16 else 0)
  }

  lemma StatusDecides(f: Flags, g: Flags)
    requires StatusOf(f) == StatusOf(g)
    ensures f == g
  {
  }

  ghost predicate Mirrors(e: Env, cpu: I.Cpu, s: State) {
    && |cpu.regs| == |s.regs| == e.p.n && (forall r :: 0 <= r < |s.regs| ==> cpu.regs[r] == s.regs[r])
    && cpu.status == StatusOf(s.flags)
    && (forall x :: !I.InAreas(e.isrs, e.base, x) ==> cpu.mem(x) == s.mem(x))
  }

  /** An interrupt that takes the processor from one state of the program to another. */
  ghost predicate Activation(e: Env, cpu: I.Cpu, act: I.Act, active: set<nat>, s: State, t: State)
    requires I.Legal(e.isrs) && e.isrs.n == e.p.n
  {
    && Mirrors(e, cpu, s) && cpu.regs[e.isrs.frame] == e.base && I.ActFits(e.isrs, cpu.regs[e.isrs.frame], act, active)
    && Mirrors(e, I.ExecAct(e.isrs, cpu, act, active), t)
  }

  ghost predicate Kinds(active: set<nat>) {
    forall j :: j in active ==> j < I.MAX_NUM_INTER
  }

  /** It changes nothing but memory, and that only as it writes there. */
  lemma ActivationEffect(e: Env, cpu: I.Cpu, act: I.Act, active: set<nat>, s: State, t: State)
    requires Ready(e) && Kinds(active) && Activation(e, cpu, act, active, s, t)
    ensures t.regs == s.regs && t.flags == s.flags
    ensures forall x :: !I.InAreas(e.isrs, e.base, x) ==>
              t.mem(x) == I.ActMem(cpu.mem, act)(x) && (x !in I.ActWrites(act) ==> t.mem(x) == s.mem(x))
  {
    hide I.ExecAct, I.ActFits, I.Legal, I.Short, I.InAreas, I.AreasKept, WellFormed, StatusOf, AreasApart;
    I.ActRestores(e.isrs, cpu, act, active);
    StatusDecides(s.flags, t.flags);
    forall x | !I.InAreas(e.isrs, e.base, x)
      ensures t.mem(x) == I.ActMem(cpu.mem, act)(x) && (x !in I.ActWrites(act) ==> t.mem(x) == s.mem(x))
    {
      I.ActMemory(e.isrs, cpu, act, active, x);
      I.ActMemAt(cpu.mem, cpu.mem, act, x);
    }
  }

  // ----- runs with interrupts

  datatype Item = Go(event: Event) | Irq(pc: int, act: I.Act)

  datatype Stop = Stop(item: Item, after: Config)

  function End(c: Config, trace: seq<Stop>): Config {
    if trace == [] then c else trace[|trace| - 1].after
  }

  /** One step of the code, or an interrupt whose routine writes no byte relied on. */
  ghost predicate Follows(e: Env, active: set<nat>, m: Config, x: Stop)
    requires I.Legal(e.isrs) && e.isrs.n == e.p.n
  {
    && Placed(e.bodies, e.p, m)
    && match x.item
       case Go(ev) => Enabled(e.bodies, e.p, m, ev) && x.after == Step(e.bodies, e.p, m, ev)
       case Irq(_, act) =>
         && x.after == Config(m.sub, m.index, x.after.s) && I.ActWrites(act) !! e.relied.Keys
         && exists cpu :: Activation(e, cpu, act, active, m.s, x.after.s)
  }

  ghost predicate Traced(e: Env, active: set<nat>, c: Config, trace: seq<Stop>)
    requires I.Legal(e.isrs) && e.isrs.n == e.p.n
  {
    if trace == [] then Placed(e.bodies, e.p, c)
    else
      var rest := trace[..|trace| - 1];
      Traced(e, active, c, rest) && Follows(e, active, End(c, rest), trace[|trace| - 1])
  }

  /** All that is known is so, and the frame register points to the save areas. */
  ghost predicate Holding(e: Env, c: Config)
    requires e.p.frame < e.p.n
  {
    Sound(e.bodies, e.p, e.relied, c) && c.s.regs[e.p.frame] == e.base
  }

  /** An instruction changes no register but those it touches. */
  lemma NextChanges(e: Env, m: Config, o: Oracle, r: nat)
    requires WellFormed(e.bodies, e.p, e.relied) && Sound(e.bodies, e.p, e.relied, m)
    requires m.index < |e.bodies[m.sub]| && r < e.p.n
    ensures var g := e.bodies[m.sub][m.index];
            Fits(g.instr, e.p.n) && (r !in Touched(g.before, g.instr) ==>
              Exec(m.s, g.instr, o).regs[r] == m.s.regs[r])
    ensures e.p.frame !in Touched(e.bodies[m.sub][m.index].before, e.bodies[m.sub][m.index].instr)
  {
    hide Agrees, Exec, Includes, Touched;
    var g := e.bodies[m.sub][m.index];
    assert WellGenerated(e.bodies[m.sub], e.p, e.relied);
    if r !in Touched(g.before, g.instr) {
      OthersUntouched(g.before, g.instr, m.s, o, r);
    }
  }

  lemma TailChanges(p: Setup, m: Config, target: nat, address: Word, o: Oracle, r: nat)
    requires p.loopReg < p.n && 0 < p.n && |m.s.regs| == p.n && r < p.n && r != p.loopReg && r != 0
    ensures TailStep(p, m, target, address, o).s.regs[r] == m.s.regs[r]
  {
    hide Compute, FlagsAfter;
  }

  /** A step of the code changes only registers its subroutine touches, the loop register
      and r0, and never the frame register. */
  lemma EventChanges(e: Env, m: Config, ev: Event, r: nat)
    requires WellFormed(e.bodies, e.p, e.relied) && Sound(e.bodies, e.p, e.relied, m)
    requires Enabled(e.bodies, e.p, m, ev) && r < e.p.n
    ensures r !in AllTouched(e.bodies[m.sub]) + {e.p.loopReg, 0} || r == e.p.frame ==>
              Step(e.bodies, e.p, m, ev).s.regs[r] == m.s.regs[r]
  {
    hide Exec, Touched, AllTouched, TailStep, WellGenerated, Agrees;
    match ev
    case Next(o) =>
      NextChanges(e, m, o, r);
      EachTouched(e.bodies[m.sub], m.index);
    case Taken(t, o) =>
      NextChanges(e, m, o, r);
      EachTouched(e.bodies[m.sub], m.index);
    case Tail(t, address, o) =>
      if r != e.p.loopReg && r != 0 {
        TailChanges(e.p, m, t, address, o, r);
      }
  }

  lemma FollowsHolding(e: Env, active: set<nat>, m: Config, x: Stop)
    requires Ready(e) && Kinds(active) && Holding(e, m) && Follows(e, active, m, x)
    ensures Holding(e, x.after)
    ensures x.item.Irq? ==> x.after.s.regs == m.s.regs && x.after.s.flags == m.s.flags
  {
    hide I.ExecAct, I.ActFits, I.Legal, I.Short, I.InAreas, Mirrors, WellGenerated, Step, Enabled, Agrees, Activation;
    match x.item
    case Go(ev) =>
      EventSound(e.bodies, e.p, e.relied, m, ev);
      EventChanges(e, m, ev, e.p.frame);
    case Irq(_, act) =>
      var cpu :| Activation(e, cpu, act, active, m.s, x.after.s);
      ActivationEffect(e, cpu, act, active, m.s, x.after.s);
      SameKnown(KnownAt(e.bodies[m.sub], m.index, e.p), m.s, x.after.s);
      ReliedKept(e, act, m.s.mem, x.after.s.mem);
  }

  lemma SameKnown(k: Known, s: State, t: State)
    requires Agrees(k, s) && t.regs == s.regs && t.flags == s.flags
    ensures Agrees(k, t)
  {
  }

  lemma ReliedKept(e: Env, act: I.Act, mem: int -> Byte, mem': int -> Byte)
    requires AreasApart(e) && I.ActWrites(act) !! e.relied.Keys && MemAgrees(e.relied, mem)
    requires forall x :: !I.InAreas(e.isrs, e.base, x) && x !in I.ActWrites(act) ==> mem'(x) == mem(x)
    ensures MemAgrees(e.relied, mem')
  {
    hide I.InAreas, I.ActWrites;
  }

  /** In every run, with whatever interrupts between its steps, all that the generator
      marked known has its value, and the frame register stays as it is. */
  lemma {:induction false} TracedSound(e: Env, active: set<nat>, c: Config, trace: seq<Stop>)
    requires Ready(e) && Kinds(active) && Holding(e, c) && Traced(e, active, c, trace)
    ensures Holding(e, End(c, trace))
  {
    hide Ready, Holding, Follows;
    if trace != [] {
      var rest := trace[..|trace| - 1];
      TracedSound(e, active, c, rest);
      FollowsHolding(e, active, End(c, rest), trace[|trace| - 1]);
    }
  }

  // ----- what a run of one subroutine changes

  /** All steps are taken in one subroutine; only the last may leave it. */
  ghost predicate Within(c: Config, trace: seq<Stop>, b: nat) {
    trace == [] || (Within(c, trace[..|trace| - 1], b) && End(c, trace[..|trace| - 1]).sub == b)
  }

  /** In every run of a subroutine, however often it loops and is interrupted, only the
      registers its instructions touch, the loop register and r0 change. */
  lemma {:induction false} RoutineChanges(e: Env, active: set<nat>, c: Config, trace: seq<Stop>, b: nat, r: nat)
    requires Ready(e) && Kinds(active) && Holding(e, c) && Traced(e, active, c, trace)
    requires Within(c, trace, b) && b < |e.bodies| && r < e.p.n && r !in AllTouched(e.bodies[b]) + {e.p.loopReg, 0}
    ensures |End(c, trace).s.regs| == |c.s.regs| == e.p.n && End(c, trace).s.regs[r] == c.s.regs[r]
  {
    hide AllTouched, Step, Enabled, I.ActFits, I.Legal, I.Short, I.InAreas, AreasApart, Activation;
    if trace != [] {
      var rest, x := trace[..|trace| - 1], trace[|trace| - 1];
      RoutineChanges(e, active, c, rest, b, r);
      TracedSound(e, active, c, rest);
      FollowsHolding(e, active, End(c, rest), x);
      if x.item.Go? {
        EventChanges(e, End(c, rest), x.item.event, r);
      }
    }
  }

  // ----- the run as the body of an activation

  /** The bytes a step may store: an address and a number. */
  ghost function Stores(e: Env, m: Config, ev: Event): (int, nat) {
    if !ev.Tail? && Placed(e.bodies, e.p, m) && m.index < |e.bodies[m.sub]| then
      var i := e.bodies[m.sub][m.index].instr;
      if i.LoadStore? && Fits(i, e.p.n) && (!i.a.load || i.a.testSet) then (Address(m.s, i.a), BytesOf(i.a.size))
      else (0, 0)
    else (0, 0)
  }

  function LogBytes(body: I.Body, mem: int -> Byte, at: int, n: nat): I.Body {
    if n == 0 then body else I.Then(LogBytes(body, mem, at, n - 1), I.WriteMem(at + n - 1, mem(at + n - 1)))
  }

  function LogRegs(body: I.Body, list: seq<nat>, regs: seq<Word>): I.Body
    requires forall i :: 0 <= i < |list| ==> list[i] < |regs|
  {
    if list == [] then body
    else
      var last := list[|list| - 1];
      I.Then(LogRegs(body, list[..|list| - 1], regs), I.WriteReg(last, regs[last]))
  }

  /** A step as what it writes: the bytes it stores, the registers of the list, the status. */
  function Logged(body: I.Body, list: seq<nat>, at: int, n: nat, s: State): I.Body
    requires forall i :: 0 <= i < |list| ==> list[i] < |s.regs|
  {
    I.Then(LogRegs(LogBytes(body, s.mem, at, n), list, s.regs), I.WriteStatus(StatusOf(s.flags)))
  }

  /** A run after what the routine has done before it, with the interrupts in their places. */
  ghost function BodyOf(e: Env, k: nat, start: I.Body, c: Config, trace: seq<Stop>): I.Body
    requires k < |e.isrs.modified|
  {
    if trace == [] then start
    else
      var rest, x := trace[..|trace| - 1], trace[|trace| - 1];
      var before := BodyOf(e, k, start, c, rest);
      match x.item
      case Irq(pc, act) => I.Then(before, I.Interrupted(pc, act))
      case Go(ev) =>
        var (at, n) := Stores(e, End(c, rest), ev);
        var list := e.isrs.modified[k];
        if forall i :: 0 <= i < |list| ==> list[i] < |x.after.s.regs| then Logged(before, list, at, n, x.after.s)
        else before
  }

  lemma {:induction false} LogBytesIs(e: Env, saved: I.Cpu, k: nat, active: set<nat>, body: I.Body, mem: int -> Byte,
                                      at: int, n: nat)
    requires I.Legal(e.isrs) && k < I.MAX_NUM_INTER && |saved.regs| == e.isrs.n
    requires I.BodyFits(e.isrs, e.base, k, body, active)
    requires forall x :: at <= x < at + n ==> !I.InAreas(e.isrs, e.base, x)
    ensures I.BodyFits(e.isrs, e.base, k, LogBytes(body, mem, at, n), active)
    ensures var t := I.ExecBody(e.isrs, e.base, saved, k, LogBytes(body, mem, at, n), active);
            var b := I.ExecBody(e.isrs, e.base, saved, k, body, active);
            t == b.(mem := t.mem) && forall x :: t.mem(x) == if at <= x < at + n then mem(x) else b.mem(x)
    ensures forall x :: x in I.BodyWrites(LogBytes(body, mem, at, n)) ==> x in I.BodyWrites(body) || at <= x < at + n
  {
    hide I.Legal, I.InAreas, I.ActFits, I.ExecAct;
    if n > 0 {
      LogBytesIs(e, saved, k, active, body, mem, at, n - 1);
    }
  }

  lemma {:induction false} LogRegsIs(e: Env, saved: I.Cpu, k: nat, active: set<nat>, body: I.Body, list: seq<nat>,
                                     regs: seq<Word>)
    requires I.Legal(e.isrs) && k < I.MAX_NUM_INTER && |saved.regs| == |regs| == e.isrs.n
    requires I.BodyFits(e.isrs, e.base, k, body, active)
    requires forall i :: 0 <= i < |list| ==> list[i] < |regs| && list[i] in e.isrs.modified[k]
    ensures I.BodyFits(e.isrs, e.base, k, LogRegs(body, list, regs), active)
    ensures var t := I.ExecBody(e.isrs, e.base, saved, k, LogRegs(body, list, regs), active);
            var b := I.ExecBody(e.isrs, e.base, saved, k, body, active);
            && t == b.(regs := t.regs)
            && forall r :: 0 <= r < |regs| ==> t.regs[r] == if r in list then regs[r] else b.regs[r]
    ensures I.BodyWrites(LogRegs(body, list, regs)) == I.BodyWrites(body)
  {
    hide I.Legal, I.InAreas, I.ActFits, I.ExecAct;
    if list != [] {
      LogRegsIs(e, saved, k, active, body, list[..|list| - 1], regs);
      assert list == list[..|list| - 1] + [list[|list| - 1]];
    }
  }

  lemma ListBelow(e: Env, k: nat)
    requires I.Legal(e.isrs) && k < I.MAX_NUM_INTER
    ensures k < |e.isrs.modified| && k < |e.isrs.nesting| && e.isrs.frame < e.isrs.n
    ensures forall i :: 0 <= i < |e.isrs.modified[k]| ==> e.isrs.modified[k][i] < e.isrs.n
  {
  }

  /** A logged step takes the processor to a state that mirrors the one after it. */
  lemma LoggedMirrors(e: Env, saved: I.Cpu, k: nat, active: set<nat>, body: I.Body, at: int, n: nat, s: State, t: State)
    requires I.Legal(e.isrs) && e.isrs.n == e.p.n && k < I.MAX_NUM_INTER && |saved.regs| == |t.regs| == e.isrs.n
    requires I.BodyFits(e.isrs, e.base, k, body, active)
    requires Mirrors(e, I.ExecBody(e.isrs, e.base, saved, k, body, active), s)
    requires forall x :: at <= x < at + n ==> !I.InAreas(e.isrs, e.base, x)
    requires forall x :: !(at <= x < at + n) ==> t.mem(x) == s.mem(x)
    requires forall r :: 0 <= r < e.p.n && r !in e.isrs.modified[k] ==> t.regs[r] == s.regs[r]
    ensures forall i :: 0 <= i < |e.isrs.modified[k]| ==> e.isrs.modified[k][i] < |t.regs|
    ensures var log := Logged(body, e.isrs.modified[k], at, n, t);
            && I.BodyFits(e.isrs, e.base, k, log, active)
            && Mirrors(e, I.ExecBody(e.isrs, e.base, saved, k, log, active), t)
            && forall x :: x in I.BodyWrites(log) ==> x in I.BodyWrites(body) || at <= x < at + n
  {
    hide I.Legal, I.InAreas, I.ActFits, I.ExecAct, StatusOf;
    ListBelow(e, k);
    LogBytesIs(e, saved, k, active, body, t.mem, at, n);
    LogRegsIs(e, saved, k, active, LogBytes(body, t.mem, at, n), e.isrs.modified[k], t.regs);
  }

  /** A step stores only in bytes the generator gave it, none of them relied on or in a
      save area. */
  lemma EventStores(e: Env, m: Config, ev: Event)
    requires Ready(e) && Sound(e.bodies, e.p, e.relied, m) && Enabled(e.bodies, e.p, m, ev)
    ensures var (at, n) := Stores(e, m, ev);
            && (forall x :: at <= x < at + n ==> !I.InAreas(e.isrs, e.base, x) && x !in e.relied)
            && (forall x :: !(at <= x < at + n) ==> Step(e.bodies, e.p, m, ev).s.mem(x) == m.s.mem(x))
  {
    hide I.Legal, I.Short, I.InAreas, TailStep, Agrees, Address, KnownAddress;
    if ev.Tail? {
      TailMemory(e.p, m, ev.target, ev.address, ev.o);
    } else {
      var g := e.bodies[m.sub][m.index];
      assert WellGenerated(e.bodies[m.sub], e.p, e.relied);
      InstrStores(e, m.s, g, ev.o);
    }
  }

  lemma InstrStores(e: Env, s: State, g: Gen, o: Oracle)
    requires Produced(g, e.p.n, e.p.looping) && |s.regs| == e.p.n && Agrees(g.before, s) && KeepsTable(g, e.relied)
    ensures g.instr.LoadStore? && (!g.instr.a.load || g.instr.a.testSet) ==>
              forall x: int :: Address(s, g.instr.a) <= x < Address(s, g.instr.a) + BytesOf(g.instr.a.size) ==>
                x in g.writes && x !in e.relied
    ensures forall x ::
              (g.instr.LoadStore? && (!g.instr.a.load || g.instr.a.testSet) ==>
                 !(Address(s, g.instr.a) <= x < Address(s, g.instr.a) + BytesOf(g.instr.a.size)))
              ==> Exec(s, g.instr, o).mem(x) == s.mem(x)
  {
    hide Agrees, Address, KnownAddress, BytesOf, MemAfter, RegsLoaded, BaseAfter, AccessKnown, Compute, FlagsAfter;
    if g.instr.LoadStore? {
      AddressSound(g.before, g.instr.a, s);
      forall x | (!g.instr.a.load || g.instr.a.testSet) ==>
                   !(Address(s, g.instr.a) <= x < Address(s, g.instr.a) + BytesOf(g.instr.a.size))
        ensures Exec(s, g.instr, o).mem(x) == s.mem(x)
      {
        AccessFrame(g.instr.a, s, o, x);
      }
    }
  }

  // ----- generated routines

  /** The saved list covers what the routine's subroutine may change. */
  ghost predicate Covers(e: Env, k: nat, b: nat)
    requires k < |e.isrs.modified| && b < |e.bodies|
  {
    forall r :: r in AllTouched(e.bodies[b]) + {e.p.loopReg, 0} ==> r in e.isrs.modified[k]
  }

  /** Interrupts happen in a routine only where it allows them. */
  ghost predicate Nests(e: Env, k: nat, trace: seq<Stop>)
    requires k < |e.isrs.nesting|
  {
    forall i :: 0 <= i < |trace| && trace[i].item.Irq? ==> e.isrs.nesting[k]
  }

  /** The routine has been entered: its registers are saved, and start is what it has done
      since then. */
  ghost predicate Entered(e: Env, saved: I.Cpu, k: nat, active: set<nat>, start: I.Body, s: State)
    requires I.Legal(e.isrs) && e.isrs.n == e.p.n && k < I.MAX_NUM_INTER
  {
    && |saved.regs| == e.p.n && saved.regs[e.isrs.frame] == e.base && saved.enabled == e.isrs.nesting[k]
    && I.BodyFits(e.isrs, e.base, k, start, active) && I.BodyWrites(start) !! e.relied.Keys
    && Mirrors(e, I.ExecBody(e.isrs, e.base, saved, k, start, active), s)
  }

  lemma IrqMirrors(e: Env, saved: I.Cpu, k: nat, active: set<nat>, before: I.Body, m: Config, x: Stop)
    requires Ready(e) && Kinds(active) && k in active && k < I.MAX_NUM_INTER && e.isrs.nesting[k]
    requires Entered(e, saved, k, active, before, m.s) && Follows(e, active, m, x) && x.item.Irq?
    requires m.s.regs[e.p.frame] == e.base
    ensures Entered(e, saved, k, active, I.Then(before, I.Interrupted(x.item.pc, x.item.act)), x.after.s)
  {
    hide I.Legal, I.Short, I.InAreas, I.ExecAct, I.ActMem, StatusOf, WellFormed, AreasApart, I.ActFits, I.AreasKept,
        I.OthersKept;
    var b := I.ExecBody(e.isrs, e.base, saved, k, before, active);
    var act := x.item.act;
    var cpu :| Activation(e, cpu, act, active, m.s, x.after.s);
    ActivationEffect(e, cpu, act, active, m.s, x.after.s);
    I.BodyKeeps(e.isrs, e.base, saved, k, before, active);
    var b' := b.(iret := x.item.pc);
    I.ActRestores(e.isrs, b', act, active);
    forall a | !I.InAreas(e.isrs, e.base, a)
      ensures I.ExecAct(e.isrs, b', act, active).mem(a) == x.after.s.mem(a)
    {
      I.ActMemory(e.isrs, b', act, active, a);
      I.ActMemAt(b.mem, cpu.mem, act, a);
    }
  }

  lemma GoMirrors(e: Env, saved: I.Cpu, k: nat, active: set<nat>, before: I.Body, m: Config, x: Stop)
    requires Ready(e) && Kinds(active) && k < I.MAX_NUM_INTER && Holding(e, m)
    requires Entered(e, saved, k, active, before, m.s) && Follows(e, active, m, x) && x.item.Go?
    requires Covers(e, k, m.sub)
    ensures forall i :: 0 <= i < |e.isrs.modified[k]| ==> e.isrs.modified[k][i] < |x.after.s.regs|
    ensures var (at, n) := Stores(e, m, x.item.event);
            Entered(e, saved, k, active, Logged(before, e.isrs.modified[k], at, n, x.after.s), x.after.s)
  {
    hide I.Legal, I.Short, I.InAreas, I.ExecAct, StatusOf, WellFormed, AreasApart, I.BodyFits, I.ExecBody, Step, Stores,
        Enabled, AllTouched, Logged, Mirrors, I.BodyWrites;
    ListBelow(e, k);
    var (at, n) := Stores(e, m, x.item.event);
    EventStores(e, m, x.item.event);
    forall r | 0 <= r < e.p.n && r !in e.isrs.modified[k]
      ensures x.after.s.regs[r] == m.s.regs[r]
    {
      EventChanges(e, m, x.item.event, r);
    }
    LoggedMirrors(e, saved, k, active, before, at, n, m.s, x.after.s);
    forall a | a in I.BodyWrites(Logged(before, e.isrs.modified[k], at, n, x.after.s))
      ensures a !in e.relied.Keys
    {
    }
  }

  /** Every run of a generated routine is a body the interrupt code is made for: all it
      writes is in the saved list, and its memory is outside the save areas. */
  lemma {:induction false} RoutineFits(e: Env, saved: I.Cpu, k: nat, active: set<nat>, start: I.Body, c: Config,
                                       trace: seq<Stop>, b: nat)
    requires Ready(e) && Kinds(active) && k in active && k < I.MAX_NUM_INTER && Holding(e, c)
    requires Entered(e, saved, k, active, start, c.s) && Traced(e, active, c, trace) && Nests(e, k, trace)
    requires Within(c, trace, b) && b < |e.bodies| && Covers(e, k, b)
    ensures Entered(e, saved, k, active, BodyOf(e, k, start, c, trace), End(c, trace).s)
  {
    hide WellFormed, AreasApart, I.Short, Holding, Entered, Covers, Follows, Logged, Stores, I.Legal;
    ListBelow(e, k);
    if trace != [] {
      var rest, x := trace[..|trace| - 1], trace[|trace| - 1];
      RoutineFits(e, saved, k, active, start, c, rest, b);
      TracedSound(e, active, c, rest);
      RoutineStep(e, saved, k, active, BodyOf(e, k, start, c, rest), End(c, rest), x, b);
    }
  }

  lemma RoutineStep(e: Env, saved: I.Cpu, k: nat, active: set<nat>, before: I.Body, m: Config, x: Stop, b: nat)
    requires Ready(e) && Kinds(active) && k in active && k < I.MAX_NUM_INTER && Holding(e, m)
    requires Entered(e, saved, k, active, before, m.s) && Follows(e, active, m, x)
    requires x.item.Irq? ==> e.isrs.nesting[k]
    requires m.sub == b && b < |e.bodies| && Covers(e, k, b)
    ensures x.item.Irq? ==>
              Entered(e, saved, k, active, I.Then(before, I.Interrupted(x.item.pc, x.item.act)), x.after.s)
    ensures x.item.Go? ==>
              var (at, n) := Stores(e, m, x.item.event);
              (forall i :: 0 <= i < |e.isrs.modified[k]| ==> e.isrs.modified[k][i] < |x.after.s.regs|)
              && Entered(e, saved, k, active, Logged(before, e.isrs.modified[k], at, n, x.after.s), x.after.s)
  {
    hide Entered, Covers, Follows, Logged, Stores, I.Legal, WellFormed, AreasApart, I.Short;
    match x.item
    case Irq(_, _) => IrqMirrors(e, saved, k, active, before, m, x);
    case Go(_) => GoMirrors(e, saved, k, active, before, m, x);
  }

  /** Before its subroutine a routine writes only r0, r1 and the loop register. */
  ghost predicate Opening(p: Setup, body: I.Body) {
    match body
    case Idle => true
    case Then(before, step) => Opening(p, before) && (step.WriteReg? ==> step.r in {0, 1, p.loopReg})
  }

  lemma {:induction false} OpeningKeeps(e: Env, saved: I.Cpu, k: nat, active: set<nat>, start: I.Body, r: nat)
    requires I.Legal(e.isrs) && I.Short(e.isrs) && e.isrs.n == e.p.n && k < I.MAX_NUM_INTER && k in active
    requires Kinds(active) && |saved.regs| == e.p.n && saved.regs[e.isrs.frame] == e.base
    requires saved.enabled == e.isrs.nesting[k]
    requires I.BodyFits(e.isrs, e.base, k, start, active) && Opening(e.p, start)
    requires r < e.p.n && r !in {0, 1, e.p.loopReg}
    ensures I.ExecBody(e.isrs, e.base, saved, k, start, active).regs[r] == saved.regs[r]
  {
    hide I.Legal, I.Short, I.InAreas, I.ExecAct, I.ActFits, I.AreasKept, I.OthersKept;
    match start
    case Idle =>
    case Then(before, step) =>
      OpeningKeeps(e, saved, k, active, before, r);
      if step.Interrupted? {
        I.BodyKeeps(e.isrs, e.base, saved, k, before, active);
        var b := I.ExecBody(e.isrs, e.base, saved, k, before, active);
        I.ActRestores(e.isrs, b.(iret := step.pc), step.act, active);
      }
  }

  /** The processor after the save code. */
  ghost function Saved(e: Env, s: I.Cpu, k: nat): I.Cpu
    requires I.Legal(e.isrs) && k < I.MAX_NUM_INTER && |s.regs| == e.isrs.n
  {
    I.CodeOfFits(e.isrs, k);
    I.ExecCode(e.isrs.frame, s.(enabled := false), I.SaveCode(e.isrs, k))
  }

  lemma SavedIs(e: Env, s: I.Cpu, k: nat)
    requires I.Legal(e.isrs) && I.Short(e.isrs) && k < I.MAX_NUM_INTER && |s.regs| == e.isrs.n
    ensures var t := Saved(e, s, k);
            && |t.regs| == |s.regs| && t.enabled == e.isrs.nesting[k]
            && (forall r :: 1 < r < |s.regs| ==> t.regs[r] == s.regs[r])
            && (forall x :: !I.InAreas(e.isrs, s.regs[e.isrs.frame], x) ==> t.mem(x) == s.mem(x))
  {
    hide I.ExecCode, I.SaveCode, I.ContextIn, I.OthersKept, I.InAreas, I.OutsideKept;
    var entered := s.(enabled := false);
    I.CodeOfFits(e.isrs, k);
    I.SaveSaves(e.isrs, k, entered);
    var mem := I.SaveCodeIs(e.isrs, k, entered);
    forall x | !I.InAreas(e.isrs, s.regs[e.isrs.frame], x)
      ensures Saved(e, s, k).mem(x) == s.mem(x)
    {
      I.AreaOnly(e.isrs, s.regs[e.isrs.frame], k, Saved(e, s, k).mem, s.mem, x);
    }
  }

  /** When a program that holds is interrupted, the pointer registers and the bytes relied
      on are in place at the head of the routine's subroutine. */
  lemma EntryHolds(e: Env, d: Config, s: I.Cpu, k: nat, active: set<nat>, start: I.Body, c: Config)
    requires Ready(e) && Kinds(active) && k in active && k < I.MAX_NUM_INTER
    requires Holding(e, d) && Mirrors(e, s, d.s) && Opening(e.p, start)
    requires Entered(e, Saved(e, s, k), k, active, start, c.s) && c.sub < |e.bodies| && c.index == 0
    ensures Holding(e, c)
  {
    hide I.Legal, I.Short, I.InAreas, I.ExecAct, I.ActFits, I.BodyMem, I.BodyWrites, I.ExecBody, I.BodyFits, StatusOf,
        WellGenerated, Saved, Agrees;
    var saved := Saved(e, s, k);
    SavedIs(e, s, k);
    forall r | 0 <= r < e.p.n && r !in {0, 1, e.p.loopReg}
      ensures c.s.regs[r] == d.s.regs[r]
    {
      OpeningKeeps(e, saved, k, active, start, r);
    }
    assert WellGenerated(e.bodies[d.sub], e.p, e.relied);
    KnownIncludes(e.bodies[d.sub], d.index, e.p, e.relied);
    ConstsAgree(KnownAt(e.bodies[d.sub], d.index, e.p), e.p.consts, d.s);
    HeadsAgree(e.p, d.s, c.s);
    forall x | x in e.relied
      ensures c.s.mem(x) == e.relied[x]
    {
      I.BodyMemory(e.isrs, e.base, saved, k, start, active, x);
      I.BodyMemAt(saved.mem, saved.mem, start, x);
    }
  }

  lemma HeadsAgree(p: Setup, s: State, t: State)
    requires Agrees(HeadKnown(p.consts), s) && |s.regs| == |t.regs| == p.n
    requires p.loopReg !in p.consts && 0 !in p.consts && 1 !in p.consts
    requires forall r :: 0 <= r < p.n && r !in {0, 1, p.loopReg} ==> t.regs[r] == s.regs[r]
    ensures Agrees(HeadKnown(p.consts), t)
  {
  }

  /** A whole activation of a generated routine, cutting into a run at d: with whatever its
      subroutine does, and whatever interrupts that in turn, it is an interrupt of the kind
      the run may continue after, and it gives back all registers, the status and the
      return address. */
  lemma RoutineRestores(e: Env, d: Config, s: I.Cpu, k: nat, active: set<nat>, start: I.Body, c: Config,
                        trace: seq<Stop>, b: nat)
    requires Ready(e) && Kinds(active) && k !in active && k < I.MAX_NUM_INTER
    requires Holding(e, d) && Mirrors(e, s, d.s) && Opening(e.p, start)
    requires Entered(e, Saved(e, s, k), k, active + {k}, start, c.s) && c.sub == b && c.index == 0
    requires Traced(e, active + {k}, c, trace) && Nests(e, k, trace)
    requires Within(c, trace, b) && b < |e.bodies| && Covers(e, k, b)
    ensures var act := I.Act(k, BodyOf(e, k, start, c, trace));
            && s.regs[e.isrs.frame] == e.base && I.ActFits(e.isrs, e.base, act, active)
            && I.ActWrites(act) !! e.relied.Keys
            && var t := I.ExecAct(e.isrs, s, act, active);
               t.regs == s.regs && t.status == s.status && t.iret == s.iret
    ensures var act := I.Act(k, BodyOf(e, k, start, c, trace));
            forall t :: Mirrors(e, I.ExecAct(e.isrs, s, act, active), t) ==>
              Follows(e, active, d, Stop(Irq(s.iret, act), Config(d.sub, d.index, t)))
  {
    hide BodyOf, I.ExecBody, I.BodyFits, I.ExecAct, WellFormed, I.Legal, I.Short, AreasApart, Saved, I.InAreas,
        StatusOf, Agrees;
    ListBelow(e, k);
    EntryHolds(e, d, s, k, active + {k}, start, c);
    RoutineFits(e, Saved(e, s, k), k, active + {k}, start, c, trace, b);
    var act := I.Act(k, BodyOf(e, k, start, c, trace));
    I.ActRestores(e.isrs, s, act, active);
    forall t | Mirrors(e, I.ExecAct(e.isrs, s, act, active), t)
      ensures Follows(e, active, d, Stop(Irq(s.iret, act), Config(d.sub, d.index, t)))
    {
      assert Activation(e, s, act, active, d.s, t);
    }
  }
}
