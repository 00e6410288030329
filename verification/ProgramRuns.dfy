/** Runs of a generated program: whatever way control takes through its subroutines, and
    however often they loop, the machine agrees with what the generator knew. */
module ProgramRuns {
  import opened Accesses
  import opened Words
  import opened Machine
  import opened MachineLaws
  import opened Tracker
  import opened RegisterMoves

  /** A generated instruction with what was known before and after it, the recorded bytes
      it relies on and the addresses it may write. */
  datatype Gen = Gen(instr: Instr, before: Known, after: Known, safe: bool, bytes: map<int, Byte>, writes: set<int>)

  /** A linked branch loses the link register. */
  function AfterLink(k: Known, linked: bool): Known {
    if linked then Forget(k, 14) else k
  }

  /** The known values after an instruction follow from those before it. */
  ghost predicate Produced(g: Gen, n: nat, looping: bool) {
    && Fits(g.instr, n)
    && match g.instr
       case Dp(op, rd, rn, rhs) => g.after == DpKnown(g.before, op, rd, rn, rhs, looping)
       case LoadStore(a) =>
         && DestinationApart(a) && AddressKnown(g.before, a)
         && (a.load && g.safe ==> BytesRecorded(g.bytes, KnownAddress(g.before, a), 8))
         && g.after == AccessKnown(g.before, a, looping, g.safe, g.bytes)
         && (!a.load || a.testSet ==>
               forall j :: KnownAddress(g.before, a) <= j < KnownAddress(g.before, a) + BytesOf(a.size) ==>
                 j in g.writes)
       case Branch(linked) => g.after == AfterLink(g.before, linked)
       case FarBranch(rj, target, linked) => rj != 14 && g.after == AfterLink(Set(g.before, rj, target), linked)
       case _ => g.after == MoveKnown(g.before, g.instr)
  }

  /** One instruction: what is known stays right, and memory changes only where allowed. */
  lemma StepSound(g: Gen, n: nat, looping: bool, s: State, o: Oracle)
    requires Produced(g, n, looping) && |s.regs| == n && Agrees(g.before, s) && MemAgrees(g.bytes, s.mem)
    ensures Fits(g.instr, n) && Agrees(g.after, Exec(s, g.instr, o))
    ensures forall j :: j !in g.writes ==> Exec(s, g.instr, o).mem(j) == s.mem(j)
  {
    hide Agrees, DpKnown, MoveKnown, AccessKnown, KnownAddress, Address, RegsLoaded, BaseAfter;
    match g.instr
    case Dp(op, rd, rn, rhs) => DpSound(g.before, op, rd, rn, rhs, looping, s, o);
    case LoadStore(a) =>
      AccessSound(g.before, a, looping, g.safe, g.bytes, s, o);
      AddressSound(g.before, a, s);
      forall j | j !in g.writes
        ensures Exec(s, g.instr, o).mem(j) == s.mem(j)
      {
        AccessFrame(a, s, o, j);
      }
    case Branch(linked) =>
      SetAgrees(g.before, 14, o.value, s);
    case FarBranch(rj, target, linked) =>
      var t := s.(regs := s.regs[rj := target]);
      SetAgrees(g.before, rj, target, s);
      SetAgrees(Set(g.before, rj, target), 14, o.value, t);
    case _ => MoveSound(g.before, g.instr, s, o);
  }

  /** The registers that the instructions of a body may change. */
  function AllTouched(body: seq<Gen>): set<nat> {
    if body == [] then {}
    else AllTouched(body[..|body| - 1]) + Touched(body[|body| - 1].before, body[|body| - 1].instr)
  }

  lemma {:induction false} EachTouched(body: seq<Gen>, i: nat)
    requires i < |body|
    ensures Touched(body[i].before, body[i].instr) <= AllTouched(body)
  {
    hide Touched;
    if i < |body| - 1 {
      EachTouched(body[..|body| - 1], i);
    }
  }

  lemma TouchedMore(body: seq<Gen>, g: Gen)
    ensures AllTouched(body + [g]) == AllTouched(body) + Touched(g.before, g.instr)
  {
    hide Touched;
    assert (body + [g])[..|body|] == body;
  }

  // ----- programs

  /** Registers with these values are known. */
  ghost predicate Includes(k: Known, consts: map<nat, Word>) {
    forall r :: r in consts ==> r in k.regs && k.regs[r] == consts[r]
  }

  /** Known at the start of every subroutine: the pointer registers. */
  function HeadKnown(consts: map<nat, Word>): Known {
    Known(consts, Unknown, Unknown, Unknown, Unknown, Unknown)
  }

  /** Recorded bytes hold in the table of all of them, and no write touches that table. */
  ghost predicate KeepsTable(g: Gen, relied: map<int, Byte>) {
    && (forall j :: j in g.bytes ==> j in relied && relied[j] == g.bytes[j])
    && (forall j :: j in g.writes ==> j !in relied)
  }

  /** Registers, pointer registers, and the loop and the frame register. */
  datatype Setup = Setup(n: nat, looping: bool, consts: map<nat, Word>, loopReg: nat, frame: nat, loopCount: Word)

  /** What is known before instruction i of a body, and at its end. */
  function KnownAt(body: seq<Gen>, i: nat, p: Setup): Known
    requires i <= |body|
  {
    if i == 0 then HeadKnown(p.consts) else body[i - 1].after
  }

  ghost predicate WellGenerated(body: seq<Gen>, p: Setup, relied: map<int, Byte>) {
    forall i :: 0 <= i < |body| ==>
      && Produced(body[i], p.n, p.looping) && KeepsTable(body[i], relied)
      && body[i].before == KnownAt(body, i, p)
      && Includes(body[i].after, p.consts)
      && p.frame !in Touched(body[i].before, body[i].instr)
  }

  ghost predicate WellFormed(bodies: seq<seq<Gen>>, p: Setup, relied: map<int, Byte>) {
    && p.loopReg < p.n && 1 < p.frame < p.n && p.frame != p.loopReg
    && p.loopReg !in p.consts && 0 !in p.consts && 1 !in p.consts
    && forall k :: 0 <= k < |bodies| ==> WellGenerated(bodies[k], p, relied)
  }

  // ----- runs

  datatype Config = Config(sub: nat, index: nat, s: State)

  /** One step of a run: the next instruction of the body, or a branch taken out of it to
      the start of any subroutine, or the tail of the subroutine with the address it
      finally jumps to. */
  datatype Event = Next(o: Oracle) | Taken(target: nat, o: Oracle) | Tail(target: nat, address: Word, o: Oracle)

  predicate Placed(bodies: seq<seq<Gen>>, p: Setup, c: Config) {
    c.sub < |bodies| && c.index <= |bodies[c.sub]| && |c.s.regs| == p.n
  }

  predicate IsBranch(i: Instr) {
    i.Branch? || i.FarBranch?
  }

  /** The event is possible in this configuration. */
  predicate Enabled(bodies: seq<seq<Gen>>, p: Setup, c: Config, e: Event)
    requires Placed(bodies, p, c)
  {
    match e
    case Next(_) => c.index < |bodies[c.sub]| && Fits(bodies[c.sub][c.index].instr, p.n)
    case Taken(t, _) =>
      c.index < |bodies[c.sub]| && IsBranch(bodies[c.sub][c.index].instr)
      && Fits(bodies[c.sub][c.index].instr, p.n) && t < |bodies|
    case Tail(t, _, _) => c.index == |bodies[c.sub]| && t < |bodies| && p.loopReg < p.n && 0 < p.n
  }

  /** The end of a subroutine: count down and go back to its start until zero; then
      reload the counter and jump on through r0. */
  function TailStep(p: Setup, c: Config, target: nat, address: Word, o: Oracle): (d: Config)
    requires p.loopReg < p.n && 0 < p.n && |c.s.regs| == p.n
    ensures |d.s.regs| == p.n
  {
    var counted := Exec(c.s, Dp(SUB, p.loopReg, p.loopReg, Imm(1)), o);
    if !counted.flags.az then Config(c.sub, 0, counted)
    else Config(target, 0, Exec(Exec(counted, MovImm(p.loopReg, p.loopCount), o), MovImm(0, address), o))
  }

  function Step(bodies: seq<seq<Gen>>, p: Setup, c: Config, e: Event): (d: Config)
    requires Placed(bodies, p, c) && Enabled(bodies, p, c, e)
    ensures Placed(bodies, p, d)
  {
    match e
    case Next(o) => Config(c.sub, c.index + 1, Exec(c.s, bodies[c.sub][c.index].instr, o))
    case Taken(t, o) => Config(t, 0, Exec(c.s, bodies[c.sub][c.index].instr, o))
    case Tail(t, address, o) => TailStep(p, c, t, address, o)
  }

  /** c can reach d by these events. */
  ghost predicate Runs(bodies: seq<seq<Gen>>, p: Setup, c: Config, es: seq<Event>, d: Config) {
    Placed(bodies, p, c)
    && if es == [] then d == c
       else exists m :: Runs(bodies, p, c, es[..|es| - 1], m) && Placed(bodies, p, m)
                        && Enabled(bodies, p, m, es[|es| - 1]) && d == Step(bodies, p, m, es[|es| - 1])
  }

  /** Everything the generator knows here is so, and memory holds all recorded bytes. */
  ghost predicate Sound(bodies: seq<seq<Gen>>, p: Setup, relied: map<int, Byte>, c: Config) {
    Placed(bodies, p, c) && Agrees(KnownAt(bodies[c.sub], c.index, p), c.s) && MemAgrees(relied, c.s.mem)
  }

  lemma SoundPlaced(bodies: seq<seq<Gen>>, p: Setup, relied: map<int, Byte>, c: Config)
    requires Sound(bodies, p, relied, c)
    ensures Placed(bodies, p, c)
  {
  }

  lemma ConstsAgree(k: Known, consts: map<nat, Word>, s: State)
    requires Agrees(k, s) && Includes(k, consts)
    ensures Agrees(HeadKnown(consts), s)
  {
  }

  /** Registers other than these keep the pointer registers' values. */
  lemma HeadKept(consts: map<nat, Word>, s: State, r: nat, v: Word, f: Flags)
    requires Agrees(HeadKnown(consts), s) && r !in consts && r < |s.regs|
    ensures Agrees(HeadKnown(consts), s.(regs := s.regs[r := v], flags := f))
  {
  }

  lemma KnownIncludes(body: seq<Gen>, i: nat, p: Setup, relied: map<int, Byte>)
    requires WellGenerated(body, p, relied) && i <= |body|
    ensures Includes(KnownAt(body, i, p), p.consts)
  {
  }

  lemma TailSound(p: Setup, c: Config, target: nat, address: Word, o: Oracle)
    requires p.loopReg < p.n && 0 < p.n && |c.s.regs| == p.n && p.loopReg !in p.consts && 0 !in p.consts
    requires Agrees(HeadKnown(p.consts), c.s)
    ensures var d := TailStep(p, c, target, address, o);
            Agrees(HeadKnown(p.consts), d.s) && d.s.mem == c.s.mem && d.index == 0
  {
    hide Agrees, Compute, FlagsAfter;
    var counted := Exec(c.s, Dp(SUB, p.loopReg, p.loopReg, Imm(1)), o);
    HeadKept(p.consts, c.s, p.loopReg, counted.regs[p.loopReg], counted.flags);
    assert counted == c.s.(regs := c.s.regs[p.loopReg := counted.regs[p.loopReg]], flags := counted.flags);
    var reloaded := Exec(counted, MovImm(p.loopReg, p.loopCount), o);
    HeadKept(p.consts, counted, p.loopReg, p.loopCount, counted.flags);
    HeadKept(p.consts, reloaded, 0, address, reloaded.flags);
  }

  /** An instruction of a body, in a sound configuration. */
  lemma InstructionSound(bodies: seq<seq<Gen>>, p: Setup, relied: map<int, Byte>, c: Config, o: Oracle)
    requires WellFormed(bodies, p, relied) && Sound(bodies, p, relied, c) && c.index < |bodies[c.sub]|
    ensures var g := bodies[c.sub][c.index];
            && Fits(g.instr, p.n) && Agrees(g.after, Exec(c.s, g.instr, o))
            && MemAgrees(relied, Exec(c.s, g.instr, o).mem) && Includes(g.after, p.consts)
  {
    hide Agrees, Exec, Produced, Includes;
    var g := bodies[c.sub][c.index];
    assert WellGenerated(bodies[c.sub], p, relied);
    StepSound(g, p.n, p.looping, c.s, o);
  }

  lemma EventSound(bodies: seq<seq<Gen>>, p: Setup, relied: map<int, Byte>, c: Config, e: Event)
    requires WellFormed(bodies, p, relied) && Sound(bodies, p, relied, c) && Enabled(bodies, p, c, e)
    ensures Sound(bodies, p, relied, Step(bodies, p, c, e))
  {
    hide Agrees, Exec, Includes, MemAgrees, WellGenerated, TailStep;
    match e
    case Next(o) => InstructionSound(bodies, p, relied, c, o);
    case Taken(t, o) =>
      InstructionSound(bodies, p, relied, c, o);
      ConstsAgree(bodies[c.sub][c.index].after, p.consts, Exec(c.s, bodies[c.sub][c.index].instr, o));
    case Tail(t, address, o) =>
      KnownIncludes(bodies[c.sub], c.index, p, relied);
      ConstsAgree(KnownAt(bodies[c.sub], c.index, p), p.consts, c.s);
      TailSound(p, c, t, address, o);
  }

  /** In every run, at every point, on every iteration: what the generator marked known
      has the value it recorded. */
  lemma {:induction false} RunSound(bodies: seq<seq<Gen>>, p: Setup, relied: map<int, Byte>, c: Config,
      es: seq<Event>, d: Config)
    requires WellFormed(bodies, p, relied) && Sound(bodies, p, relied, c) && Runs(bodies, p, c, es, d)
    ensures Sound(bodies, p, relied, d)
  {
    hide WellFormed, Sound, Step, Enabled;
    if es != [] {
      var m :| Runs(bodies, p, c, es[..|es| - 1], m) && Placed(bodies, p, m)
               && Enabled(bodies, p, m, es[|es| - 1]) && d == Step(bodies, p, m, es[|es| - 1]);
      RunSound(bodies, p, relied, c, es[..|es| - 1], m);
      EventSound(bodies, p, relied, m, es[|es| - 1]);
    }
  }

  /** A byte that no instruction may write stays as it is. */
  lemma {:induction false} RunFrame(bodies: seq<seq<Gen>>, p: Setup, relied: map<int, Byte>, c: Config,
      es: seq<Event>, d: Config, a: int)
    requires WellFormed(bodies, p, relied) && Sound(bodies, p, relied, c) && Runs(bodies, p, c, es, d)
    requires forall k, i :: 0 <= k < |bodies| && 0 <= i < |bodies[k]| ==> a !in bodies[k][i].writes
    ensures d.s.mem(a) == c.s.mem(a)
  {
    hide WellFormed, Sound, Step, Enabled;
    if es != [] {
      var m :| Runs(bodies, p, c, es[..|es| - 1], m) && Placed(bodies, p, m)
               && Enabled(bodies, p, m, es[|es| - 1]) && d == Step(bodies, p, m, es[|es| - 1]);
      RunFrame(bodies, p, relied, c, es[..|es| - 1], m, a);
      RunSound(bodies, p, relied, c, es[..|es| - 1], m);
      EventFrame(bodies, p, relied, m, es[|es| - 1], a);
    }
  }

  lemma EventFrame(bodies: seq<seq<Gen>>, p: Setup, relied: map<int, Byte>, c: Config, e: Event, a: int)
    requires WellFormed(bodies, p, relied) && Sound(bodies, p, relied, c) && Enabled(bodies, p, c, e)
    requires forall k, i :: 0 <= k < |bodies| && 0 <= i < |bodies[k]| ==> a !in bodies[k][i].writes
    ensures Step(bodies, p, c, e).s.mem(a) == c.s.mem(a)
  {
    hide Agrees, Exec, Includes, Produced, TailStep;
    match e
    case Tail(t, address, o) => TailMemory(p, c, t, address, o);
    case Next(o) =>
      assert WellGenerated(bodies[c.sub], p, relied);
      StepSound(bodies[c.sub][c.index], p.n, p.looping, c.s, o);
    case Taken(_, o) =>
      assert WellGenerated(bodies[c.sub], p, relied);
      StepSound(bodies[c.sub][c.index], p.n, p.looping, c.s, o);
  }

  lemma TailMemory(p: Setup, c: Config, target: nat, address: Word, o: Oracle)
    requires p.loopReg < p.n && 0 < p.n && |c.s.regs| == p.n
    ensures TailStep(p, c, target, address, o).s.mem == c.s.mem
  {
    hide Compute, FlagsAfter;
  }

  /** In every run a load or store goes to the address it was generated for, and a
      protected load brings the recorded bytes. */
  lemma RunAddresses(bodies: seq<seq<Gen>>, p: Setup, relied: map<int, Byte>, c: Config, es: seq<Event>, d: Config)
    requires WellFormed(bodies, p, relied) && Sound(bodies, p, relied, c) && Runs(bodies, p, c, es, d)
    requires d.sub < |bodies| && d.index < |bodies[d.sub]| && bodies[d.sub][d.index].instr.LoadStore?
    ensures var g := bodies[d.sub][d.index];
            && Fits(g.instr, |d.s.regs|) && AddressKnown(g.before, g.instr.a)
            && Address(d.s, g.instr.a) == KnownAddress(g.before, g.instr.a)
            && (g.instr.a.load && g.safe ==>
                  forall j :: KnownAddress(g.before, g.instr.a) <= j < KnownAddress(g.before, g.instr.a) + 8 ==>
                    j in g.bytes && d.s.mem(j) == g.bytes[j])
  {
    hide KnownAddress, Agrees, AccessKnown, Address;
    RunSound(bodies, p, relied, c, es, d);
    var g := bodies[d.sub][d.index];
    assert WellGenerated(bodies[d.sub], p, relied);
    AddressSound(g.before, g.instr.a, d.s);
  }

  // ----- runs go on, and loops end

  /** From everywhere a run goes on: there is a next instruction or the tail, and a branch
      may be taken to any subroutine. */
  lemma RunsGoOn(bodies: seq<seq<Gen>>, p: Setup, relied: map<int, Byte>, c: Config, t: nat, address: Word, o: Oracle)
    requires WellFormed(bodies, p, relied) && Placed(bodies, p, c) && t < |bodies|
    ensures if c.index < |bodies[c.sub]| then Enabled(bodies, p, c, Next(o))
            else Enabled(bodies, p, c, Tail(t, address, o))
    ensures c.index < |bodies[c.sub]| && IsBranch(bodies[c.sub][c.index].instr) ==> Enabled(bodies, p, c, Taken(t, o))
  {
    if c.index < |bodies[c.sub]| {
      assert WellGenerated(bodies[c.sub], p, relied);
      assert Produced(bodies[c.sub][c.index], p.n, p.looping);
    }
  }

  /** At the end of a subroutine the loop register goes down by one: back to the head, or,
      from one, on to the target with the register reloaded and the address in r0. */
  lemma TailCounts(p: Setup, c: Config, target: nat, address: Word, o: Oracle)
    requires p.loopReg < p.n && 0 < p.n && |c.s.regs| == p.n
    ensures var d, v := TailStep(p, c, target, address, o), c.s.regs[p.loopReg];
            && d.index == 0
            && (v == 1 ==> d.sub == target && d.s.regs[0] == address
                           && (p.loopReg != 0 ==> d.s.regs[p.loopReg] == p.loopCount))
            && (v != 1 ==> d.sub == c.sub && d.s.regs[p.loopReg] == if v == 0 then BASE - 1 else v - 1)
  {
    hide Holds, CarryOf, OverflowOf;
    var v := c.s.regs[p.loopReg];
    ComputeIsResult(SUB, v, 1, o.value, Compute(SUB, v, 1, o.value));
    FlagsMean(c.s.flags, SUB, v, 1, o);
    assert Wrap32(1) == 1;
  }

  /** How often the tail has been run. */
  function Tails(es: seq<Event>): (n: nat)
    ensures n <= |es|
  {
    if es == [] then 0 else Tails(es[..|es| - 1]) + if es[|es| - 1].Tail? then 1 else 0
  }

  /** A subroutine none of whose instructions touches the loop register, entered with v in
      it, runs v times, unless a branch is taken out of it: each time through its tail the
      register is one lower, and before the v-th it is not left. */
  lemma {:induction false} LoopCounts(bodies: seq<seq<Gen>>, p: Setup, relied: map<int, Byte>, c: Config,
      es: seq<Event>, d: Config)
    requires WellFormed(bodies, p, relied) && Sound(bodies, p, relied, c) && Runs(bodies, p, c, es, d)
    requires p.loopReg !in AllTouched(bodies[c.sub]) && (forall i :: 0 <= i < |es| ==> !es[i].Taken?)
    requires Tails(es) < c.s.regs[p.loopReg]
    ensures d.sub == c.sub && |d.s.regs| == p.n && d.s.regs[p.loopReg] == c.s.regs[p.loopReg] - Tails(es)
  {
    hide Agrees, Exec, WellGenerated, Touched, AllTouched, TailStep, MemAgrees;
    if es != [] {
      var last := es[|es| - 1];
      var m :| Runs(bodies, p, c, es[..|es| - 1], m) && Placed(bodies, p, m)
               && Enabled(bodies, p, m, last) && d == Step(bodies, p, m, last);
      LoopCounts(bodies, p, relied, c, es[..|es| - 1], m);
      if last.Tail? {
        TailCounts(p, m, last.target, last.address, last.o);
      } else {
        RunSound(bodies, p, relied, c, es[..|es| - 1], m);
        LoopRegisterKept(bodies[m.sub], m.index, p, relied, m.s, last.o);
      }
    }
  }

  lemma LoopRegisterKept(body: seq<Gen>, i: nat, p: Setup, relied: map<int, Byte>, s: State, o: Oracle)
    requires WellGenerated(body, p, relied) && i < |body| && |s.regs| == p.n && p.loopReg < p.n
    requires Agrees(KnownAt(body, i, p), s) && p.loopReg !in AllTouched(body)
    ensures Fits(body[i].instr, p.n) && Exec(s, body[i].instr, o).regs[p.loopReg] == s.regs[p.loopReg]
  {
    hide Agrees, Exec, Includes, Touched, AllTouched;
    EachTouched(body, i);
    OthersUntouched(body[i].before, body[i].instr, s, o, p.loopReg);
  }
}
