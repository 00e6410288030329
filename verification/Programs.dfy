/** igen's program generation: subroutines filled instruction by instruction, each from
    scratch knowledge of the pointer registers only (igen/main.cpp). */
module Programs {
  import opened Accesses
  import opened Words
  import opened Ranges
  import opened Machine
  import opened Tracker
  import opened Registers
  import opened ProgramRuns
  import opened StartCode
  import MM = MemManager
  import DataProcessing
  import LoadStores
  import Interrupts
  import IR = InterruptRuns

  const PROGRAM_START: int := 0x100
  const SECTION_OFFSET: int := 8
  const SUBROUTINE_SIZE: int := MM.MAX_SUB_ROUTINE_SIZE - (12 + 12)
  const ISR_SIZE: int := 64
  /** What is emitted behind the instructions of a subroutine: the loop and the jump on. */
  const TAIL_SIZE: int := 12 + 12

  /** A draw that is an instruction whatever the state is. */
  predicate PlainDraw(d: Draw) {
    d.DrawDp? || d.DrawMove?
  }

  function PlainInstr(d: Draw): Instr
    requires PlainDraw(d)
  {
    match d case DrawDp(op, rd, rn, rhs) => Dp(op, rd, rn, rhs) case DrawMove(i) => i
  }

  predicate AllPlain(draws: seq<Draw>) {
    forall u :: 0 <= u < |draws| ==> PlainDraw(draws[u])
  }

  function PlainCode(draws: seq<Draw>): (r: seq<Instr>)
    requires AllPlain(draws)
    ensures |r| == |draws| && forall u :: 0 <= u < |draws| ==> r[u] == PlainInstr(draws[u])
  {
    seq(|draws|, u requires 0 <= u < |draws| => PlainInstr(draws[u]))
  }

  /** The random choice of an instruction. */
  datatype Draw =
    | DrawDp(op: DpOp, rd: nat, rn: nat, rhs: Operand)
    | DrawMove(i: Instr)
    | DrawAccess(d: LoadStores.Draws)
    | DrawBranch(linked: bool, rangeInd: nat, offset: nat, rj: nat)

  /** The instruction is one of the drawn kind. */
  predicate IsFrom(d: Draw, i: Instr) {
    match d
    case DrawAccess(a) => i.LoadStore? && i.a.load == a.load
    case DrawBranch(_, _, _, _) => IsBranch(i)
    case _ => i == PlainInstr(d)
  }

  /** A draw becomes one instruction, an access only when a known register leads to a free
      address in a way the generator may use. */
  ghost predicate Answered(d: Draw, out: seq<Instr>, k: Known, w: Window, p: MM.Pool) {
    && (if d.DrawAccess? then out == [] <==> LoadStores.Stuck(k, w, p, d.d) else out != [])
    && |out| <= 1 && (out != [] ==> IsFrom(d, out[0]))
  }

  /** The code has, in order, an instruction for each draw; only branches and accesses may
      be left out. */
  ghost predicate Follows(draws: seq<Draw>, code: seq<Instr>) {
    if draws == [] then code == []
    else
      var n, d := |draws| - 1, draws[|draws| - 1];
      || (!PlainDraw(d) && Follows(draws[..n], code))
      || (code != [] && IsFrom(d, code[|code| - 1]) && Follows(draws[..n], code[..|code| - 1]))
  }

  lemma FollowsNone()
    ensures Follows([], [])
  {
  }

  lemma FollowsMore(draws: seq<Draw>, u: nat, code: seq<Instr>, code': seq<Instr>, k: Known, w: Window, p: MM.Pool)
    requires u < |draws| && Follows(draws[..u], code) && code <= code'
    requires (draws[u].DrawBranch? && code' == code) || Answered(draws[u], code'[|code|..], k, w, p)
    ensures Follows(draws[..u + 1], code')
  {
    hide LoadStores.Stuck;
    var out := code'[|code|..];
    assert code' == code + out;
    assert draws[..u + 1][..u] == draws[..u];
    assert code + [] == code;
    if out != [] {
      assert (code + out)[..|code|] == code;
    }
  }

  lemma {:induction false} PlainFollows(draws: seq<Draw>, code: seq<Instr>)
    requires AllPlain(draws) && Follows(draws, code)
    ensures code == PlainCode(draws)
  {
    if draws != [] {
      var n := |draws| - 1;
      PlainFollows(draws[..n], code[..|code| - 1]);
    }
  }

  /** A body of the draws up to some point: the last one, or where space or memory ran out. */
  ghost predicate FilledFrom(draws: seq<Draw>, code: seq<Instr>, size: nat, noMemory: bool) {
    exists used: nat :: used <= |draws| && Follows(draws[..used], code)
                        && (used == |draws| || CodeSize(code) >= size - SECTION_OFFSET || noMemory)
  }

  predicate FreeIn(w: Window, r: nat) {
    r < w.nregs && !(w.first <= r <= w.second)
  }

  /** The constraints of the instruction generators on their choices. */
  ghost predicate DrawAllowed(d: Draw, w: Window) {
    match d
    case DrawDp(op, rd, rn, rhs) => FreeIn(w, rd) && Fits(Dp(op, rd, rn, rhs), w.nregs)
    case DrawMove(i) =>
      RegisterMoves.IsMove(i) && Fits(i, w.nregs) && (!i.Special? ==> FreeIn(w, RegisterMoves.Destination(i)))
    case DrawAccess(a) => LoadStores.DrawsAllowed(a, w)
    case DrawBranch(_, _, _, rj) => FreeIn(w, rj) && rj != 14
  }

  /** What recording an instruction adds to the bytes relied on. */
  function Relying(relied: map<int, Byte>, g: Gen): map<int, Byte> {
    relied + g.bytes
  }

  /** Recorded bytes relied on are used addresses, and no instruction writes them. */
  ghost predicate Kept(g: Gen, relied: map<int, Byte>, used: set<int>) {
    KeepsTable(g, relied) && forall j :: j in g.writes ==> j in used
  }

  ghost predicate AllKept(body: seq<Gen>, relied: map<int, Byte>, used: set<int>) {
    forall i :: 0 <= i < |body| ==> Kept(body[i], relied, used)
  }

  /** A new instruction with fresh addresses leaves the others as they are. */
  lemma KeptGrows(h: Gen, relied: map<int, Byte>, used: set<int>, g: Gen, used': set<int>)
    requires Kept(h, relied, used) && used <= used'
    requires forall j :: j in g.bytes ==> j !in used && j in used'
    requires forall j :: j in relied ==> j in used
    ensures Kept(h, Relying(relied, g), used')
  {
  }

  lemma AllKeptGrows(body: seq<Gen>, relied: map<int, Byte>, used: set<int>, g: Gen, used': set<int>)
    requires AllKept(body, relied, used) && Fresh(g, used, used') && forall j :: j in relied ==> j in used
    ensures AllKept(body, Relying(relied, g), used')
  {
    forall i | 0 <= i < |body|
      ensures Kept(body[i], Relying(relied, g), used')
    {
      KeptGrows(body[i], relied, used, g, used');
    }
  }

  lemma EachKept(bodies: seq<seq<Gen>>, relied: map<int, Byte>, used: set<int>, g: Gen, used': set<int>)
    requires Fresh(g, used, used') && forall j :: j in relied ==> j in used
    ensures forall k :: 0 <= k < |bodies| && AllKept(bodies[k], relied, used) ==>
              AllKept(bodies[k], Relying(relied, g), used')
  {
    hide AllKept, Fresh;
    forall k | 0 <= k < |bodies| && AllKept(bodies[k], relied, used)
      ensures AllKept(bodies[k], Relying(relied, g), used')
    {
      AllKeptGrows(bodies[k], relied, used, g, used');
    }
  }

  /** The body grows by the new instruction. */
  lemma AllKeptMore(body: seq<Gen>, relied: map<int, Byte>, used: set<int>, g: Gen, used': set<int>)
    requires AllKept(body, relied, used) && Fresh(g, used, used') && forall j :: j in relied ==> j in used
    ensures AllKept(body + [g], Relying(relied, g), used')
  {
    AllKeptGrows(body, relied, used, g, used');
    assert Kept(g, Relying(relied, g), used');
    assert forall i :: 0 <= i < |body + [g]| ==> (body + [g])[i] == if i < |body| then body[i] else g;
  }

  /** A body in which each instruction starts from what the one before left known. */
  ghost predicate Chained(body: seq<Gen>, p: Setup) {
    forall i :: 0 <= i < |body| ==>
      && Produced(body[i], p.n, p.looping) && body[i].before == KnownAt(body, i, p)
      && Includes(body[i].after, p.consts) && p.frame !in Touched(body[i].before, body[i].instr)
  }

  /** Bytes an emitted instruction counts for: a far branch is three instructions. */
  function SizeOf(i: Instr): nat {
    if i.FarBranch? then 12 else 4
  }

  function CodeSize(code: seq<Instr>): nat {
    if code == [] then 0 else CodeSize(code[..|code| - 1]) + SizeOf(code[|code| - 1])
  }

  lemma CodeSizeMore(code: seq<Instr>, out: seq<Instr>)
    requires |out| <= 1
    ensures CodeSize(code + out) == CodeSize(code) + if out == [] then 0 else SizeOf(out[0])
    ensures CodeSize([]) == 0
  {
    if out == [] {
      assert code + out == code;
    } else {
      assert code + out == code + [out[0]] && (code + [out[0]])[..|code|] == code;
    }
  }

  /** The addresses a subroutine's code may take. */
  function CodeRange(start: int): set<int> {
    MM.Addresses(Range(start, start + MM.MAX_SUB_ROUTINE_SIZE - 1))
  }

  /** Subroutines lie in the addresses set aside for code, and apart from each other. */
  ghost predicate Apart(starts: seq<int>, codeAddrs: set<int>) {
    && (forall i :: 0 <= i < |starts| ==> CodeRange(starts[i]) <= codeAddrs)
    && (forall i, j :: 0 <= i < j < |starts| ==> CodeRange(starts[i]) !! CodeRange(starts[j]))
  }

  /** A start in addresses that were not code before. */
  lemma ApartMore(a: seq<int>, b: seq<int>, codeAddrs: set<int>, more: set<int>, start: int)
    requires Apart(a + b, codeAddrs) && codeAddrs <= more
    requires CodeRange(start) <= more && CodeRange(start) !! codeAddrs
    ensures Apart(a + [start] + b, more)
  {
    hide CodeRange;
    var s, t := a + b, a + [start] + b;
    forall i | 0 <= i < |t|
      ensures CodeRange(t[i]) <= more
      ensures i != |a| ==> CodeRange(t[i]) <= codeAddrs
    {
      assert i != |a| ==> t[i] == s[if i < |a| then i else i - 1];
    }
    forall i, j | 0 <= i < j < |t|
      ensures CodeRange(t[i]) !! CodeRange(t[j])
    {
      if i != |a| && j != |a| {
        assert t[i] == s[if i < |a| then i else i - 1] && t[j] == s[if j < |a| then j else j - 1];
      }
    }
  }

  /** How the allocator gives a subroutine its range: at an address the solver may choose,
      moved up to an even one. */
  ghost predicate TakenFor(p: MM.Pool, p': MM.Pool, start: int) {
    exists ind: nat, first: int ::
      && ind < |p.fetch| && MM.Solves(p.fetch[ind], first, MM.MAX_SUB_ROUTINE_SIZE)
      && p' == MM.Serve(p, MM.ByJump(ind, first)).0
      && first <= start <= first + 1 && start % 2 == 0
  }

  /** The target is too far away for an offset in the instruction. */
  predicate Far(target: Word, cpc: int) {
    var distance := Signed32(Wrap32(target - cpc));
    (if distance < 0 then -distance else distance) >= 0x10_0000
  }

  /** An offset from the branch leads to the target. */
  predicate LeadsTo(cpc: int, offset: int, target: Word) {
    Wrap32(cpc + offset) == target
  }

  /** Which is: no offset below 2^20 either way leads there. */
  lemma FarIff(target: Word, cpc: int)
    ensures Far(target, cpc) <==> forall d: int :: -0x10_0000 < d < 0x10_0000 ==> !LeadsTo(cpc, d, target)
  {
    var distance := Signed32(Wrap32(target - cpc));
    DivModDef(target - cpc, BASE);
    OffsetLeads(cpc, distance, target);
    forall d: int | -0x10_0000 < d < 0x10_0000 && LeadsTo(cpc, d, target)
      ensures d == distance
    {
      DivModDef(cpc + d, BASE);
      DivModUnique(target - cpc, BASE, 0 - (cpc + d) / BASE + (if d < 0 then -1 else 0), if d < 0 then d + BASE else d);
    }
  }

  lemma OffsetLeads(cpc: int, distance: int, target: Word)
    requires distance == Signed32(Wrap32(target - cpc))
    ensures LeadsTo(cpc, distance, target)
  {
    DivModDef(target - cpc, BASE);
    var q := (target - cpc) / BASE;
    DivModUnique(cpc + distance, BASE, if Wrap32(target - cpc) < BASE / 2 then 0 - q else 0 - q - 1, target);
  }

  /** The instructions of a body. */
  function Code(body: seq<Gen>): (r: seq<Instr>)
    ensures |r| == |body| && forall i :: 0 <= i < |body| ==> r[i] == body[i].instr
  {
    seq(|body|, i requires 0 <= i < |body| => body[i].instr)
  }

  lemma NoInstructions(p: Setup, relied: map<int, Byte>, used: set<int>)
    ensures Chained([], p) && AllKept([], relied, used)
  {
  }

  lemma ChainedMore(body: seq<Gen>, p: Setup, g: Gen)
    requires Chained(body, p) && Produced(g, p.n, p.looping) && g.before == KnownAt(body, |body|, p)
             && Includes(g.after, p.consts) && p.frame !in Touched(g.before, g.instr)
    ensures Chained(body + [g], p)
  {
    hide Produced, Includes, Touched;
    var t := body + [g];
    forall i | 0 <= i < |t|
      ensures Produced(t[i], p.n, p.looping) && t[i].before == KnownAt(t, i, p) && Includes(t[i].after, p.consts)
      ensures p.frame !in Touched(t[i].before, t[i].instr)
    {
      if i < |body| {
        assert KnownAt(body, i, p) == KnownAt(t, i, p);
      }
    }
  }

  // ----- what one access becomes

  /** The record of a generated load or store. */
  function AccessGen(k: Known, k': Known, a: Access, at: int, safe: bool, data: Byte): Gen {
    var relies := a.load && safe && !a.testSet;
    Gen(LoadStore(a), k, k', relies, if relies then LoadStores.ByteMap(at, 8, data) else map[],
        if a.load && !a.testSet then {} else MM.Addresses(LoadStores.Buffer(at)))
  }

  lemma RecordedSame(b: map<int, Byte>, c: map<int, Byte>, at: int, n: nat)
    requires 1 <= n <= 4 && BytesRecorded(b, at, n) && BytesRecorded(c, at, n)
    requires forall j :: at <= j < at + n ==> j in b && j in c && b[j] == c[j]
    ensures RecordedWord(b, at, n) == RecordedWord(c, at, n)
  {
  }

  /** Only the bytes of the access matter to what is known after it. */
  lemma LoadKnownSame(k: Known, a: Access, at: int, data: Byte, mem: map<int, Byte>)
    requires forall j :: at <= j < at + 8 ==> j in mem && mem[j] == data
    ensures BytesRecorded(mem, at, 8) && BytesRecorded(LoadStores.ByteMap(at, 8, data), at, 8)
    ensures LoadKnown(k, a, at, true, mem) == LoadKnown(k, a, at, true, LoadStores.ByteMap(at, 8, data))
    ensures a.testSet && a.size != 3 ==> LoadKnown(k, a, at, true, mem) == LoadKnown(k, a, at, false, map[])
  {
    hide RecordedWord;
    var b := LoadStores.ByteMap(at, 8, data);
    if !a.testSet {
      if a.size == 3 {
        RecordedSame(mem, b, at, 4);
        RecordedSame(mem, b, at + 4, 4);
      } else {
        RecordedSame(mem, b, at, BytesOf(a.size));
      }
    }
  }

  lemma AccessProduced(k: Known, k': Known, nregs: nat, looping: bool, a: Access, at: int, safe: bool, data: Byte,
                       p: MM.Pool, p': MM.Pool, mem: map<int, Byte>, mem': map<int, Byte>)
    requires LoadStores.Generates(LoadStores.Emitted(a, at, safe), nregs, looping, data, k, k', p, p', mem, mem')
    ensures Produced(AccessGen(k, k', a, at, safe, data), nregs, looping)
  {
    hide RecordedWord, KnownAddress, BaseKnown, LoadKnown, LoadStores.InFree, LoadStores.Taken, DestinationApart,
        MM.Addresses;
    if a.load && safe {
      LoadKnownSame(BaseKnown(k, a, looping), a, at, data, mem');
    } else if a.load {
      UnsafeIs(BaseKnown(k, a, looping), a, at, mem');
    }
    BufferCovers(at, a.size);
  }

  lemma UnsafeIs(k: Known, a: Access, at: int, mem: map<int, Byte>)
    ensures LoadKnown(k, a, at, false, mem) == LoadKnown(k, a, at, false, map[])
  {
  }

  lemma BufferCovers(at: int, z: Size)
    ensures forall j :: at <= j < at + BytesOf(z) ==> j in MM.Addresses(LoadStores.Buffer(at))
  {
    forall j | at <= j < at + BytesOf(z)
      ensures j in MM.Addresses(LoadStores.Buffer(at))
    {
      LoadStores.AddressesIn(at, j);
    }
  }

  // ----- registers an instruction may change

  ghost predicate AllFree(regs: set<nat>, w: Window) {
    forall r :: r in regs ==> FreeIn(w, r)
  }

  ghost predicate ChangesOnly(k: Known, k': Known, w: Window) {
    forall r :: !FreeIn(w, r) ==> (r in k.regs <==> r in k'.regs) && (r in k.regs ==> k'.regs[r] == k.regs[r])
  }

  ghost predicate Pointers(consts: map<nat, Word>, w: Window) {
    forall r :: r in consts ==> !FreeIn(w, r)
  }

  lemma PointersStay(k: Known, k': Known, w: Window, consts: map<nat, Word>)
    requires Includes(k, consts) && Pointers(consts, w) && ChangesOnly(k, k', w)
    ensures Includes(k', consts)
  {
  }

  lemma AccessChangesOnly(k: Known, a: Access, looping: bool, safe: bool, mem: map<int, Byte>, w: Window)
    requires AddressKnown(k, a) && (a.load && safe ==> BytesRecorded(mem, KnownAddress(k, a), 8))
    requires (a.load ==> FreeIn(w, a.rd)) && (PostModifies(a.mode) ==> FreeIn(w, a.rn)) && (a.load && a.size == 3
             ==> FreeIn(w, a.rd + 1))
    ensures ChangesOnly(k, AccessKnown(k, a, looping, safe, mem), w)
  {
    hide FreeIn, RecordedWord, Moved, KnownAddress;
  }

  // ----- the generator

  class Program {
    const regM: RegManager
    const memM: MM.Manager
    const maxLoopIt: nat
    const saveSpace: Word
    var code: seq<seq<Instr>>
    var startCode: seq<Instr>
    ghost var bodies: seq<seq<Gen>>
    var starts: seq<int>
    var pending: seq<int>
    var numSubRoutine: nat
    ghost var codeAddrs: set<int>
    ghost const initial: seq<Range>
    ghost var relied: map<int, Byte>

    ghost function Params(): Setup
      reads regM`constRegs, regM`loopCountReg, regM`intFrameReg
    {
      Setup(regM.nregs, maxLoopIt != 0, TableOf(regM.constRegs), regM.loopCountReg, regM.intFrameReg,
            (1 + maxLoopIt) % 0x1_0000)
    }

    /** Addresses handed out for data. */
    ghost function Data(): set<int>
      reads `codeAddrs, memM`checkSet
    {
      memM.checkSet - codeAddrs
    }

    /** Addresses of code have been handed out, and nothing recorded lies there. */
    ghost predicate CodeValid()
      reads `relied, `codeAddrs, memM`checkSet
    {
      codeAddrs <= memM.checkSet && relied.Keys !! codeAddrs
    }

    /** The allocator and what is recorded in memory. */
    ghost predicate MemoryValid()
      reads `relied, memM
    {
      && MM.Consistent(memM.State(), initial) && LoadStores.MemInside(memM)
      && (forall j :: j in relied ==> j in memM.accessMem && memM.accessMem[j] == relied[j])
      && AllCovered(relied, memM.lsFillRangeList)
    }

    /** Finished bodies and one under construction. */
    ghost predicate BodiesValid(body: seq<Gen>)
      reads `code, `bodies, `relied, `codeAddrs, regM`constRegs, regM`loopCountReg, regM`intFrameReg, memM`checkSet
    {
      && Chained(body, Params()) && AllKept(body, relied, Data())
      && |code| == |bodies|
      && forall k :: 0 <= k < |bodies| ==>
           && Chained(bodies[k], Params()) && AllKept(bodies[k], relied, Data())
           && code[k] == Code(bodies[k]) && CodeSize(code[k]) <= SUBROUTINE_SIZE
           && regM.loopCountReg !in AllTouched(bodies[k])
    }

    /** Finished and pending subroutines have places of their own. */
    ghost predicate PlacesValid()
      reads `starts, `pending, `codeAddrs
    {
      Apart(starts + pending, codeAddrs)
    }

    /** The code that starts the test leaves the pointers, the loop and the frame register
        with their values. */
    ghost predicate Started()
      reads `startCode, regM`constRegs, regM`loopCountReg, regM`intFrameReg
    {
      Sets(startCode, StartTable(regM, 1 + maxLoopIt, saveSpace), regM.nregs)
    }

    ghost predicate Valid()
      reads this, regM, memM
    {
      regM.Valid() && MemoryValid() && CodeValid() && BodiesValid([]) && Started() && PlacesValid()
    }

    /** Starts a program: a register manager of its own, pointer registers at the starts of
        free ranges, and the code that sets them. */
    constructor (nregs: nat, ind1: nat, memM: MM.Manager, maxLoopIt: nat, d: StartDraws, ghost initial: seq<Range>)
      requires nregs == 16 || nregs == 32 || nregs == 64
      requires 2 <= ind1 <= nregs - 2
      requires MM.Consistent(memM.State(), initial) && memM.accessMem == map[]
      ensures Valid() && code == [] && bodies == [] && starts == [] && pending == [] && relied == map[]
      ensures this.memM == memM && this.maxLoopIt == maxLoopIt && this.initial == initial && saveSpace == d.frame
      ensures fresh(regM) && regM.nregs == nregs
      ensures var v := memM.rangeListForFetch + memM.rangeListForLS;
              |regM.constRegs| == (if !d.many then 0 else if |v| < nregs / 4 then |v| else nregs / 4)
              && forall i :: 0 <= i < |regM.constRegs| ==> regM.constRegs[i].val == v[i].first
    {
      hide RegManager.Valid, MM.Consistent, Sets, TableOf, Represents, Chained, AllKept, CodeRange,
          MM.Covered;
      var rm := new RegManager(nregs, ind1);
      FreeLong(memM.State(), initial);
      var v := memM.FillStartMemRanges();
      var start := StartTest(rm, v, d, 1 + maxLoopIt);
      this.regM, this.memM, this.maxLoopIt, this.saveSpace, this.initial := rm, memM, maxLoopIt, d.frame, initial;
      code, bodies, starts, pending, numSubRoutine, relied, startCode := [], [], [], [], 1, map[], start;
      codeAddrs := {};
      new;
      NoInstructions(Params(), relied, Data());
      assert memM.accessMem == map[];
    }

    /** A data processing instruction. */
    method GenerateDp(d: Draw) returns (instr: Instr, ghost g: Gen)
      requires regM.Valid() && d.DrawDp? && DrawAllowed(d, regM.PointerWindow())
      modifies regM`rf, regM`modifiedRegs, regM`known, regM`az, regM`an, regM`ac, regM`av, regM`avs
      ensures regM.Valid()
      ensures Added(g, regM.nregs, maxLoopIt != 0, old(regM.Facts()), regM.Facts(), memM.checkSet, memM.checkSet)
      ensures g.instr == instr && g.bytes == map[] && ChangesOnly(old(regM.Facts()), regM.Facts(), regM.PointerWindow())
      ensures regM.Changed() == old(regM.Changed()) + Touched(g.before, g.instr)
      ensures AllFree(Touched(g.before, g.instr), regM.PointerWindow()) && instr == PlainInstr(d)
    {
      hide Represents, Compute, RegManager.Changed;
      DataProcessing.Next(regM, d.op, d.rd, d.rn, d.rhs, maxLoopIt);
      instr := Dp(d.op, d.rd, d.rn, d.rhs);
      g := Gen(instr, old(regM.Facts()), regM.Facts(), false, map[], {});
    }

    /** A register move. */
    method GenerateMove(d: Draw) returns (instr: Instr, ghost g: Gen)
      requires regM.Valid() && d.DrawMove? && DrawAllowed(d, regM.PointerWindow())
      modifies regM`rf, regM`modifiedRegs, regM`known
      ensures regM.Valid()
      ensures Added(g, regM.nregs, maxLoopIt != 0, old(regM.Facts()), regM.Facts(), memM.checkSet, memM.checkSet)
      ensures g.instr == instr && g.bytes == map[] && ChangesOnly(old(regM.Facts()), regM.Facts(), regM.PointerWindow())
      ensures regM.Changed() == old(regM.Changed()) + Touched(g.before, g.instr)
      ensures AllFree(Touched(g.before, g.instr), regM.PointerWindow()) && instr == PlainInstr(d) && SizeOf(instr) == 4
    {
      hide Represents, KnownCond, RegManager.Changed;
      RegisterMoves.Next(regM, d.i);
      instr := d.i;
      g := Gen(instr, old(regM.Facts()), regM.Facts(), false, map[], {});
    }

    /** A load or store, or nothing. */
    method GenerateAccess(d: Draw) returns (emitted: bool, instr: Instr, ghost g: Gen)
      requires regM.Valid() && d.DrawAccess? && DrawAllowed(d, regM.PointerWindow()) && MemoryValid()
      modifies regM`rf, regM`modifiedRegs, regM`known
      modifies memM
      modifies `relied
      ensures regM.Valid() && MemoryValid()
      ensures !emitted ==>
                regM.Facts() == old(regM.Facts()) && relied == old(relied)
                && memM.checkSet == old(memM.checkSet)
      ensures emitted ==> && g.instr == instr && relied == Relying(old(relied), g)
                          && Added(g, regM.nregs, maxLoopIt != 0, old(regM.Facts()), regM.Facts(),
                                   old(memM.checkSet), memM.checkSet)
                          && AllFree(Touched(g.before, g.instr), regM.PointerWindow())
      ensures ChangesOnly(old(regM.Facts()), regM.Facts(), regM.PointerWindow())
      ensures regM.Changed() == old(regM.Changed()) + if emitted then Touched(g.before, g.instr) else {}
      ensures emitted <==> !LoadStores.Stuck(old(regM.Facts()), regM.PointerWindow(), old(memM.State()), d.d)
      ensures emitted ==> IsFrom(d, instr)
    {
      hide LoadStores.Stuck, LoadStores.ModeChosen, Represents, MM.Consistent, AccessKnown, LoadStores.InFree,
          LoadStores.Taken, LoadStores.DrawsAllowed, Fits, KnownAddress, MM.Addresses, AllCovered, RegManager.Valid,
          RegManager.Changed, AllFree, Produced, Fresh, Relying;
      ghost var mem0, used0 := memM.accessMem, memM.checkSet;
      ghost var state0, list0 := memM.State(), memM.lsFillRangeList;
      var out := LoadStores.Next(regM, memM, initial, d.d, maxLoopIt);
      emitted, instr := out.Emitted?, Special;
      assert list0 + [] == list0;
      g := Gen(Special, regM.Facts(), regM.Facts(), false, map[], {});
      if out.Emitted? {
        instr := LoadStore(out.a);
        g := AccessGen(old(regM.Facts()), regM.Facts(), out.a, out.at, out.safe, d.d.data);
        AccessProduced(old(regM.Facts()), regM.Facts(), regM.nregs, maxLoopIt != 0, out.a, out.at, out.safe, d.d.data,
                       state0, memM.State(), mem0, memM.accessMem);
        AccessChangesOnly(old(regM.Facts()), out.a, maxLoopIt != 0, out.safe, memM.accessMem, regM.PointerWindow());
        AccessFresh(old(regM.Facts()), regM.Facts(), out.a, out.at, out.safe, d.d.data, used0, memM.checkSet);
        AccessFree(out.a, regM.PointerWindow());
        Grown(mem0, out.at, d.d.data, used0);
        RecordedRelied(relied, g, mem0, memM.accessMem, used0);
        CoveredGrows(relied, g, list0, out.a, out.at, out.safe);
        relied := Relying(relied, g);
      }
    }

    /** A fresh subroutine range: the address of a branch target. */
    method TakeTarget(rangeInd: nat, offset: nat) returns (start: Word)
      requires MemoryValid() && CodeValid() && memM.rangeListForFetch != []
      modifies memM`rangeListForLS, memM`rangeListForFetch, memM`checkSet, `codeAddrs
      ensures MemoryValid() && CodeValid() && Data() == old(Data()) && old(memM.checkSet) <= memM.checkSet
      ensures TakenFor(old(memM.State()), memM.State(), start)
      ensures old(codeAddrs) <= codeAddrs && CodeRange(start) <= codeAddrs && CodeRange(start) !! old(codeAddrs)
      ensures |memM.rangeListForFetch| >= |old(memM.rangeListForFetch)| - 1
    {
      hide MM.Consistent, AllCovered, MM.Pieces;
      ghost var state0 := memM.State();
      var ind := rangeInd % |memM.rangeListForFetch|;
      var first := Solution(memM.rangeListForFetch, ind, offset);
      ChosenSolves(memM.State(), initial, ind, offset);
      var ok, address := memM.GetGenRangeByJump(initial, ind, first);
      MM.ServeSafe(state0, initial, MM.ByJump(ind, first));
      FreeLong(state0, initial);
      assert MM.Long(state0.fetch[ind]);
      start := address;
      ghost var given := Range(first, first + MM.MAX_SUB_ROUTINE_SIZE);
      codeAddrs := codeAddrs + MM.Addresses(given);
      StartInRange(first, start);
    }

    /** The jump itself, by offset or, when the target is too far away, through a
        register. A linked one loses register 14, unless that is a pointer register. */
    method GenerateJump(d: Draw, cpc: int, next: Word) returns (instr: Instr)
      requires regM.Valid() && d.DrawBranch? && DrawAllowed(d, regM.PointerWindow())
      modifies regM`rf, regM`modifiedRegs, regM`known
      ensures regM.Valid() && Fits(instr, regM.nregs) && IsBranch(instr)
      ensures var k := old(regM.Facts());
              regM.Facts() == AfterLink(if instr.FarBranch? then Set(k, d.rj, next) else k, instr.linked)
      ensures regM.Changed() == old(regM.Changed()) + Touched(old(regM.Facts()), instr)
      ensures (instr.FarBranch? <==> Far(next, cpc)) && (instr.FarBranch? ==> instr.rj == d.rj && instr.target == next)
      ensures instr.linked <==> d.linked && FreeIn(regM.PointerWindow(), 14)
    {
      hide Represents, RegManager.Changed, Far;
      var linked := d.linked && !(regM.memRegInd1 <= 14 <= regM.memRegInd2);
      if Far(next, cpc) {
        regM.SetReg(d.rj, next);
        instr := FarBranch(d.rj, next, linked);
      } else {
        instr := Branch(linked);
      }
      if linked {
        regM.InvalidateReg(14);
      }
    }

    /** A branch to a fresh subroutine. */
    method GenerateBranch(d: Draw, cpc: int) returns (instr: Instr, next: Word, ghost g: Gen)
      requires regM.Valid() && d.DrawBranch? && MemoryValid() && CodeValid() && memM.rangeListForFetch != []
      requires DrawAllowed(d, regM.PointerWindow())
      modifies regM`rf, regM`modifiedRegs, regM`known
      modifies memM`rangeListForLS, memM`rangeListForFetch, memM`checkSet, `codeAddrs
      ensures regM.Valid() && MemoryValid() && CodeValid() && IsBranch(instr)
      ensures TakenFor(old(memM.State()), memM.State(), next) && Data() == old(Data())
      ensures old(codeAddrs) <= codeAddrs && CodeRange(next) <= codeAddrs && CodeRange(next) !! old(codeAddrs)
      ensures Added(g, regM.nregs, maxLoopIt != 0, old(regM.Facts()), regM.Facts(), old(memM.checkSet), memM.checkSet)
      ensures AllFree(Touched(g.before, g.instr), regM.PointerWindow()) && g.writes == {}
      ensures g.instr == instr && g.bytes == map[] && ChangesOnly(old(regM.Facts()), regM.Facts(), regM.PointerWindow())
      ensures regM.Changed() == old(regM.Changed()) + Touched(g.before, g.instr)
      ensures (instr.FarBranch? <==> Far(next, cpc)) && (instr.FarBranch? ==> instr.rj == d.rj && instr.target == next)
      ensures instr.linked <==> d.linked && FreeIn(regM.PointerWindow(), 14)
    {
      hide RegManager.Valid, MemoryValid, RegManager.Changed, Far, TakenFor, CodeRange;
      next := TakeTarget(d.rangeInd, d.offset);
      instr := GenerateJump(d, cpc, next);
      g := Gen(instr, old(regM.Facts()), regM.Facts(), false, map[], {});
    }

    /** One instruction of a body; next is the target of a branch. */
    method GenerateInstr(d: Draw, cpc: int) returns (emitted: bool, instr: Instr, next: Word, ghost g: Gen)
      requires regM.Valid() && MemoryValid() && CodeValid() && DrawAllowed(d, regM.PointerWindow())
      requires d.DrawBranch? ==> memM.rangeListForFetch != []
      modifies regM`rf, regM`modifiedRegs, regM`known, regM`az, regM`an, regM`ac, regM`av, regM`avs
      modifies memM
      modifies `relied, `codeAddrs
      ensures regM.Valid() && MemoryValid()
      ensures !emitted ==>
                regM.Facts() == old(regM.Facts()) && relied == old(relied)
                && memM.checkSet == old(memM.checkSet)
      ensures emitted ==> && g.instr == instr && relied == Relying(old(relied), g)
                          && Added(g, regM.nregs, maxLoopIt != 0, old(regM.Facts()), regM.Facts(),
                                   old(memM.checkSet), memM.checkSet)
                          && AllFree(Touched(g.before, g.instr), regM.PointerWindow())
      ensures ChangesOnly(old(regM.Facts()), regM.Facts(), regM.PointerWindow())
      ensures Includes(old(regM.Facts()), TableOf(regM.constRegs)) ==> Includes(regM.Facts(), TableOf(regM.constRegs))
      ensures regM.intFrameReg !in regM.Changed()
      ensures regM.Changed() == old(regM.Changed()) + if emitted then Touched(g.before, g.instr) else {}
      ensures if d.DrawBranch? then
                emitted && g.bytes == map[] && g.writes == {} && Data() == old(Data()) && codeAddrs <= memM.checkSet
                && old(codeAddrs) <= codeAddrs && CodeRange(next) <= codeAddrs && CodeRange(next) !! old(codeAddrs)
              else codeAddrs == old(codeAddrs)
      ensures if d.DrawAccess? then
                emitted <==> !LoadStores.Stuck(old(regM.Facts()), regM.PointerWindow(), old(memM.State()), d.d)
              else emitted
      ensures emitted ==> IsFrom(d, instr)
      ensures PlainDraw(d) ==>
                emitted && instr == PlainInstr(d) && SizeOf(instr) == 4
                && memM.rangeListForFetch == old(memM.rangeListForFetch)
    {
      hide RegManager.Valid, MemoryValid, Produced, ChangesOnly, Fresh, DrawAllowed, RegManager.Changed, Touched, Far,
          LoadStores.Stuck,
          CodeRange, AllFree, TakenFor, Includes, TableOf, Pointers;
      ghost var k := regM.Facts();
      PointersProtected();
      emitted, next := true, 0;
      match d {
      case DrawDp(_, _, _, _) => instr, g := GenerateDp(d);
      case DrawMove(_) => instr, g := GenerateMove(d);
      case DrawAccess(_) => emitted, instr, g := GenerateAccess(d);
      case DrawBranch(_, _, _, _) => instr, next, g := GenerateBranch(d, cpc);
      }
      if Includes(k, TableOf(regM.constRegs)) {
        PointersStay(k, regM.Facts(), regM.PointerWindow(), TableOf(regM.constRegs));
      }
      FrameUnchanged();
    }

    /** Pointer registers lie in the window. */
    lemma PointersProtected()
      requires regM.Valid()
      ensures Pointers(TableOf(regM.constRegs), regM.PointerWindow())
      ensures regM.loopCountReg !in TableOf(regM.constRegs) && 0 !in TableOf(regM.constRegs)
      ensures regM.loopCountReg < regM.nregs && 14 < regM.nregs
      ensures 1 < regM.intFrameReg < regM.nregs && regM.intFrameReg != regM.loopCountReg
      ensures !FreeIn(regM.PointerWindow(), regM.intFrameReg) && !FreeIn(regM.PointerWindow(), regM.loopCountReg)
    {
      TableRepresents(regM.constRegs);
    }

    /** Appends one instruction to the body under construction. */
    method AppendInstr(d: Draw, cpc: int, ghost body: seq<Gen>)
      returns (out: seq<Instr>, next: Word, ghost body': seq<Gen>)
      requires regM.Valid() && MemoryValid() && CodeValid() && BodiesValid(body)
      requires DrawAllowed(d, regM.PointerWindow())
      requires regM.Facts() == KnownAt(body, |body|, Params()) && Includes(regM.Facts(), TableOf(regM.constRegs))
      requires regM.Changed() == AllTouched(body)
      requires d.DrawBranch? ==> memM.rangeListForFetch != []
      modifies regM`rf, regM`modifiedRegs, regM`known, regM`az, regM`an, regM`ac, regM`av, regM`avs
      modifies memM
      modifies `relied, `codeAddrs
      ensures regM.Valid() && MemoryValid() && CodeValid() && BodiesValid(body')
      ensures regM.Facts() == KnownAt(body', |body'|, Params()) && Includes(regM.Facts(), TableOf(regM.constRegs))
      ensures Code(body') == Code(body) + out && |out| <= 1 && (d.DrawBranch? ==> |out| == 1)
      ensures regM.Changed() == AllTouched(body')
      ensures AllFree(AllTouched(body), regM.PointerWindow()) ==> AllFree(AllTouched(body'), regM.PointerWindow())
      ensures if d.DrawBranch? then
                old(codeAddrs) <= codeAddrs && CodeRange(next) <= codeAddrs && CodeRange(next) !! old(codeAddrs)
              else codeAddrs == old(codeAddrs)
      ensures Answered(d, out, old(regM.Facts()), regM.PointerWindow(), old(memM.State()))
      ensures PlainDraw(d) ==>
                out == [PlainInstr(d)] && SizeOf(out[0]) == 4
                && memM.rangeListForFetch == old(memM.rangeListForFetch)
    {
      hide LoadStores.Stuck, RegManager.Valid, MemoryValid, Produced, Includes, Fresh, DrawAllowed, AllKept, Chained,
          TableOf, ChangesOnly, Pointers, HeadKnown, FreeIn, RegManager.Changed, Touched, AllTouched, CodeRange,
          CodeSize;
      ReliedUsed();
      ghost var relied0, used0, code0 := relied, memM.checkSet, codeAddrs;
      var emitted, instr;
      ghost var g;
      emitted, instr, next, g := GenerateInstr(d, cpc);
      body', out := body, [];
      if emitted {
        body', out := body + [g], [instr];
        BodyGrows(body, bodies, Params(), relied0, g, used0, memM.checkSet, code0, codeAddrs);
      }
    }

    /** One instruction for the body; a branch target goes to the pending list. */
    method Extend(d: Draw, cpc: int, ghost body: seq<Gen>) returns (out: seq<Instr>, ghost body': seq<Gen>)
      requires regM.Valid() && MemoryValid() && CodeValid() && BodiesValid(body)
      requires DrawAllowed(d, regM.PointerWindow())
      requires regM.Facts() == KnownAt(body, |body|, Params()) && Includes(regM.Facts(), TableOf(regM.constRegs))
      requires regM.Changed() == AllTouched(body) && PlacesValid()
      requires d.DrawBranch? ==> memM.rangeListForFetch != []
      modifies regM`rf, regM`modifiedRegs, regM`known, regM`az, regM`an, regM`ac, regM`av, regM`avs
      modifies memM
      modifies `pending, `numSubRoutine, `relied, `codeAddrs
      ensures regM.Valid() && MemoryValid() && CodeValid() && BodiesValid(body') && PlacesValid()
      ensures regM.Facts() == KnownAt(body', |body'|, Params()) && Includes(regM.Facts(), TableOf(regM.constRegs))
      ensures Code(body') == Code(body) + out && |out| <= 1
      ensures regM.Changed() == AllTouched(body')
      ensures AllFree(AllTouched(body), regM.PointerWindow()) ==> AllFree(AllTouched(body'), regM.PointerWindow())
      ensures Answered(d, out, old(regM.Facts()), regM.PointerWindow(), old(memM.State()))
      ensures PlainDraw(d) ==>
                out == [PlainInstr(d)] && SizeOf(out[0]) == 4
                && memM.rangeListForFetch == old(memM.rangeListForFetch)
      ensures if d.DrawBranch? then
                |out| == 1 && |pending| == |old(pending)| + 1 && pending[..|old(pending)|] == old(pending)
                && numSubRoutine == old(numSubRoutine) + 1
              else pending == old(pending) && numSubRoutine == old(numSubRoutine)
    {
      hide Answered, RegManager.Valid, RegManager.Changed, MemoryValid, CodeValid, BodiesValid, Includes, TableOf,
          DrawAllowed, AllTouched, CodeRange, Apart, AllFree;
      ghost var places, codeAddrs0 := starts + pending, codeAddrs;
      var next;
      out, next, body' := AppendInstr(d, cpc, body);
      if d.DrawBranch? {
        assert places + [] == places && places + [next] + [] == starts + (pending + [next]);
        ApartMore(places, [], codeAddrs0, codeAddrs, next);
        pending := pending + [next];
        numSubRoutine := numSubRoutine + 1;
      }
    }

    /** The subroutine's head: everything but the pointer registers is forgotten. */
    method StartBody()
      requires Valid()
      modifies regM`rf, regM`modifiedRegs, regM`known, regM`az, regM`an, regM`ac, regM`av, regM`avs
      ensures regM.Valid() && MemoryValid() && CodeValid() && BodiesValid([])
      ensures regM.Facts() == HeadKnown(TableOf(regM.constRegs)) && regM.Changed() == {}
    {
      hide Represents, AllKept, Chained, TableOf, MM.Consistent, Started, PlacesValid;
      regM.InvalidateAllRegs();
      NoInstructions(Params(), relied, Data());
    }

    /** The subroutine's tail counts the loop register down and loops back to the head. */
    method FinishBody(instrs: seq<Instr>, ghost body: seq<Gen>)
      requires regM.Valid() && MemoryValid() && CodeValid() && BodiesValid(body) && Started() && PlacesValid()
      requires instrs == Code(body) && CodeSize(instrs) <= SUBROUTINE_SIZE && regM.loopCountReg !in AllTouched(body)
      modifies this`code, this`bodies, regM`rf, regM`modifiedRegs, regM`known
      ensures Valid() && code == old(code) + [instrs] && bodies == old(bodies) + [body]
      ensures regM.Changed() == old(regM.Changed()) + {regM.loopCountReg}
    {
      hide Represents, AllKept, Chained, TableOf, MemoryValid, CodeValid, Code, Started, RegManager.Changed,
          PlacesValid, CodeSize;
      code, bodies := code + [instrs], bodies + [body];
      PointersProtected();
      regM.SetReg(regM.loopCountReg, 0);
      NoInstructions(Params(), relied, Data());
    }

    /** A body under construction, of i bytes so far. */
    ghost predicate Filling(body: seq<Gen>, instrs: seq<Instr>, i: nat)
      reads this, regM, memM
    {
      && regM.Valid() && MemoryValid() && CodeValid() && BodiesValid(body) && PlacesValid()
      && regM.Facts() == KnownAt(body, |body|, Params()) && Includes(regM.Facts(), TableOf(regM.constRegs))
      && regM.Changed() == AllTouched(body) && AllFree(AllTouched(body), regM.PointerWindow())
      && instrs == Code(body) && CodeSize(instrs) == i && i % 4 == 0
    }

    lemma NothingFilled()
      requires regM.Valid() && MemoryValid() && CodeValid() && BodiesValid([]) && PlacesValid()
      requires regM.Facts() == HeadKnown(TableOf(regM.constRegs)) && regM.Changed() == {}
      ensures Filling([], [], 0)
    {
      hide RegManager.Valid, MemoryValid, BodiesValid, PlacesValid, TableOf;
    }

    /** One round of the loop that fills a subroutine. */
    method Round(d: Draw, start: int, i: nat, instrs: seq<Instr>, ghost body: seq<Gen>)
      returns (i': nat, instrs': seq<Instr>, ghost body': seq<Gen>)
      requires Filling(body, instrs, i) && DrawAllowed(d, regM.PointerWindow())
      requires d.DrawBranch? ==> memM.rangeListForFetch != []
      modifies this`pending, this`numSubRoutine, this`relied, this`codeAddrs
      modifies regM`rf, regM`modifiedRegs, regM`known, regM`az, regM`an, regM`ac, regM`av, regM`avs
      modifies memM
      ensures Filling(body', instrs', i') && i' <= i + 12
      ensures if d.DrawBranch? then
                |pending| == |old(pending)| + 1 && old(pending) <= pending && numSubRoutine == old(numSubRoutine) + 1
              else pending == old(pending) && numSubRoutine == old(numSubRoutine)
      ensures instrs <= instrs'
      ensures Answered(d, instrs'[|instrs|..], old(regM.Facts()), regM.PointerWindow(), old(memM.State()))
      ensures PlainDraw(d) ==>
                i' == i + 4 && instrs' == instrs + [PlainInstr(d)]
                && memM.rangeListForFetch == old(memM.rangeListForFetch)
    {
      hide Answered, RegManager.Valid, RegManager.Changed, MemoryValid, CodeValid, BodiesValid, PlacesValid,
          Includes, TableOf, DrawAllowed, AllTouched, AllFree, CodeSize, Code;
      var out;
      out, body' := Extend(d, start + i, body);
      CodeSizeMore(instrs, out);
      instrs', i' := instrs + out, i;
      assert instrs'[|instrs|..] == out;
      if out != [] {
        i' := i + SizeOf(out[0]);
      }
    }

    /** The instructions of one subroutine. */
    method FillBody(start: int, size: nat, draws: seq<Draw>, maxSubroutines: nat)
      returns (i: nat, instrs: seq<Instr>, ghost body: seq<Gen>)
      requires Filling([], [], 0) && numSubRoutine <= maxSubroutines && SECTION_OFFSET <= size && size % 4 == 0
      requires forall u :: 0 <= u < |draws| ==> DrawAllowed(draws[u], regM.PointerWindow())
      modifies this`pending, this`numSubRoutine, this`relied, this`codeAddrs
      modifies regM`rf, regM`modifiedRegs, regM`known, regM`az, regM`an, regM`ac, regM`av, regM`avs
      modifies memM
      ensures Filling(body, instrs, i) && i <= size
      ensures old(numSubRoutine) <= numSubRoutine <= maxSubroutines && old(pending) <= pending
              && |pending| - |old(pending)| == numSubRoutine - old(numSubRoutine)
      ensures (forall u :: 0 <= u < |draws| ==> !draws[u].DrawBranch?) ==> pending == old(pending)
      ensures AllPlain(draws) && 4 * |draws| <= size - SECTION_OFFSET && old(memM.rangeListForFetch) != [] ==>
                instrs == PlainCode(draws)
      ensures FilledFrom(draws, instrs, size, memM.rangeListForFetch == [])
    {
      hide DrawAllowed, Filling, CodeSize, LoadStores.Stuck, Follows, Answered, RegManager.Valid;
      FollowsNone();
      body, instrs, i := [], [], 0;
      var u, numCurrBr := 0, 0;
      ghost var plain := AllPlain(draws) && 4 * |draws| <= size - SECTION_OFFSET && memM.rangeListForFetch != [];
      while u < |draws| && i < size - SECTION_OFFSET && memM.rangeListForFetch != []
        invariant Filling(body, instrs, i) && 0 <= u <= |draws| && i <= size
        invariant old(numSubRoutine) <= numSubRoutine <= maxSubroutines && old(pending) <= pending
                && |pending| - |old(pending)| == numSubRoutine - old(numSubRoutine)
        invariant (forall v :: 0 <= v < |draws| ==> !draws[v].DrawBranch?) ==> pending == old(pending)
        invariant Follows(draws[..u], instrs)
        invariant plain ==> memM.rangeListForFetch != [] && i == 4 * u
      {
        FilledSize(body, instrs, i);
        ghost var instrs0, k0, p0 := instrs, regM.Facts(), memM.State();
        if !(draws[u].DrawBranch? && (numCurrBr >= 2 || numSubRoutine >= maxSubroutines)) {
          i, instrs, body := Round(draws[u], start, i, instrs, body);
          if draws[u].DrawBranch? {
            numCurrBr := numCurrBr + 1;
          }
        }
        FollowsMore(draws, u, instrs0, instrs, k0, regM.PointerWindow(), p0);
        u := u + 1;
      }
      FilledSize(body, instrs, i);
      if plain {
        assert draws[..u] == draws;
        PlainFollows(draws, instrs);
      }
    }

    lemma FilledSize(body: seq<Gen>, instrs: seq<Instr>, i: nat)
      requires Filling(body, instrs, i)
      ensures i % 4 == 0 && CodeSize(instrs) == i
    {
    }

    /** Fills one subroutine of at most size bytes. The registers recorded as changed are
        then those its instructions may change, and the loop register. */
    method FillSubroutine(start: int, size: nat, draws: seq<Draw>, maxSubroutines: nat)
      requires Valid() && numSubRoutine <= maxSubroutines && SECTION_OFFSET <= size <= SUBROUTINE_SIZE && size % 4 == 0
      requires forall u :: 0 <= u < |draws| ==> DrawAllowed(draws[u], regM.PointerWindow())
      modifies this`code, this`bodies, this`pending, this`numSubRoutine, this`relied, this`codeAddrs
      modifies regM`rf, regM`modifiedRegs, regM`known, regM`az, regM`an, regM`ac, regM`av, regM`avs
      modifies memM
      ensures Valid() && |code| == |old(code)| + 1 && code[..|old(code)|] == old(code)
      ensures |bodies| == |old(bodies)| + 1 && bodies[..|old(bodies)|] == old(bodies)
      ensures regM.Changed() == AllTouched(bodies[|old(bodies)|]) + {regM.loopCountReg}
      ensures AllFree(AllTouched(bodies[|old(bodies)|]), regM.PointerWindow())
      ensures CodeSize(code[|old(code)|]) <= size
      ensures old(numSubRoutine) <= numSubRoutine <= maxSubroutines && old(pending) <= pending
              && |pending| - |old(pending)| == numSubRoutine - old(numSubRoutine)
      ensures (forall u :: 0 <= u < |draws| ==> !draws[u].DrawBranch?) ==> pending == old(pending)
      ensures AllPlain(draws) && 4 * |draws| <= size - SECTION_OFFSET && old(memM.rangeListForFetch) != [] ==>
                code[|old(code)|] == PlainCode(draws)
      ensures FilledFrom(draws, code[|old(code)|], size, memM.rangeListForFetch == [])
    {
      hide FilledFrom, DrawAllowed, TableOf, MemoryValid, CodeValid, BodiesValid, Started, PlacesValid,
          RegManager.Valid, RegManager.Changed, AllTouched, AllFree, CodeSize, AllPlain;
      StartBody();
      NothingFilled();
      var i, instrs;
      ghost var body;
      i, instrs, body := FillBody(start, size, draws, maxSubroutines);
      LoopUntouched(body);
      FinishBody(instrs, body);
    }

    lemma LoopUntouched(body: seq<Gen>)
      requires regM.Valid() && AllFree(AllTouched(body), regM.PointerWindow())
      ensures regM.loopCountReg !in AllTouched(body)
    {
    }

    lemma FrameUnchanged()
      requires regM.Valid()
      ensures regM.intFrameReg !in regM.Changed()
    {
    }

    lemma ReliedUsed()
      requires MemoryValid() && CodeValid()
      ensures forall j :: j in relied ==> j in Data()
    {
    }

    /** Before an interrupt routine is printed: r0, r1 and the loop register count as
        changed; what is changed is then a list the save and restore code can take. */
    method RecordContext()
      requires Valid()
      modifies regM`rf, regM`modifiedRegs, regM`known
      ensures Valid()
      ensures Interrupts.LegalList(regM.nregs, regM.intFrameReg, regM.modifiedRegs)
      ensures regM.Changed() == old(regM.Changed()) + {0, 1, regM.loopCountReg}
    {
      hide Valid, RegManager.Valid, MemoryValid, CodeValid, BodiesValid, TableOf, Started, PlacesValid,
          RegManager.Changed;
      ValidParts();
      regM.RecordContext(Wrap32(1 + maxLoopIt));
      ContextListed();
      ValidWhole();
    }

    lemma ContextListed()
      requires ChangedRegs(regM.modifiedRegs, regM.nregs, regM.intFrameReg) && {0, 1} <= regM.Changed()
      ensures Interrupts.LegalList(regM.nregs, regM.intFrameReg, regM.modifiedRegs)
    {
      assert 0 in regM.Changed() && 1 in regM.Changed();
    }

    lemma ValidParts()
      requires Valid()
      ensures regM.Valid() && MemoryValid() && CodeValid() && BodiesValid([]) && Started() && PlacesValid()
    {
    }

    lemma ValidWhole()
      requires regM.Valid() && MemoryValid() && CodeValid() && BodiesValid([]) && Started() && PlacesValid()
      ensures Valid()
    {
    }

    /** The subroutine of an interrupt routine, when there is a range for it, and the list
        of registers that its routine saves. */
    method GenerateIsr(draws: seq<Draw>, rangeInd: nat, offset: nat, maxSubroutines: nat)
      returns (modified: seq<nat>, ghost sub: int)
      requires Valid() && numSubRoutine <= maxSubroutines
      requires forall u :: 0 <= u < |draws| ==> DrawAllowed(draws[u], regM.PointerWindow()) && !draws[u].DrawBranch?
      modifies this`code, this`bodies, this`starts, this`pending, this`numSubRoutine, this`relied, this`codeAddrs
      modifies regM`rf, regM`modifiedRegs, regM`known, regM`az, regM`an, regM`ac, regM`av, regM`avs
      modifies memM
      ensures Valid() && pending == old(pending) && numSubRoutine == old(numSubRoutine)
      ensures Interrupts.LegalList(regM.nregs, regM.intFrameReg, modified)
      ensures sub == if old(memM.rangeListForFetch) == [] then -1 else |old(bodies)|
      ensures |bodies| == (if sub < 0 then |old(bodies)| else sub + 1) && bodies[..|old(bodies)|] == old(bodies)
      ensures |starts| - |code| == |old(starts)| - |old(code)|
      ensures Recorded(bodies, regM.loopCountReg, modified, sub)
      ensures regM.memRegInd1 < regM.nregs - 2 ==> |modified| <= regM.nregs - 2
      ensures AllPlain(draws) && 4 * |draws| <= ISR_SIZE - SECTION_OFFSET && |old(memM.rangeListForFetch)| >= 2 ==>
                code[sub] == PlainCode(draws)
    {
      hide Valid, RegManager.Changed, AllTouched, DrawAllowed, AllFree, AllPlain, Recorded;
      sub := FillIsr(draws, rangeInd, offset, maxSubroutines);
      RecordContext();
      modified := regM.modifiedRegs;
      ChangedListed(sub);
      ListIsShort(sub);
    }

    /** Its subroutine, or only a forgetting of what was known and changed. */
    method FillIsr(draws: seq<Draw>, rangeInd: nat, offset: nat, maxSubroutines: nat) returns (ghost sub: int)
      requires Valid() && numSubRoutine <= maxSubroutines
      requires forall u :: 0 <= u < |draws| ==> DrawAllowed(draws[u], regM.PointerWindow()) && !draws[u].DrawBranch?
      modifies this`code, this`bodies, this`starts, this`pending, this`numSubRoutine, this`relied, this`codeAddrs
      modifies regM`rf, regM`modifiedRegs, regM`known, regM`az, regM`an, regM`ac, regM`av, regM`avs
      modifies memM
      ensures Valid() && pending == old(pending) && numSubRoutine == old(numSubRoutine)
      ensures sub == if old(memM.rangeListForFetch) == [] then -1 else |old(bodies)|
      ensures |bodies| == (if sub < 0 then |old(bodies)| else sub + 1) && bodies[..|old(bodies)|] == old(bodies)
      ensures |code| == |bodies| && |starts| - |code| == |old(starts)| - |old(code)|
      ensures regM.Changed() == if sub < 0 then {} else AllTouched(bodies[sub]) + {regM.loopCountReg}
      ensures sub >= 0 ==> AllFree(AllTouched(bodies[sub]), regM.PointerWindow())
      ensures AllPlain(draws) && 4 * |draws| <= ISR_SIZE - SECTION_OFFSET && |old(memM.rangeListForFetch)| >= 2 ==>
                code[sub] == PlainCode(draws)
    {
      hide Valid, RegManager.Valid, MemoryValid, CodeValid, Started, PlacesValid, RegManager.Changed, AllTouched,
          DrawAllowed, AllFree, AllPlain, Chained, AllKept, CodeSize;
      ValidParts();
      sub := -1;
      if memM.rangeListForFetch != [] {
        var start := TakeIsrTarget(rangeInd, offset);
        sub := |bodies|;
        FillSubroutine(start, ISR_SIZE, draws, maxSubroutines);
        assert pending == old(pending);
        ValidParts();
      } else {
        StartBody();
        ValidWhole();
      }
    }

    /** Outside the window at least two registers besides the loop register are never
        changed, unless it holds only the loop and the frame register, at the very top. */
    lemma ListIsShort(sub: int)
      requires Valid() && Recorded(bodies, regM.loopCountReg, regM.modifiedRegs, sub)
      requires sub >= 0 ==> AllFree(AllTouched(bodies[sub]), regM.PointerWindow())
      ensures regM.memRegInd1 < regM.nregs - 2 ==> |regM.modifiedRegs| <= regM.nregs - 2
    {
      hide AllTouched, MemoryValid, BodiesValid, Started, PlacesValid, Represents;
      if regM.memRegInd1 < regM.nregs - 2 {
        var w, list, loopReg := regM.PointerWindow(), regM.modifiedRegs, regM.loopCountReg;
        var other := if regM.memRegInd1 < loopReg then regM.memRegInd1 else loopReg + 2;
        var context: set<nat>, touched: set<nat> := {0, 1, loopReg}, if sub < 0 then {} else AllTouched(bodies[sub]);
        assert (set q | q in list) == context + touched;
        forall r | r in list
          ensures r < regM.nregs && r != regM.intFrameReg && r != other
        {
          assert r in (set q | q in list);
          assert r in context + touched;
          assert r in touched ==> FreeIn(w, r);
        }
        TwoMissing(list, regM.nregs, regM.intFrameReg, other);
      }
    }

    /** A range for the subroutine. */
    method TakeIsrTarget(rangeInd: nat, offset: nat) returns (start: Word)
      requires Valid() && memM.rangeListForFetch != []
      modifies memM`rangeListForLS, memM`rangeListForFetch, memM`checkSet, `codeAddrs, `starts
      ensures Valid() && starts == old(starts) + [start]
      ensures |memM.rangeListForFetch| >= |old(memM.rangeListForFetch)| - 1
    {
      hide RegManager.Valid, MemoryValid, Chained, AllKept, TableOf, Started, CodeRange, Apart, TakenFor, CodeSize;
      ghost var codeAddrs0 := codeAddrs;
      start := TakeTarget(rangeInd, offset);
      ApartMore(starts, pending, codeAddrs0, codeAddrs, start);
      starts := starts + [start];
    }

    lemma ChangedListed(sub: int)
      requires -1 <= sub < |bodies|
      requires regM.Changed()
            == (if sub < 0 then {} else AllTouched(bodies[sub]) + {regM.loopCountReg}) + {0, 1, regM.loopCountReg}
      ensures Recorded(bodies, regM.loopCountReg, regM.modifiedRegs, sub)
    {
      hide AllTouched;
      assert (set r | r in regM.modifiedRegs) == regM.Changed();
    }

    /** With sixteen registers and no pointers behind the loop and the frame register, a
        routine may set all the others: the list is legal, and the context is lost. */
    method GenerateLongIsr(rangeInd: nat, offset: nat, maxSubroutines: nat) returns (modified: seq<nat>)
      requires Valid() && numSubRoutine <= maxSubroutines
      requires regM.nregs == 16 && regM.memRegInd1 == 14 && |memM.rangeListForFetch| >= 2
      modifies this`code, this`bodies, this`starts, this`pending, this`numSubRoutine, this`relied, this`codeAddrs
      modifies regM`rf, regM`modifiedRegs, regM`known, regM`az, regM`an, regM`ac, regM`av, regM`avs
      modifies memM
      ensures Valid() && Interrupts.LegalList(16, regM.intFrameReg, modified) && |modified| == 15
      ensures forall p: Interrupts.Isrs, k: nat ::
                Interrupts.Legal(p) && p.n == 16 && k < Interrupts.MAX_NUM_INTER && p.modified[k] == modified ==>
                  exists s: Interrupts.Cpu :: |s.regs| == 16 && !Interrupts.Restores(p, k, s)
    {
      hide Valid, RegManager.Valid, Interrupts.Restores, Recorded, Interrupts.LegalList;
      var draws := seq(12, u requires 0 <= u < 12 => DrawMove(MovImm(u + 2, 0)));
      LoopAtTop();
      ghost var sub;
      modified, sub := GenerateIsr(draws, rangeInd, offset, maxSubroutines);
      CodeIs(sub);
      AllListed(bodies, modified, sub, draws);
      forall p: Interrupts.Isrs, k: nat |
          Interrupts.Legal(p) && p.n == 16 && k < Interrupts.MAX_NUM_INTER && p.modified[k] == modified
        ensures exists s: Interrupts.Cpu :: |s.regs| == 16 && !Interrupts.Restores(p, k, s)
      {
        Interrupts.RestoresIff(p, k);
      }
    }

    lemma LoopAtTop()
      requires Valid() && regM.nregs == 16 && regM.memRegInd1 == 14
      ensures regM.loopCountReg == 14 && regM.intFrameReg == 15
    {
      hide MemoryValid, BodiesValid, Started, PlacesValid;
    }

    lemma CodeIs(k: int)
      requires Valid() && 0 <= k < |bodies|
      ensures k < |code| && code[k] == Code(bodies[k])
    {
      hide MemoryValid, Started, PlacesValid, RegManager.Valid, Chained, AllKept, CodeSize;
    }

    /** All interrupt routines. */
    method GenerateRandomIsr(draws: nat -> seq<Draw>, rangeInd: nat -> nat, offset: nat -> nat, nesting: seq<bool>,
                             maxSubroutines: nat)
      returns (isrs: Interrupts.Isrs, ghost subs: seq<int>)
      requires Valid() && numSubRoutine <= maxSubroutines && |nesting| == Interrupts.MAX_NUM_INTER
      requires forall k, u :: 0 <= u < |draws(k)| ==>
                 DrawAllowed(draws(k)[u], regM.PointerWindow()) && !draws(k)[u].DrawBranch?
      modifies this`code, this`bodies, this`starts, this`pending, this`numSubRoutine, this`relied, this`codeAddrs
      modifies regM`rf, regM`modifiedRegs, regM`known, regM`az, regM`an, regM`ac, regM`av, regM`avs
      modifies memM
      ensures Valid() && Interrupts.Legal(isrs) && |subs| == Interrupts.MAX_NUM_INTER
      ensures |starts| - |code| == |old(starts)| - |old(code)|
      ensures regM.memRegInd1 < regM.nregs - 2 ==> Interrupts.Short(isrs)
      ensures isrs.n == regM.nregs && isrs.frame == regM.intFrameReg && isrs.nesting == nesting
      ensures forall k :: 0 <= k < Interrupts.MAX_NUM_INTER ==>
                Recorded(bodies, regM.loopCountReg, isrs.modified[k], subs[k])
    {
      hide Valid, DrawAllowed, Interrupts.LegalList, Recorded;
      ghost var w, loopReg, frame := regM.PointerWindow(), regM.loopCountReg, regM.intFrameReg;
      var modified: seq<seq<nat>> := [];
      subs := [];
      var k := 0;
      while k < Interrupts.MAX_NUM_INTER
        invariant 0 <= k <= Interrupts.MAX_NUM_INTER && |modified| == |subs| == k
        invariant Valid() && numSubRoutine <= maxSubroutines && regM.PointerWindow() == w
        invariant regM.loopCountReg == loopReg && regM.intFrameReg == frame
        invariant |starts| - |code| == |old(starts)| - |old(code)|
        invariant regM.memRegInd1 < regM.nregs - 2 ==> forall j :: 0 <= j < k ==> |modified[j]| <= regM.nregs - 2
        invariant forall j :: 0 <= j < k ==>
                    Interrupts.LegalList(regM.nregs, frame, modified[j])
                    && Recorded(bodies, loopReg, modified[j], subs[j])
      {
        ghost var before := bodies;
        var list;
        ghost var sub;
        list, sub := GenerateIsr(draws(k), rangeInd(k), offset(k), maxSubroutines);
        forall j | 0 <= j < k
          ensures Recorded(bodies, loopReg, modified[j], subs[j])
        {
          RecordedStays(before, bodies, loopReg, modified[j], subs[j]);
        }
        modified, subs := modified + [list], subs + [sub];
        k := k + 1;
      }
      isrs := Interrupts.Isrs(regM.nregs, regM.intFrameReg, modified, nesting);
      FrameInRange();
    }

    lemma FrameInRange()
      requires Valid()
      ensures regM.nregs >= 16 && 1 < regM.intFrameReg < regM.nregs
    {
    }

    /** The jump that ends the start code, to the first subroutine; with no range left
        there is none. */
    method FirstJump(d: Draw)
      requires Valid() && d.DrawBranch? && DrawAllowed(d, regM.PointerWindow())
      modifies regM`rf, regM`modifiedRegs, regM`known
      modifies memM`rangeListForLS, memM`rangeListForFetch, memM`checkSet
      modifies `pending, `startCode, `codeAddrs
      ensures Valid()
      ensures |pending| == |old(pending)| + |startCode| - |old(startCode)|
      ensures if old(memM.rangeListForFetch) == [] then startCode == old(startCode)
              else |startCode| == |old(startCode)| + 1 && startCode[..|old(startCode)|] == old(startCode)
                   && IsBranch(startCode[|old(startCode)|])
    {
      hide RegManager.Valid, MemoryValid, CodeValid, Chained, AllKept, Started, Apart, CodeRange, TableOf, DrawAllowed,
          CodeSize;
      if memM.rangeListForFetch != [] {
        ghost var codeAddrs0, places := codeAddrs, starts + pending;
        var next := EmitJump(d);
        assert places + [] == places && places + [next] + [] == starts + (pending + [next]);
        ApartMore(places, [], codeAddrs0, codeAddrs, next);
        pending := pending + [next];
      }
    }

    method EmitJump(d: Draw) returns (next: Word)
      requires regM.Valid() && MemoryValid() && CodeValid() && Started() && memM.rangeListForFetch != []
      requires d.DrawBranch? && DrawAllowed(d, regM.PointerWindow())
      modifies regM`rf, regM`modifiedRegs, regM`known
      modifies memM`rangeListForLS, memM`rangeListForFetch, memM`checkSet
      modifies `startCode, `codeAddrs
      ensures regM.Valid() && MemoryValid() && CodeValid() && Started() && Data() == old(Data())
      ensures old(codeAddrs) <= codeAddrs && CodeRange(next) <= codeAddrs && CodeRange(next) !! old(codeAddrs)
      ensures |startCode| == |old(startCode)| + 1 && startCode[..|old(startCode)|] == old(startCode)
              && IsBranch(startCode[|old(startCode)|])
    {
      hide RegManager.Valid, MemoryValid, CodeValid, TableOf, Sets, Far, Produced, Touched, CodeRange, TakenFor,
          AllFree, Fresh, ChangesOnly;
      PointersProtected();
      var instr;
      ghost var g;
      ghost var consts := StartTable(regM, 1 + maxLoopIt, saveSpace);
      instr, next, g := GenerateBranch(d, PROGRAM_START + 4 * regM.nregs);
      JumpLeaves(instr, regM.PointerWindow(), consts);
      ProducedFits(g, regM.nregs, maxLoopIt != 0);
      SetsMore(startCode, [instr], consts, regM.nregs);
      startCode := startCode + [instr];
    }

    /** The first pending subroutine is done. */
    method PopPending()
      requires Valid() && pending != []
      modifies `pending, `starts
      ensures Valid() && pending == old(pending)[1..] && starts == old(starts) + [old(pending)[0]]
    {
      hide RegManager.Valid, MemoryValid, CodeValid, BodiesValid, Started, Apart;
      assert starts + pending == starts + [pending[0]] + pending[1..];
      starts, pending := starts + [pending[0]], pending[1..];
    }

    /** Fills all pending subroutines, and those they branch to. */
    method ProcessPending(draws: nat -> seq<Draw>, maxSubroutines: nat)
      requires Valid() && numSubRoutine <= maxSubroutines
      requires forall k, u :: 0 <= u < |draws(k)| ==> DrawAllowed(draws(k)[u], regM.PointerWindow())
      modifies this`code, this`bodies, this`starts, this`pending, this`numSubRoutine, this`relied, this`codeAddrs
      modifies regM`rf, regM`modifiedRegs, regM`known, regM`az, regM`an, regM`ac, regM`av, regM`avs
      modifies memM
      ensures Valid() && pending == [] && |starts| - |code| == |old(starts)| - |old(code)|
      ensures old(starts) + old(pending) <= starts
    {
      hide Valid, DrawAllowed, AllTouched, AllFree, CodeSize, AllPlain, FilledFrom;
      ghost var w := regM.PointerWindow();
      while |pending| != 0
        invariant Valid() && numSubRoutine <= maxSubroutines && regM.PointerWindow() == w
        invariant |starts| - |code| == |old(starts)| - |old(code)|
        invariant old(starts) + old(pending) <= starts + pending
        decreases |pending| + maxSubroutines - numSubRoutine
      {
        FillSubroutine(pending[0], SUBROUTINE_SIZE, draws(|code|), maxSubroutines);
        PopPending();
      }
    }

    /** A generated program is well formed for its runs: pointer registers known at every
        head, and no recorded byte ever written. */
    lemma IsWellFormed()
      requires Valid()
      ensures WellFormed(bodies, Params(), relied)
    {
      hide Produced, Includes, TableOf, Represents;
      PointersProtected();
      forall k | 0 <= k < |bodies|
        ensures WellGenerated(bodies[k], Params(), relied)
      {
        forall i | 0 <= i < |bodies[k]|
          ensures KeepsTable(bodies[k][i], relied)
        {
          assert Kept(bodies[k][i], relied, Data());
        }
      }
    }

    /** The code and the data of a generated program are apart: each subroutine with its
        tail fits the range taken for it, which no other subroutine shares, no instruction
        writes and no recorded byte lies in. */
    lemma CodeApart(k: nat, l: nat)
      requires Valid() && k < |starts| && l < |starts|
      ensures k != l ==> CodeRange(starts[k]) !! CodeRange(starts[l])
      ensures k < |code| ==>
                forall a :: starts[k] <= a < starts[k] + CodeSize(code[k]) + TAIL_SIZE ==> a in CodeRange(starts[k])
      ensures CodeRange(starts[k]) !! relied.Keys
      ensures forall b, i :: 0 <= b < |bodies| && 0 <= i < |bodies[b]| ==>
                CodeRange(starts[k]) !! bodies[b][i].writes
    {
      hide RegManager.Valid, Chained, Started, CodeSize, MM.Consistent, AllCovered, LoadStores.MemInside;
      var places := starts + pending;
      assert places[k] == starts[k] && places[l] == starts[l];
      forall b, i | 0 <= b < |bodies| && 0 <= i < |bodies[b]|
        ensures CodeRange(starts[k]) !! bodies[b][i].writes
      {
        assert Kept(bodies[b][i], relied, Data());
      }
    }

    /** So no run writes into the code of any subroutine. */
    lemma RunKeepsCode(k: nat, c: Config, es: seq<Event>, d: Config, a: int)
      requires Valid() && k < |starts| && a in CodeRange(starts[k])
      requires Sound(bodies, Params(), relied, c) && Runs(bodies, Params(), c, es, d)
      ensures d.s.mem(a) == c.s.mem(a)
    {
      hide Valid, CodeRange, WellFormed, Sound, Runs;
      IsWellFormed();
      CodeApart(k, k);
      RunFrame(bodies, Params(), relied, c, es, d, a);
    }

    /** Memory loaded from the emitted sections holds every byte relied on. */
    lemma LoadedMemory(out: seq<(int, Byte)>, random: int -> Byte, mem: int -> Byte)
      requires Valid()
      requires MM.Emits(out, memM.lsFillRangeList + memM.loadNotSafeRangeList, memM.accessMem, random)
      requires forall i :: 0 <= i < |out| ==> mem(out[i].0) == out[i].1
      ensures MemAgrees(relied, mem)
    {
      hide MM.Consistent, Chained, AllKept, Represents, TableOf;
      forall j | j in relied
        ensures mem(j) == relied[j]
      {
        assert MM.Covered(memM.lsFillRangeList, j);
        var i :| 0 <= i < |memM.lsFillRangeList| && memM.lsFillRangeList[i].first <= j < memM.lsFillRangeList[i].second;
        assert (memM.lsFillRangeList + memM.loadNotSafeRangeList)[i] == memM.lsFillRangeList[i];
        assert (j, MM.EmittedByte(memM.accessMem, j, random)) in out;
      }
    }

    /** The state in which the start code arrives at a subroutine. */
    ghost function Arrival(s: State, o: Oracle, sub: nat): Config
      requires Valid() && |s.regs| == regM.nregs
      reads this, regM, memM
    {
      Config(sub, 0, ExecAll(s, startCode, o))
    }

    lemma ArrivalSound(out: seq<(int, Byte)>, random: int -> Byte, s: State, o: Oracle, sub: nat)
      requires Valid() && |s.regs| == regM.nregs && sub < |bodies|
      requires MM.Emits(out, memM.lsFillRangeList + memM.loadNotSafeRangeList, memM.accessMem, random)
      requires forall i :: 0 <= i < |out| ==> s.mem(out[i].0) == out[i].1
      ensures Sound(bodies, Params(), relied, Arrival(s, o, sub))
      ensures Arrival(s, o, sub).s.regs[regM.intFrameReg] == saveSpace
      ensures Arrival(s, o, sub).s.regs[regM.loopCountReg] == (1 + maxLoopIt) % 0x1_0000
    {
      hide TableOf, MemAgrees, RegsAgree, ExecAll, RegManager.Valid, MemoryValid, BodiesValid;
      LoadedMemory(out, random, s.mem);
      PointersApart(regM);
      var consts, count := TableOf(regM.constRegs), (1 + maxLoopIt) % 0x1_0000;
      WithoutOne(consts[regM.loopCountReg := count], regM.intFrameReg, saveSpace, ExecAll(s, startCode, o).regs);
      WithoutOne(consts, regM.loopCountReg, count, ExecAll(s, startCode, o).regs);
    }

    /** The main result about igen: load the emitted sections and run the start code in any
        state, to any subroutine; then whatever way control takes, at every point of every
        iteration what the generator knew is so, and protected loads find their bytes. */
    lemma GeneratedProgramSound(out: seq<(int, Byte)>, random: int -> Byte, s: State, o: Oracle, sub: nat,
                                es: seq<Event>, d: Config)
      requires Valid() && |s.regs| == regM.nregs && sub < |bodies|
      requires MM.Emits(out, memM.lsFillRangeList + memM.loadNotSafeRangeList, memM.accessMem, random)
      requires forall i :: 0 <= i < |out| ==> s.mem(out[i].0) == out[i].1
      requires Runs(bodies, Params(), Arrival(s, o, sub), es, d)
      ensures Sound(bodies, Params(), relied, d)
    {
      hide Valid, Runs, WellFormed, Sound;
      IsWellFormed();
      ArrivalSound(out, random, s, o, sub);
      RunSound(bodies, Params(), relied, Arrival(s, o, sub), es, d);
    }

    /** A generated subroutine entered with v in the loop register stays in its loop until
        its tail has been run v times, branches apart. */
    lemma SubroutineRepeats(c: Config, es: seq<Event>, d: Config)
      requires Valid() && Sound(bodies, Params(), relied, c) && Runs(bodies, Params(), c, es, d)
      requires forall i :: 0 <= i < |es| ==> !es[i].Taken?
      requires regM.loopCountReg < |c.s.regs| && Tails(es) < c.s.regs[regM.loopCountReg]
      ensures d.sub == c.sub && |d.s.regs| == regM.nregs
      ensures d.s.regs[regM.loopCountReg] == c.s.regs[regM.loopCountReg] - Tails(es)
    {
      hide WellFormed, Sound, Runs, AllTouched, MemoryValid, CodeValid, Started, PlacesValid, Chained, AllKept;
      IsWellFormed();
      assert Placed(bodies, Params(), c) by {
        SoundPlaced(bodies, Params(), relied, c);
      }
      LoopCounts(bodies, Params(), relied, c, es, d);
    }

    // ----- with interrupts

    ghost function EnvOf(isrs: Interrupts.Isrs): IR.Env
      reads `bodies, `relied, regM`constRegs, regM`loopCountReg, regM`intFrameReg
    {
      IR.Env(bodies, Params(), relied, isrs, saveSpace)
    }

    /** The interrupt routines are those generated, their lists fit the save areas, and the
        areas lie outside all ranges the allocator was given. */
    ghost predicate RoutinesPlaced(isrs: Interrupts.Isrs)
      reads regM`intFrameReg
    {
      && Interrupts.Legal(isrs) && Interrupts.Short(isrs) && isrs.n == regM.nregs && isrs.frame == regM.intFrameReg
      && forall a, i :: Interrupts.InAreas(isrs, saveSpace, a) && 0 <= i < |initial| ==> !MM.Holds(initial[i], a)
    }

    lemma EnvReady(isrs: Interrupts.Isrs)
      requires Valid() && RoutinesPlaced(isrs)
      ensures IR.Ready(EnvOf(isrs))
    {
      hide Interrupts.Legal, Interrupts.Short, Interrupts.InAreas, Chained, RegManager.Valid, Started;
      IsWellFormed();
      forall k, i, j | 0 <= k < |bodies| && 0 <= i < |bodies[k]| && j in bodies[k][i].writes
        ensures j in memM.checkSet
      {
        assert Kept(bodies[k][i], relied, Data());
      }
      forall j | j in memM.checkSet
        ensures !Interrupts.InAreas(isrs, saveSpace, j)
      {
        assert j in memM.State().used;
      }
    }

    /** A generated program that interrupts cut into, at any points and as often as they
        like: all that the generator knew is so, wherever the run has come. */
    lemma InterruptedProgramSound(out: seq<(int, Byte)>, random: int -> Byte, s: State, o: Oracle, sub: nat,
                                  isrs: Interrupts.Isrs, trace: seq<IR.Stop>)
      requires Valid() && RoutinesPlaced(isrs) && |s.regs| == regM.nregs && sub < |bodies|
      requires MM.Emits(out, memM.lsFillRangeList + memM.loadNotSafeRangeList, memM.accessMem, random)
      requires forall i :: 0 <= i < |out| ==> s.mem(out[i].0) == out[i].1
      requires IR.Traced(EnvOf(isrs), {}, Arrival(s, o, sub), trace)
      ensures Sound(bodies, Params(), relied, IR.End(Arrival(s, o, sub), trace))
      ensures IR.Holding(EnvOf(isrs), IR.End(Arrival(s, o, sub), trace))
    {
      hide Valid, WellFormed, Sound, Interrupts.Legal, Interrupts.Short, IR.AreasApart, IR.Traced;
      EnvReady(isrs);
      ArrivalSound(out, random, s, o, sub);
      IR.TracedSound(EnvOf(isrs), {}, Arrival(s, o, sub), trace);
    }

    /** A generated routine that interrupts a run at d: every run of its subroutine, with
        interrupts of its own, writes only registers its routine saves, and the whole
        activation gives the interrupted context back. */
    lemma GeneratedRoutineRestores(isrs: Interrupts.Isrs, d: Config, s: Interrupts.Cpu, k: nat, active: set<nat>,
                                   start: Interrupts.Body, c: Config, trace: seq<IR.Stop>)
      requires Valid() && RoutinesPlaced(isrs) && IR.Kinds(active) && k !in active && k < Interrupts.MAX_NUM_INTER
      requires IR.Holding(EnvOf(isrs), d) && IR.Mirrors(EnvOf(isrs), s, d.s) && IR.Opening(Params(), start)
      requires c.sub < |bodies| && c.index == 0
      requires Recorded(bodies, regM.loopCountReg, isrs.modified[k], c.sub)
      requires IR.Entered(EnvOf(isrs), IR.Saved(EnvOf(isrs), s, k), k, active + {k}, start, c.s)
      requires IR.Traced(EnvOf(isrs), active + {k}, c, trace) && IR.Nests(EnvOf(isrs), k, trace)
      requires IR.Within(c, trace, c.sub)
      ensures var act := Interrupts.Act(k, IR.BodyOf(EnvOf(isrs), k, start, c, trace));
              && s.regs[isrs.frame] == saveSpace && Interrupts.ActFits(isrs, saveSpace, act, active)
              && var t := Interrupts.ExecAct(isrs, s, act, active);
                 t.regs == s.regs && t.status == s.status && t.iret == s.iret
    {
      hide Valid, IR.Ready, Interrupts.Legal, Interrupts.Short, IR.Traced, IR.Holding, IR.Entered, IR.Mirrors,
          IR.BodyOf, AllTouched, Recorded, IR.Covers, IR.Within, IR.Opening, IR.Nests, Interrupts.ActFits,
          Interrupts.ExecAct, Interrupts.ActWrites, IR.Follows, IR.Saved;
      EnvReady(isrs);
      IR.ListBelow(EnvOf(isrs), k);
      RecordedCovers(EnvOf(isrs), k, c.sub);
      IR.RoutineRestores(EnvOf(isrs), d, s, k, active, start, c, trace, c.sub);
    }
  }

  /** Fresh addresses are fresh as data. A branch takes none. */
  lemma FreshData(g: Gen, used: set<int>, used': set<int>, code: set<int>, code': set<int>)
    requires Fresh(g, used, used') && code <= used
    requires code' == code || (g.bytes == map[] && g.writes == {} && used' - code' == used - code)
    ensures Fresh(g, used - code, used' - code') && used <= used'
  {
  }

  lemma ReliedApart(relied: map<int, Byte>, g: Gen, data: set<int>, data': set<int>, used': set<int>, code': set<int>)
    requires (forall j :: j in relied ==> j in data) && Fresh(g, data, data') && data' == used' - code'
    ensures Relying(relied, g).Keys !! code'
  {
    forall j | j in Relying(relied, g)
      ensures j !in code'
    {
      assert j in g.bytes || j in relied;
    }
  }

  /** One more instruction for a body, with fresh addresses: all that is kept of finished
      bodies and of this one still is. */
  lemma BodyGrows(body: seq<Gen>, bodies: seq<seq<Gen>>, p: Setup, relied: map<int, Byte>, g: Gen, used: set<int>,
                  used': set<int>, code: set<int>, code': set<int>)
    requires Chained(body, p) && AllKept(body, relied, used - code) && forall j :: j in relied ==> j in used - code
    requires Produced(g, p.n, p.looping) && g.before == KnownAt(body, |body|, p)
    requires Includes(g.after, p.consts) && p.frame !in Touched(g.before, g.instr)
    requires Fresh(g, used, used') && code <= used
    requires code' == code || (g.bytes == map[] && g.writes == {} && used' - code' == used - code)
    ensures Chained(body + [g], p) && AllKept(body + [g], Relying(relied, g), used' - code')
    ensures forall k :: 0 <= k < |bodies| && AllKept(bodies[k], relied, used - code) ==>
              AllKept(bodies[k], Relying(relied, g), used' - code')
    ensures used <= used' && Relying(relied, g).Keys !! code'
    ensures AllTouched(body + [g]) == AllTouched(body) + Touched(g.before, g.instr)
  {
    hide Chained, AllKept, Produced, Includes, Touched, AllTouched, Fresh;
    ChainedMore(body, p, g);
    FreshData(g, used, used', code, code');
    ReliedApart(relied, g, used - code, used' - code', used', code');
    AllKeptMore(body, relied, used - code, g, used' - code');
    EachKept(bodies, relied, used - code, g, used' - code');
    TouchedMore(body, g);
  }

  lemma AccessFree(a: Access, w: Window)
    requires (a.load ==> FreeIn(w, a.rd)) && (PostModifies(a.mode) ==> FreeIn(w, a.rn))
    requires a.load && a.size == 3 ==> FreeIn(w, a.rd + 1)
    ensures AllFree(AccessTouched(a), w)
  {
  }

  lemma StartInRange(first: int, start: int)
    requires first <= start <= first + 1
    ensures CodeRange(start) <= MM.Addresses(Range(first, first + MM.MAX_SUB_ROUTINE_SIZE))
  {
  }

  function Below(n: nat): (s: set<nat>)
    ensures |s| == n && forall r: nat :: r in s <==> r < n
  {
    if n == 0 then {} else Below(n - 1) + {n - 1}
  }

  /** A list without repetition is no longer than a set that holds its elements. */
  lemma {:induction false} NoLonger(list: seq<nat>, s: set<nat>)
    requires forall i, j :: 0 <= i < j < |list| ==> list[i] != list[j]
    requires forall i :: 0 <= i < |list| ==> list[i] in s
    ensures |list| <= |s|
  {
    if list != [] {
      NoLonger(list[..|list| - 1], s - {list[|list| - 1]});
    }
  }

  /** A list of registers without repetition that leaves out two of them. */
  lemma TwoMissing(list: seq<nat>, n: nat, a: nat, b: nat)
    requires forall i, j :: 0 <= i < j < |list| ==> list[i] != list[j]
    requires a < n && b < n && a != b && forall r :: r in list ==> r < n && r != a && r != b
    ensures |list| <= n - 2
  {
    forall i | 0 <= i < |list|
      ensures list[i] in Below(n) - {a} - {b}
    {
      assert list[i] in list;
    }
    NoLonger(list, Below(n) - {a} - {b});
  }

  lemma FreeLong(p: MM.Pool, initial: seq<Range>)
    requires MM.Consistent(p, initial)
    ensures MM.AllLong(p.fetch) && MM.AllLong(p.ls)
  {
  }

  lemma WithoutOne(consts: map<nat, Word>, r: nat, v: Word, regs: seq<Word>)
    requires r !in consts && RegsAgree(consts[r := v], regs)
    ensures RegsAgree(consts, regs) && r < |regs| && regs[r] == v
  {
    forall q | q in consts
      ensures q < |regs| && regs[q] == consts[q]
    {
      assert q in consts[r := v];
    }
    assert r in consts[r := v];
  }

  lemma ProducedFits(g: Gen, n: nat, looping: bool)
    requires Produced(g, n, looping)
    ensures Fits(g.instr, n)
  {
  }

  /** A branch changes no pointer register. */
  lemma JumpLeaves(i: Instr, w: Window, consts: map<nat, Word>)
    requires IsBranch(i) && (i.FarBranch? ==> FreeIn(w, i.rj)) && (i.linked ==> FreeIn(w, 14)) && Pointers(consts, w)
    ensures Leaves([i], consts)
  {
    assert Touched(NOTHING, i) <= (if i.linked then {14} else {}) + if i.FarBranch? then {i.rj} else {};
  }

  /** The list of a routine that runs a subroutine, or none: exactly the registers that
      its instructions may change, r0, r1 and the loop register. */
  ghost predicate Recorded(bodies: seq<seq<Gen>>, loopReg: nat, modified: seq<nat>, sub: int) {
    && -1 <= sub < |bodies|
    && (set r | r in modified) == {0, 1, loopReg} + if sub < 0 then {} else AllTouched(bodies[sub])
  }

  /** Twelve moves change twelve registers. */
  lemma AllListed(bodies: seq<seq<Gen>>, modified: seq<nat>, sub: int, draws: seq<Draw>)
    requires 0 <= sub < |bodies| && Recorded(bodies, 14, modified, sub) && Interrupts.LegalList(16, 15, modified)
    requires |draws| == 12 && forall u :: 0 <= u < 12 ==> draws[u] == DrawMove(MovImm(u + 2, 0))
    requires Code(bodies[sub]) == PlainCode(draws)
    ensures |modified| == 15
  {
    hide AllTouched, Below;
    forall r: nat | r < 15
      ensures r in modified
    {
      if 2 <= r < 14 {
        MoveTouched(bodies[sub], draws, r);
      }
      assert r in (set q | q in modified);
    }
    assert forall r :: r in modified ==> r < 15;
    Complete(modified, 15);
  }

  lemma MoveTouched(body: seq<Gen>, draws: seq<Draw>, r: nat)
    requires |draws| == 12 && (forall u :: 0 <= u < 12 ==> draws[u] == DrawMove(MovImm(u + 2, 0))) && 2 <= r < 14
    requires Code(body) == PlainCode(draws)
    ensures r in AllTouched(body)
  {
    hide AllTouched;
    assert Code(body)[r - 2] == PlainCode(draws)[r - 2] == MovImm(r, 0);
    EachTouched(body, r - 2);
  }

  /** A list without repetition of all numbers below n. */
  lemma Complete(list: seq<nat>, n: nat)
    requires forall i, j :: 0 <= i < j < |list| ==> list[i] != list[j]
    requires forall r: nat :: r in list <==> r < n
    ensures |list| == n
  {
    NoShorter(list, Below(n));
    assert forall i :: 0 <= i < |list| ==> list[i] in list;
    NoLonger(list, Below(n));
  }

  lemma {:induction false} NoShorter(list: seq<nat>, s: set<nat>)
    requires forall r :: r in s ==> r in list
    ensures |s| <= |list|
  {
    if list == [] {
      assert s == {};
    } else {
      var rest, last := list[..|list| - 1], list[|list| - 1];
      assert list == rest + [last];
      NoShorter(rest, s - {last});
    }
  }

  lemma RecordedCovers(e: IR.Env, k: nat, b: nat)
    requires k < |e.isrs.modified| && b < |e.bodies| && Recorded(e.bodies, e.p.loopReg, e.isrs.modified[k], b)
    ensures IR.Covers(e, k, b)
  {
    hide AllTouched;
    forall r | r in AllTouched(e.bodies[b]) + {e.p.loopReg, 0}
      ensures r in e.isrs.modified[k]
    {
      assert r in (set q | q in e.isrs.modified[k]);
    }
  }

  lemma RecordedStays(bodies: seq<seq<Gen>>, more: seq<seq<Gen>>, loopReg: nat, modified: seq<nat>, sub: int)
    requires |bodies| <= |more| && more[..|bodies|] == bodies && Recorded(bodies, loopReg, modified, sub)
    ensures Recorded(more, loopReg, modified, sub)
  {
    assert sub >= 0 ==> more[..|bodies|][sub] == more[sub];
  }

  /** A start the range constraint allows, from the index-th fetch range. */
  function Solution(fetch: seq<Range>, ind: nat, offset: nat): int
    requires ind < |fetch|
  {
    var room := fetch[ind].second - fetch[ind].first - MM.MAX_SUB_ROUTINE_SIZE;
    fetch[ind].first + if room > 0 then offset % room else 0
  }

  lemma ChosenSolves(p: MM.Pool, initial: seq<Range>, ind: nat, offset: nat)
    requires MM.Consistent(p, initial) && ind < |p.fetch|
    ensures MM.Solves(p.fetch[ind], Solution(p.fetch, ind, offset), MM.MAX_SUB_ROUTINE_SIZE)
  {
    assert MM.Long(p.fetch[ind]);
  }

  /** A new instruction: its known values follow, and its addresses were unused. */
  ghost predicate Added(g: Gen, n: nat, looping: bool, k: Known, k': Known, used: set<int>, used': set<int>) {
    Produced(g, n, looping) && g.before == k && g.after == k' && Fresh(g, used, used')
  }

  /** The instruction's addresses were unused before it. */
  ghost predicate Fresh(g: Gen, used: set<int>, used': set<int>) {
    && used <= used'
    && (forall j :: j in g.bytes ==> j !in used && j in used')
    && (forall j :: j in g.writes ==> j !in used && j in used' && j !in g.bytes)
  }

  lemma AccessFresh(k: Known, k': Known, a: Access, at: int, safe: bool, data: Byte, used: set<int>, used': set<int>)
    requires if LoadStores.TakesBuffer(a, safe) then
               used' == used + MM.Addresses(LoadStores.Buffer(at)) && MM.Addresses(LoadStores.Buffer(at)) !! used
             else used' == used
    requires a.testSet ==> safe
    ensures Fresh(AccessGen(k, k', a, at, safe, data), used, used')
  {
    hide MM.Addresses;
    forall j | at <= j < at + 8
      ensures j in MM.Addresses(LoadStores.Buffer(at))
    {
      LoadStores.AddressesIn(at, j);
    }
  }

  /** Recording in a fresh buffer keeps older bytes. */
  lemma Grown(mem: map<int, Byte>, at: int, data: Byte, used: set<int>)
    ensures MM.Addresses(LoadStores.Buffer(at)) !! used ==>
              forall j :: j in mem && j in used ==> (mem + LoadStores.ByteMap(at, 8, data))[j] == mem[j]
  {
    forall j | at <= j < at + 8
      ensures j in MM.Addresses(LoadStores.Buffer(at))
    {
      LoadStores.AddressesIn(at, j);
    }
  }

  /** What is relied on lies in the sections to be emitted. */
  ghost predicate AllCovered(relied: map<int, Byte>, list: seq<Range>) {
    forall j :: j in relied ==> MM.Covered(list, j)
  }

  lemma CoveredMore(list: seq<Range>, r: Range, j: int)
    requires MM.Covered(list, j) || r.first <= j < r.second
    ensures MM.Covered(list + [r], j)
  {
    if MM.Covered(list, j) {
      var i :| 0 <= i < |list| && list[i].first <= j < list[i].second;
      assert (list + [r])[i] == list[i];
    } else {
      assert (list + [r])[|list|] == r;
    }
  }

  lemma CoveredGrows(relied: map<int, Byte>, g: Gen, list: seq<Range>, a: Access, at: int, safe: bool)
    requires AllCovered(relied, list)
    requires forall j :: j in g.bytes ==> LoadStores.TakesBuffer(a, safe) && at <= j < at + 8
    ensures var more := if LoadStores.TakesBuffer(a, safe) then [LoadStores.Buffer(at)] else [];
            AllCovered(Relying(relied, g), list + more)
  {
    hide MM.Covered;
    if LoadStores.TakesBuffer(a, safe) {
      forall j | j in Relying(relied, g)
        ensures MM.Covered(list + [LoadStores.Buffer(at)], j)
      {
        CoveredMore(list, LoadStores.Buffer(at), j);
      }
    } else {
      assert list + [] == list;
    }
  }

  /** What is relied on is recorded. */
  lemma RecordedRelied(relied: map<int, Byte>, g: Gen, mem: map<int, Byte>, mem': map<int, Byte>, used: set<int>)
    requires forall j :: j in relied ==> j in mem && mem[j] == relied[j] && j in used
    requires forall j :: j in mem ==> j in mem' && (j in used ==> mem'[j] == mem[j])
    requires forall j :: j in g.bytes ==> j in mem' && mem'[j] == g.bytes[j]
    ensures forall j :: j in Relying(relied, g) ==> j in mem' && mem'[j] == Relying(relied, g)[j]
  {
  }
}
