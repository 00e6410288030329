/** Save and restore of the interrupted context by the generated interrupt routines, with
    nesting (igen/main.cpp:627-770, igen/regs.h:195-220). */
module Interrupts {

  const MAX_NUM_INTER: nat := 3

  /** n registers; the frame register; for each interrupt the registers its routine
      changes, in the order they were recorded, and whether it may be interrupted. */
  datatype Isrs = Isrs(n: nat, frame: nat, modified: seq<seq<nat>>, nesting: seq<bool>)

  datatype Cpu = Cpu(regs: seq<int>, status: int, iret: int, enabled: bool, mem: int -> int)

  datatype Instr =
    | Str(r: nat, slot: nat) | Ldr(r: nat, slot: nat)     // relative to the frame register, in words
    | MovFromStatus(r: nat) | MovToStatus(r: nat)
    | MovFromIret(r: nat) | MovToIret(r: nat)
    | Gie | Gid | Rti

  /** Registers a routine changes: distinct, r0 and r1 among them, never the frame. */
  ghost predicate Legal(p: Isrs) {
    && p.n >= 16 && p.frame < p.n && p.frame > 1 && |p.modified| == |p.nesting| == MAX_NUM_INTER
    && forall k :: 0 <= k < MAX_NUM_INTER ==> LegalList(p.n, p.frame, p.modified[k])
  }

  ghost predicate LegalList(n: nat, frame: nat, list: seq<nat>) {
    && (forall i :: 0 <= i < |list| ==> list[i] < n && list[i] != frame)
    && (forall i, j :: 0 <= i < j < |list| ==> list[i] != list[j])
    && 0 in list && 1 in list
  }

  // ----- the emitted code

  function SaveRegs(list: seq<nat>, first: nat): (r: seq<Instr>)
    ensures |r| == |list| && forall i :: 0 <= i < |list| ==> r[i] == Str(list[i], first + i)
  {
    seq(|list|, i requires 0 <= i < |list| => Str(list[i], first + i))
  }

  function RestoreRegs(list: seq<nat>, first: nat): (r: seq<Instr>)
    ensures |r| == |list| && forall i :: 0 <= i < |list| ==> r[i] == Ldr(list[i], first + i)
  {
    seq(|list|, i requires 0 <= i < |list| => Ldr(list[i], first + i))
  }

  function SaveCode(p: Isrs, k: nat): seq<Instr>
    requires Legal(p) && k < MAX_NUM_INTER
  {
    SaveRegs(p.modified[k], k * p.n) + [MovFromStatus(0), Str(0, k * p.n + p.n - 2)]
    + if p.nesting[k] then [MovFromIret(1), Str(1, k * p.n + p.n - 1), Gie] else []
  }

  function RestoreCode(p: Isrs, k: nat): seq<Instr>
    requires Legal(p) && k < MAX_NUM_INTER
  {
    (if p.nesting[k] then [Gid, Ldr(1, k * p.n + p.n - 1), MovToIret(1)] else [])
    + [Ldr(0, k * p.n + p.n - 2), MovToStatus(0)] + RestoreRegs(p.modified[k], k * p.n) + [Rti]
  }

  /** Printing the save part of an interrupt routine. */
  method PrintSave(p: Isrs, k: nat) returns (code: seq<Instr>)
    requires Legal(p) && k < MAX_NUM_INTER
    ensures code == SaveCode(p, k)
  {
    code := [];
    var it := 0;
    while it < |p.modified[k]|
      invariant 0 <= it <= |p.modified[k]| && code == SaveRegs(p.modified[k][..it], k * p.n)
    {
      code := code + [Str(p.modified[k][it], it + k * p.n)];
      it := it + 1;
    }
    assert p.modified[k][..it] == p.modified[k];
    code := code + [MovFromStatus(0), Str(0, k * p.n + (p.n - 2))];
    if p.nesting[k] {
      code := code + [MovFromIret(1), Str(1, k * p.n + (p.n - 1)), Gie];
    }
  }

  /** Printing the restore part. */
  method PrintRestore(p: Isrs, k: nat) returns (code: seq<Instr>)
    requires Legal(p) && k < MAX_NUM_INTER
    ensures code == RestoreCode(p, k)
  {
    code := [];
    if p.nesting[k] {
      code := [Gid, Ldr(1, k * p.n + (p.n - 1)), MovToIret(1)];
    }
    code := code + [Ldr(0, k * p.n + (p.n - 2)), MovToStatus(0)];
    var start := code;
    var it := 0;
    while it < |p.modified[k]|
      invariant 0 <= it <= |p.modified[k]| && code == start + RestoreRegs(p.modified[k][..it], k * p.n)
    {
      code := code + [Ldr(p.modified[k][it], it + k * p.n)];
      it := it + 1;
    }
    assert p.modified[k][..it] == p.modified[k];
    code := code + [Rti];
  }

  // ----- execution

  function RegsOf(i: Instr): nat {
    match i
    case Str(r, _) => r case Ldr(r, _) => r
    case MovFromStatus(r) => r case MovToStatus(r) => r
    case MovFromIret(r) => r case MovToIret(r) => r
    case _ => 0
  }

  /** Address of a word of the save area. */
  function Slot(base: int, slot: nat): int {
    base + 4 * slot
  }

  function Store(mem: int -> int, a: int, v: int): int -> int {
    (x: int) => if x == a then v else mem(x)
  }

  function ExecInstr(frame: nat, s: Cpu, i: Instr): (t: Cpu)
    requires frame < |s.regs| && RegsOf(i) < |s.regs|
    ensures |t.regs| == |s.regs|
  {
    match i
    case Str(r, slot) => s.(mem := Store(s.mem, Slot(s.regs[frame], slot), s.regs[r]))
    case Ldr(r, slot) => s.(regs := s.regs[r := s.mem(Slot(s.regs[frame], slot))])
    case MovFromStatus(r) => s.(regs := s.regs[r := s.status])
    case MovToStatus(r) => s.(status := s.regs[r])
    case MovFromIret(r) => s.(regs := s.regs[r := s.iret])
    case MovToIret(r) => s.(iret := s.regs[r])
    case Gie => s.(enabled := true)
    case Gid => s.(enabled := false)
    case Rti => s.(enabled := true)
  }

  ghost predicate CodeFits(code: seq<Instr>, n: nat) {
    forall i :: 0 <= i < |code| ==> RegsOf(code[i]) < n
  }

  function ExecCode(frame: nat, s: Cpu, code: seq<Instr>): (t: Cpu)
    requires frame < |s.regs| && CodeFits(code, |s.regs|)
    ensures |t.regs| == |s.regs|
  {
    if code == [] then s else ExecInstr(frame, ExecCode(frame, s, code[..|code| - 1]), code[|code| - 1])
  }

  lemma ExecCodeMore(frame: nat, s: Cpu, code: seq<Instr>, i: Instr)
    requires frame < |s.regs| && CodeFits(code, |s.regs|) && RegsOf(i) < |s.regs|
    ensures CodeFits(code + [i], |s.regs|)
    ensures ExecCode(frame, s, code + [i]) == ExecInstr(frame, ExecCode(frame, s, code), i)
  {
    assert (code + [i])[..|code|] == code;
  }

  lemma {:induction false} ExecCodeConcat(frame: nat, s: Cpu, a: seq<Instr>, b: seq<Instr>)
    requires frame < |s.regs| && CodeFits(a, |s.regs|) && CodeFits(b, |s.regs|)
    ensures CodeFits(a + b, |s.regs|)
    ensures ExecCode(frame, s, a + b) == ExecCode(frame, ExecCode(frame, s, a), b)
  {
    if b == [] {
      assert a + b == a;
    } else {
      var rest := b[..|b| - 1];
      ExecCodeConcat(frame, s, a, rest);
      assert a + b == (a + rest) + [b[|b| - 1]];
      ExecCodeMore(frame, s, a + rest, b[|b| - 1]);
    }
  }

  // ----- saving and restoring registers one by one

  /** Word j of the area from first on holds the j-th register of the list; the rest of
      memory is as before. */
  ghost predicate Saved(mem: int -> int, before: int -> int, regs: seq<int>, base: int, list: seq<nat>, first: nat) {
    && (forall j :: 0 <= j < |list| ==> list[j] < |regs| && mem(Slot(base, first + j)) == regs[list[j]])
    && (forall x :: (x < Slot(base, first) || x >= Slot(base, first + |list|)) ==> mem(x) == before(x))
  }

  /** The j-th register of the list holds word j of the area; the others are as before. */
  ghost predicate Loaded(regs: seq<int>, before: seq<int>, mem: int -> int, base: int, list: seq<nat>, first: nat) {
    && |regs| == |before|
    && (forall j :: 0 <= j < |list| ==> list[j] < |regs| && regs[list[j]] == mem(Slot(base, first + j)))
    && (forall r :: 0 <= r < |regs| && r !in list ==> regs[r] == before[r])
  }

  lemma {:induction false} SaveRegsDone(frame: nat, s: Cpu, list: seq<nat>, first: nat)
    requires frame < |s.regs| && forall i :: 0 <= i < |list| ==> list[i] < |s.regs|
    ensures CodeFits(SaveRegs(list, first), |s.regs|)
    ensures var t := ExecCode(frame, s, SaveRegs(list, first));
            t == s.(mem := t.mem) && Saved(t.mem, s.mem, s.regs, s.regs[frame], list, first)
  {
    hide ExecCode;
    if list == [] {
      ExecCodeNone(frame, s);
    } else {
      var rest := list[..|list| - 1];
      SaveRegsDone(frame, s, rest, first);
      assert SaveRegs(list, first) == SaveRegs(rest, first) + [Str(list[|list| - 1], first + |list| - 1)];
      ExecCodeMore(frame, s, SaveRegs(rest, first), Str(list[|list| - 1], first + |list| - 1));
    }
  }

  lemma ExecCodeNone(frame: nat, s: Cpu)
    requires frame < |s.regs|
    ensures CodeFits([], |s.regs|) && ExecCode(frame, s, []) == s
  {
  }

  lemma LoadedMore(regs: seq<int>, before: seq<int>, mem: int -> int, base: int, rest: seq<nat>, first: nat, r: nat)
    requires Loaded(regs, before, mem, base, rest, first) && r < |regs| && r !in rest
    ensures Loaded(regs[r := mem(Slot(base, first + |rest|))], before, mem, base, rest + [r], first)
  {
  }

  lemma {:induction false} RestoreRegsDone(frame: nat, s: Cpu, list: seq<nat>, first: nat)
    requires frame < |s.regs| && forall i :: 0 <= i < |list| ==> list[i] < |s.regs| && list[i] != frame
    requires forall i, j :: 0 <= i < j < |list| ==> list[i] != list[j]
    ensures CodeFits(RestoreRegs(list, first), |s.regs|)
    ensures var t := ExecCode(frame, s, RestoreRegs(list, first));
            t == s.(regs := t.regs) && Loaded(t.regs, s.regs, s.mem, s.regs[frame], list, first)
  {
    hide ExecCode;
    if list == [] {
      ExecCodeNone(frame, s);
    } else {
      var rest, last := list[..|list| - 1], list[|list| - 1];
      RestoreRegsDone(frame, s, rest, first);
      assert RestoreRegs(list, first) == RestoreRegs(rest, first) + [Ldr(last, first + |rest|)];
      ExecCodeMore(frame, s, RestoreRegs(rest, first), Ldr(last, first + |rest|));
      assert frame !in rest && rest + [last] == list;
      LoadedMore(ExecCode(frame, s, RestoreRegs(rest, first)).regs, s.regs, s.mem, s.regs[frame], rest, first, last);
    }
  }

  // ----- activations and what may happen in them

  /** One activation of an interrupt routine; its body may change the routine's registers,
      the status and memory outside the save areas, and may itself be interrupted. */
  datatype Act = Act(kind: nat, body: Body)

  datatype Body = Idle | Then(before: Body, step: Step)

  datatype Step =
    | WriteReg(r: nat, v: int)
    | WriteStatus(v: int)
    | WriteMem(a: int, v: int)
    | Interrupted(pc: int, act: Act)

  /** The save areas of all interrupts. */
  predicate InAreas(p: Isrs, base: int, a: int) {
    Slot(base, 0) <= a < Slot(base, MAX_NUM_INTER * p.n)
  }

  predicate InArea(p: Isrs, base: int, k: nat, a: int) {
    Slot(base, k * p.n) <= a < Slot(base, k * p.n + p.n)
  }

  /** Activations nest only with different interrupts, and only where that is allowed. */
  ghost predicate ActFits(p: Isrs, base: int, act: Act, active: set<nat>)
    requires Legal(p)
    decreases act
  {
    act.kind < MAX_NUM_INTER && act.kind !in active && BodyFits(p, base, act.kind, act.body, active + {act.kind})
  }

  ghost predicate BodyFits(p: Isrs, base: int, k: nat, body: Body, active: set<nat>)
    requires Legal(p) && k < MAX_NUM_INTER
    decreases body
  {
    match body
    case Idle => true
    case Then(before, step) =>
      BodyFits(p, base, k, before, active)
      && match step
         case WriteReg(r, _) => r in p.modified[k]
         case WriteStatus(_) => true
         case WriteMem(a, _) => !InAreas(p, base, a)
         case Interrupted(_, act) => p.nesting[k] && ActFits(p, base, act, active)
  }

  lemma CodeOfFits(p: Isrs, k: nat)
    requires Legal(p) && k < MAX_NUM_INTER
    ensures CodeFits(SaveCode(p, k), p.n) && CodeFits(RestoreCode(p, k), p.n)
  {
    var list := p.modified[k];
    var a, b := SaveRegs(list, k * p.n), RestoreRegs(list, k * p.n);
    assert CodeFits(a, p.n) && CodeFits(b, p.n);
  }

  /** An activation: interrupts off, save, body, restore. */
  ghost function ExecAct(p: Isrs, s: Cpu, act: Act, active: set<nat>): (t: Cpu)
    requires Legal(p) && |s.regs| == p.n && ActFits(p, s.regs[p.frame], act, active)
    ensures |t.regs| == |s.regs|
    decreases act
  {
    CodeOfFits(p, act.kind);
    var saved := ExecCode(p.frame, s.(enabled := false), SaveCode(p, act.kind));
    var done := ExecBody(p, s.regs[p.frame], saved, act.kind, act.body, active + {act.kind});
    ExecCode(p.frame, done, RestoreCode(p, act.kind))
  }

  /** The events of a body; a nested activation gets the frame register as it is then. */
  ghost function ExecBody(p: Isrs, base: int, s: Cpu, k: nat, body: Body, active: set<nat>): (t: Cpu)
    requires Legal(p) && k < MAX_NUM_INTER && |s.regs| == p.n && BodyFits(p, base, k, body, active)
    ensures |t.regs| == |s.regs|
    decreases body
  {
    match body
    case Idle => s
    case Then(before, step) =>
      var b := ExecBody(p, base, s, k, before, active);
      match step
      case WriteReg(r, v) => b.(regs := b.regs[r := v])
      case WriteStatus(v) => b.(status := v)
      case WriteMem(a, v) => b.(mem := Store(b.mem, a, v))
      case Interrupted(pc, act) =>
        if b.regs[p.frame] == base && b.enabled then ExecAct(p, b.(iret := pc), act, active) else b
  }

  // ----- the context comes back

  /** All register lists leave room for status and return address in their area. */
  ghost predicate Short(p: Isrs)
    requires Legal(p)
  {
    forall k :: 0 <= k < MAX_NUM_INTER ==> |p.modified[k]| <= p.n - 2
  }

  /** The area of interrupt k holds a context. */
  ghost predicate ContextIn(p: Isrs, mem: int -> int, base: int, k: nat, s: Cpu)
    requires Legal(p) && k < MAX_NUM_INTER && |s.regs| == p.n
  {
    && (forall j :: 0 <= j < |p.modified[k]| ==> mem(Slot(base, k * p.n + j)) == s.regs[p.modified[k][j]])
    && mem(Slot(base, k * p.n + p.n - 2)) == s.status
    && (p.nesting[k] ==> mem(Slot(base, k * p.n + p.n - 1)) == s.iret)
  }

  /** Registers a routine does not save are unchanged. */
  ghost predicate OthersKept(p: Isrs, k: nat, regs: seq<int>, before: seq<int>)
    requires Legal(p) && k < MAX_NUM_INTER
  {
    |regs| == |before| && forall r :: 0 <= r < |regs| && r !in p.modified[k] ==> regs[r] == before[r]
  }

  /** Memory outside the area of interrupt k is unchanged. */
  ghost predicate OutsideKept(p: Isrs, base: int, k: nat, mem: int -> int, before: int -> int) {
    forall x :: !InArea(p, base, k, x) ==> mem(x) == before(x)
  }

  /** The areas of active interrupts are unchanged. */
  ghost predicate AreasKept(p: Isrs, base: int, active: set<nat>, mem: int -> int, before: int -> int) {
    forall k, x :: k in active && InArea(p, base, k, x) ==> mem(x) == before(x)
  }

  // ----- pieces of the code

  lemma SaveStatus(frame: nat, s: Cpu, slot: nat)
    requires 1 < frame < |s.regs|
    ensures CodeFits([MovFromStatus(0), Str(0, slot)], |s.regs|)
    ensures ExecCode(frame, s, [MovFromStatus(0), Str(0, slot)])
         == s.(regs := s.regs[0 := s.status], mem := Store(s.mem, Slot(s.regs[frame], slot), s.status))
  {
    ExecCodeNone(frame, s);
    ExecCodeMore(frame, s, [], MovFromStatus(0));
    ExecCodeMore(frame, s, [MovFromStatus(0)], Str(0, slot));
    assert [] + [MovFromStatus(0)] == [MovFromStatus(0)];
    assert [MovFromStatus(0)] + [Str(0, slot)] == [MovFromStatus(0), Str(0, slot)];
  }

  lemma SaveIret(frame: nat, s: Cpu, slot: nat)
    requires 1 < frame < |s.regs|
    ensures CodeFits([MovFromIret(1), Str(1, slot), Gie], |s.regs|)
    ensures ExecCode(frame, s, [MovFromIret(1), Str(1, slot), Gie])
         == s.(regs := s.regs[1 := s.iret], mem := Store(s.mem, Slot(s.regs[frame], slot), s.iret), enabled := true)
  {
    ExecCodeNone(frame, s);
    ExecCodeMore(frame, s, [], MovFromIret(1));
    ExecCodeMore(frame, s, [MovFromIret(1)], Str(1, slot));
    ExecCodeMore(frame, s, [MovFromIret(1), Str(1, slot)], Gie);
    assert [] + [MovFromIret(1)] == [MovFromIret(1)];
    assert [MovFromIret(1)] + [Str(1, slot)] == [MovFromIret(1), Str(1, slot)];
    assert [MovFromIret(1), Str(1, slot)] + [Gie] == [MovFromIret(1), Str(1, slot), Gie];
  }

  lemma LoadIret(frame: nat, s: Cpu, slot: nat)
    requires 1 < frame < |s.regs|
    ensures CodeFits([Gid, Ldr(1, slot), MovToIret(1)], |s.regs|)
    ensures var v := s.mem(Slot(s.regs[frame], slot));
            ExecCode(frame, s, [Gid, Ldr(1, slot), MovToIret(1)])
            == s.(regs := s.regs[1 := v], iret := v, enabled := false)
  {
    ExecCodeNone(frame, s);
    ExecCodeMore(frame, s, [], Gid);
    ExecCodeMore(frame, s, [Gid], Ldr(1, slot));
    ExecCodeMore(frame, s, [Gid, Ldr(1, slot)], MovToIret(1));
    assert [] + [Gid] == [Gid] && [Gid] + [Ldr(1, slot)] == [Gid, Ldr(1, slot)];
    assert [Gid, Ldr(1, slot)] + [MovToIret(1)] == [Gid, Ldr(1, slot), MovToIret(1)];
  }

  lemma LoadStatus(frame: nat, s: Cpu, slot: nat)
    requires 1 < frame < |s.regs|
    ensures CodeFits([Ldr(0, slot), MovToStatus(0)], |s.regs|)
    ensures var v := s.mem(Slot(s.regs[frame], slot));
            ExecCode(frame, s, [Ldr(0, slot), MovToStatus(0)]) == s.(regs := s.regs[0 := v], status := v)
  {
    ExecCodeNone(frame, s);
    ExecCodeMore(frame, s, [], Ldr(0, slot));
    ExecCodeMore(frame, s, [Ldr(0, slot)], MovToStatus(0));
    assert [] + [Ldr(0, slot)] == [Ldr(0, slot)] && [Ldr(0, slot)] + [MovToStatus(0)] == [Ldr(0, slot), MovToStatus(0)];
  }

  /** The state after the save code. */
  function AfterSave(p: Isrs, k: nat, s: Cpu, mem: int -> int): Cpu
    requires Legal(p) && k < MAX_NUM_INTER && |s.regs| == p.n
  {
    var a := s.(regs := s.regs[0 := s.status], mem := Store(mem, Slot(s.regs[p.frame], k * p.n + p.n - 2), s.status));
    if p.nesting[k] then
      a.(regs := a.regs[1 := s.iret], mem := Store(a.mem, Slot(s.regs[p.frame], k * p.n + p.n - 1), s.iret),
         enabled := true)
    else a
  }

  lemma SaveCodeIs(p: Isrs, k: nat, s: Cpu) returns (mem: int -> int)
    requires Legal(p) && k < MAX_NUM_INTER && |s.regs| == p.n
    ensures CodeFits(SaveCode(p, k), p.n)
    ensures ExecCode(p.frame, s, SaveCode(p, k)) == AfterSave(p, k, s, mem)
    ensures Saved(mem, s.mem, s.regs, s.regs[p.frame], p.modified[k], k * p.n)
  {
    hide ExecCode, Saved;
    CodeOfFits(p, k);
    var list, first := p.modified[k], k * p.n;
    SaveRegsDone(p.frame, s, list, first);
    var a := ExecCode(p.frame, s, SaveRegs(list, first));
    mem := a.mem;
    var status := [MovFromStatus(0), Str(0, first + p.n - 2)];
    SaveStatus(p.frame, a, first + p.n - 2);
    ExecCodeConcat(p.frame, s, SaveRegs(list, first), status);
    if p.nesting[k] {
      SaveIret(p.frame, ExecCode(p.frame, a, status), first + p.n - 1);
      ExecCodeConcat(p.frame, s, SaveRegs(list, first) + status, [MovFromIret(1), Str(1, first + p.n - 1), Gie]);
    } else {
      assert SaveCode(p, k) == SaveRegs(list, first) + status;
    }
  }

  lemma ContextSaved(p: Isrs, k: nat, s: Cpu, mem: int -> int)
    requires Legal(p) && k < MAX_NUM_INTER && |s.regs| == p.n && |p.modified[k]| <= p.n - 2
    requires Saved(mem, s.mem, s.regs, s.regs[p.frame], p.modified[k], k * p.n)
    ensures ContextIn(p, AfterSave(p, k, s, mem).mem, s.regs[p.frame], k, s)
  {
  }

  lemma OutsideSaved(p: Isrs, k: nat, s: Cpu, mem: int -> int)
    requires Legal(p) && k < MAX_NUM_INTER && |s.regs| == p.n && |p.modified[k]| <= p.n - 2
    requires Saved(mem, s.mem, s.regs, s.regs[p.frame], p.modified[k], k * p.n)
    ensures OutsideKept(p, s.regs[p.frame], k, AfterSave(p, k, s, mem).mem, s.mem)
  {
  }

  lemma SaveSaves(p: Isrs, k: nat, s: Cpu)
    requires Legal(p) && k < MAX_NUM_INTER && |s.regs| == p.n && !s.enabled && |p.modified[k]| <= p.n - 2
    ensures CodeFits(SaveCode(p, k), p.n)
    ensures var t := ExecCode(p.frame, s, SaveCode(p, k));
            && ContextIn(p, t.mem, s.regs[p.frame], k, s) && OthersKept(p, k, t.regs, s.regs)
            && OutsideKept(p, s.regs[p.frame], k, t.mem, s.mem)
            && t.iret == s.iret && t.enabled == p.nesting[k]
  {
    hide ExecCode, ContextIn, OutsideKept, Saved, SaveCode;
    var mem := SaveCodeIs(p, k, s);
    ContextSaved(p, k, s, mem);
    OutsideSaved(p, k, s, mem);
  }

  /** The state before the registers are restored. */
  lemma RestoreCodeIs(p: Isrs, k: nat, u: Cpu) returns (b: Cpu)
    requires Legal(p) && k < MAX_NUM_INTER && |u.regs| == p.n
    ensures CodeFits(RestoreCode(p, k), p.n) && |b.regs| == p.n
    ensures b.mem == u.mem && b.regs[p.frame] == u.regs[p.frame] && OthersKept(p, k, b.regs, u.regs)
    ensures b.status == u.mem(Slot(u.regs[p.frame], k * p.n + p.n - 2))
    ensures b.iret == if p.nesting[k] then u.mem(Slot(u.regs[p.frame], k * p.n + p.n - 1)) else u.iret
    ensures var t := ExecCode(p.frame, u, RestoreCode(p, k));
            t == b.(regs := t.regs, enabled := true)
            && Loaded(t.regs, b.regs, u.mem, u.regs[p.frame], p.modified[k], k * p.n)
  {
    hide ExecCode, Loaded;
    CodeOfFits(p, k);
    var list, first := p.modified[k], k * p.n;
    var iret := if p.nesting[k] then [Gid, Ldr(1, first + p.n - 1), MovToIret(1)] else [];
    var status := [Ldr(0, first + p.n - 2), MovToStatus(0)];
    ExecCodeNone(p.frame, u);
    LoadIret(p.frame, u, first + p.n - 1);
    var a := ExecCode(p.frame, u, iret);
    LoadStatus(p.frame, a, first + p.n - 2);
    b := ExecCode(p.frame, a, status);
    RestoreRegsDone(p.frame, b, list, first);
    ExecCodeConcat(p.frame, u, iret, status);
    ExecCodeConcat(p.frame, u, iret + status, RestoreRegs(list, first));
    ExecCodeMore(p.frame, u, iret + status + RestoreRegs(list, first), Rti);
  }

  lemma RestoreRestores(p: Isrs, k: nat, u: Cpu, s: Cpu)
    requires Legal(p) && k < MAX_NUM_INTER && |s.regs| == |u.regs| == p.n
    requires ContextIn(p, u.mem, s.regs[p.frame], k, s) && OthersKept(p, k, u.regs, s.regs)
    requires !p.nesting[k] ==> u.iret == s.iret
    ensures CodeFits(RestoreCode(p, k), p.n)
    ensures var t := ExecCode(p.frame, u, RestoreCode(p, k));
            t.regs == s.regs && t.status == s.status && t.iret == s.iret && t.enabled && t.mem == u.mem
  {
    hide ExecCode, RestoreCode, LegalList, ContextIn, Loaded, OthersKept, CodeFits;
    FrameKept(p, k, u.regs, s.regs);
    var b := RestoreCodeIs(p, k, u);
    var t := ExecCode(p.frame, u, RestoreCode(p, k));
    RegistersBack(p, k, t.regs, b.regs, u, s);
    ContextEnds(p, k, u.mem, s);
  }

  lemma ContextEnds(p: Isrs, k: nat, mem: int -> int, s: Cpu)
    requires Legal(p) && k < MAX_NUM_INTER && |s.regs| == p.n && ContextIn(p, mem, s.regs[p.frame], k, s)
    ensures mem(Slot(s.regs[p.frame], k * p.n + p.n - 2)) == s.status
    ensures p.nesting[k] ==> mem(Slot(s.regs[p.frame], k * p.n + p.n - 1)) == s.iret
  {
  }

  lemma RegistersBack(p: Isrs, k: nat, regs: seq<int>, before: seq<int>, u: Cpu, s: Cpu)
    requires Legal(p) && k < MAX_NUM_INTER && |s.regs| == |u.regs| == |regs| == p.n
             && u.regs[p.frame] == s.regs[p.frame]
    requires ContextIn(p, u.mem, s.regs[p.frame], k, s)
    requires OthersKept(p, k, u.regs, s.regs) && OthersKept(p, k, before, u.regs)
    requires Loaded(regs, before, u.mem, u.regs[p.frame], p.modified[k], k * p.n)
    ensures regs == s.regs
  {
    var list := p.modified[k];
    forall r | 0 <= r < p.n
      ensures regs[r] == s.regs[r]
    {
      if r in list {
        var j :| 0 <= j < |list| && list[j] == r;
      }
    }
  }

  lemma AreaApart(p: Isrs, base: int, k: nat, j: nat, a: int)
    requires Legal(p) && k < MAX_NUM_INTER && j < MAX_NUM_INTER && k != j && InArea(p, base, j, a)
    ensures !InArea(p, base, k, a) && InAreas(p, base, a)
  {
    assert k * p.n + p.n <= j * p.n || j * p.n + p.n <= k * p.n;
  }

  lemma OwnAreaIn(p: Isrs, base: int, k: nat, a: int)
    requires Legal(p) && k < MAX_NUM_INTER && InArea(p, base, k, a)
    ensures InAreas(p, base, a)
  {
  }

  /** The area of an interrupt that stays as it was still holds the context. */
  lemma ContextStays(p: Isrs, base: int, k: nat, active: set<nat>, mem: int -> int, before: int -> int, s: Cpu)
    requires Legal(p) && Short(p) && k < MAX_NUM_INTER && |s.regs| == p.n && k in active
    requires ContextIn(p, before, base, k, s) && AreasKept(p, base, active, mem, before)
    ensures ContextIn(p, mem, base, k, s)
  {
    forall j | 0 <= j < |p.modified[k]|
      ensures mem(Slot(base, k * p.n + j)) == s.regs[p.modified[k][j]]
    {
      assert InArea(p, base, k, Slot(base, k * p.n + j));
    }
    assert mem(Slot(base, k * p.n + (p.n - 2))) == before(Slot(base, k * p.n + (p.n - 2)));
    assert mem(Slot(base, k * p.n + (p.n - 1))) == before(Slot(base, k * p.n + (p.n - 1)));
  }

  lemma OthersActive(p: Isrs, base: int, k: nat, active: set<nat>, mem: int -> int, before: int -> int)
    requires Legal(p) && k < MAX_NUM_INTER && k !in active && (forall j :: j in active ==> j < MAX_NUM_INTER)
    requires OutsideKept(p, base, k, mem, before)
    ensures AreasKept(p, base, active, mem, before)
  {
    forall j, x | j in active && InArea(p, base, j, x)
      ensures mem(x) == before(x)
    {
      AreaApart(p, base, k, j, x);
    }
  }

  /** Every activation, however its body is interrupted by other activations, ends with all
      registers, the status and the return address as at entry, and with the saved
      contexts of the interrupts that are active around it untouched. */
  lemma {:induction false} ActRestores(p: Isrs, s: Cpu, act: Act, active: set<nat>)
    requires Legal(p) && Short(p) && |s.regs| == p.n && ActFits(p, s.regs[p.frame], act, active)
    requires forall j :: j in active ==> j < MAX_NUM_INTER
    ensures var t := ExecAct(p, s, act, active);
            && t.regs == s.regs && t.status == s.status && t.iret == s.iret && t.enabled
            && AreasKept(p, s.regs[p.frame], active, t.mem, s.mem)
    decreases act
  {
    hide ExecCode, ExecBody, ContextIn, OutsideKept, SaveCode, RestoreCode, BodyFits, LegalList;
    var k, base := act.kind, s.regs[p.frame];
    var entered := s.(enabled := false);
    SaveSaves(p, k, entered);
    var saved := ExecCode(p.frame, entered, SaveCode(p, k));
    FrameKept(p, k, saved.regs, s.regs);
    BodyKeeps(p, base, saved, k, act.body, active + {k});
    var done := ExecBody(p, base, saved, k, act.body, active + {k});
    ContextStays(p, base, k, active + {k}, done.mem, saved.mem, entered);
    RestoreRestores(p, k, done, entered);
    OthersActive(p, base, k, active, saved.mem, s.mem);
  }

  lemma FrameKept(p: Isrs, k: nat, regs: seq<int>, before: seq<int>)
    requires Legal(p) && k < MAX_NUM_INTER && |before| == p.n && OthersKept(p, k, regs, before)
    ensures regs[p.frame] == before[p.frame]
  {
  }

  /** A body changes only its routine's registers and the status, and leaves all active
      areas alone. */
  lemma {:induction false} BodyKeeps(p: Isrs, base: int, s: Cpu, k: nat, body: Body, active: set<nat>)
    requires Legal(p) && Short(p) && k < MAX_NUM_INTER && |s.regs| == p.n && BodyFits(p, base, k, body, active)
    requires s.regs[p.frame] == base && k in active && s.enabled == p.nesting[k]
    requires forall j :: j in active ==> j < MAX_NUM_INTER
    ensures var t := ExecBody(p, base, s, k, body, active);
            && OthersKept(p, k, t.regs, s.regs) && t.enabled == s.enabled && t.regs[p.frame] == base
            && (!p.nesting[k] ==> t.iret == s.iret) && AreasKept(p, base, active, t.mem, s.mem)
    decreases body
  {
    hide ExecAct, ActFits, InAreas, LegalList;
    match body
    case Idle =>
    case Then(before, step) =>
      BodyKeeps(p, base, s, k, before, active);
      match step {
        case WriteReg(r, v) => FrameNotWritten(p, k, r);
        case WriteStatus(v) =>
        case WriteMem(a, v) => StoreOutside(p, base, active, ExecBody(p, base, s, k, before, active).mem, a, v);
        case Interrupted(pc, act) =>
          var b := ExecBody(p, base, s, k, before, active);
          if b.enabled {
            ActRestores(p, b.(iret := pc), act, active);
          }
      }
  }

  lemma FrameNotWritten(p: Isrs, k: nat, r: nat)
    requires Legal(p) && k < MAX_NUM_INTER && r in p.modified[k]
    ensures r != p.frame && r < p.n
  {
  }

  lemma StoreOutside(p: Isrs, base: int, active: set<nat>, mem: int -> int, a: int, v: int)
    requires Legal(p) && !InAreas(p, base, a) && forall j :: j in active ==> j < MAX_NUM_INTER
    ensures AreasKept(p, base, active, Store(mem, a, v), mem)
  {
    forall j, x | j in active && InArea(p, base, j, x)
      ensures Store(mem, a, v)(x) == mem(x)
    {
      OwnAreaIn(p, base, j, x);
    }
  }

  // ----- memory outside the save areas

  /** Memory after the writes of an activation's body and of the activations inside it. */
  function ActMem(mem: int -> int, act: Act): int -> int
    decreases act
  {
    BodyMem(mem, act.body)
  }

  function BodyMem(mem: int -> int, body: Body): int -> int
    decreases body
  {
    match body
    case Idle => mem
    case Then(before, step) =>
      var m := BodyMem(mem, before);
      match step
      case WriteMem(a, v) => Store(m, a, v)
      case Interrupted(_, act) => ActMem(m, act)
      case _ => m
  }

  /** The addresses written in an activation. */
  function ActWrites(act: Act): set<int>
    decreases act
  {
    BodyWrites(act.body)
  }

  function BodyWrites(body: Body): set<int>
    decreases body
  {
    match body
    case Idle => {}
    case Then(before, step) =>
      BodyWrites(before)
      + match step
        case WriteMem(a, _) => {a}
        case Interrupted(_, act) => ActWrites(act)
        case _ => {}
  }

  /** A byte after a body depends on the same byte before it, and is that byte if it is
      not written. */
  lemma {:induction false} BodyMemAt(mem: int -> int, mem': int -> int, body: Body, x: int)
    requires mem(x) == mem'(x)
    ensures BodyMem(mem, body)(x) == BodyMem(mem', body)(x)
    ensures x !in BodyWrites(body) ==> BodyMem(mem, body)(x) == mem(x)
    decreases body
  {
    match body
    case Idle =>
    case Then(before, step) =>
      BodyMemAt(mem, mem', before, x);
      if step.Interrupted? {
        ActMemAt(BodyMem(mem, before), BodyMem(mem', before), step.act, x);
      }
  }

  lemma {:induction false} ActMemAt(mem: int -> int, mem': int -> int, act: Act, x: int)
    requires mem(x) == mem'(x)
    ensures ActMem(mem, act)(x) == ActMem(mem', act)(x)
    ensures x !in ActWrites(act) ==> ActMem(mem, act)(x) == mem(x)
    decreases act
  {
    BodyMemAt(mem, mem', act.body, x);
  }

  /** Outside the save areas an activation changes memory just as its body says. */
  lemma {:induction false} ActMemory(p: Isrs, s: Cpu, act: Act, active: set<nat>, x: int)
    requires Legal(p) && Short(p) && |s.regs| == p.n && ActFits(p, s.regs[p.frame], act, active)
    requires (forall j :: j in active ==> j < MAX_NUM_INTER) && !InAreas(p, s.regs[p.frame], x)
    ensures ExecAct(p, s, act, active).mem(x) == ActMem(s.mem, act)(x)
    decreases act
  {
    hide ExecCode, ExecBody, BodyMem, ContextIn, OutsideKept, SaveCode, RestoreCode, BodyFits, LegalList, InAreas;
    var k, base := act.kind, s.regs[p.frame];
    var entered := s.(enabled := false);
    SaveSaves(p, k, entered);
    var saved := ExecCode(p.frame, entered, SaveCode(p, k));
    FrameKept(p, k, saved.regs, s.regs);
    BodyKeeps(p, base, saved, k, act.body, active + {k});
    var done := ExecBody(p, base, saved, k, act.body, active + {k});
    ContextStays(p, base, k, active + {k}, done.mem, saved.mem, entered);
    RestoreRestores(p, k, done, entered);
    BodyMemory(p, base, saved, k, act.body, active + {k}, x);
    AreaOnly(p, base, k, saved.mem, s.mem, x);
    BodyMemAt(saved.mem, s.mem, act.body, x);
  }

  lemma AreaOnly(p: Isrs, base: int, k: nat, mem: int -> int, before: int -> int, x: int)
    requires Legal(p) && k < MAX_NUM_INTER && OutsideKept(p, base, k, mem, before) && !InAreas(p, base, x)
    ensures mem(x) == before(x)
  {
    if InArea(p, base, k, x) {
      OwnAreaIn(p, base, k, x);
    }
  }

  lemma {:induction false} BodyMemory(p: Isrs, base: int, s: Cpu, k: nat, body: Body, active: set<nat>, x: int)
    requires Legal(p) && Short(p) && k < MAX_NUM_INTER && |s.regs| == p.n && BodyFits(p, base, k, body, active)
    requires s.regs[p.frame] == base && k in active && s.enabled == p.nesting[k]
    requires (forall j :: j in active ==> j < MAX_NUM_INTER) && !InAreas(p, base, x)
    ensures ExecBody(p, base, s, k, body, active).mem(x) == BodyMem(s.mem, body)(x)
    decreases body
  {
    hide ExecAct, ActFits, InAreas, LegalList, ActMem, Short;
    match body
    case Idle =>
    case Then(before, step) =>
      BodyKeeps(p, base, s, k, before, active);
      BodyMemory(p, base, s, k, before, active, x);
      if step.Interrupted? {
        var b := ExecBody(p, base, s, k, before, active);
        ActMemory(p, b.(iret := step.pc), step.act, active, x);
        ActMemAt(b.mem, BodyMem(s.mem, before), step.act, x);
      }
  }

  // ----- how many registers fit

  /** An activation with an empty body gives the context back. */
  ghost predicate Restores(p: Isrs, k: nat, s: Cpu)
    requires Legal(p) && k < MAX_NUM_INTER && |s.regs| == p.n
  {
    var t := ExecAct(p, s, Act(k, Idle), {});
    t.regs == s.regs && t.status == s.status && t.iret == s.iret
  }

  lemma IdleIs(p: Isrs, k: nat, s: Cpu)
    requires Legal(p) && k < MAX_NUM_INTER && |s.regs| == p.n
    ensures CodeFits(SaveCode(p, k), p.n) && CodeFits(RestoreCode(p, k), p.n)
    ensures ExecAct(p, s, Act(k, Idle), {})
         == ExecCode(p.frame, ExecCode(p.frame, s.(enabled := false), SaveCode(p, k)), RestoreCode(p, k))
  {
    hide ExecCode;
    CodeOfFits(p, k);
  }

  /** With one register more than fits, the last one comes back as the status. */
  lemma LongListLoses(p: Isrs, k: nat, s: Cpu)
    requires Legal(p) && k < MAX_NUM_INTER && |p.modified[k]| > p.n - 2
    requires |s.regs| == p.n && s.regs[p.modified[k][p.n - 2]] != s.status
    ensures !Restores(p, k, s)
  {
    hide ExecCode, SaveCode, RestoreCode;
    var entered := s.(enabled := false);
    IdleIs(p, k, s);
    var mem := SaveCodeIs(p, k, entered);
    var u := AfterSave(p, k, entered, mem);
    assert u.regs[p.frame] == s.regs[p.frame];
    var b := RestoreCodeIs(p, k, u);
    assert u.mem(Slot(s.regs[p.frame], k * p.n + (p.n - 2))) == s.status;
  }

  /** The context comes back, whatever it is, exactly when the routine changes at most
      n - 2 registers. */
  lemma RestoresIff(p: Isrs, k: nat)
    requires Legal(p) && k < MAX_NUM_INTER
    ensures (forall s: Cpu :: |s.regs| == p.n ==> Restores(p, k, s)) <==> |p.modified[k]| <= p.n - 2
  {
    hide ExecCode, ExecAct, SaveCode, RestoreCode, ContextIn, LegalList;
    if |p.modified[k]| <= p.n - 2 {
      forall s: Cpu | |s.regs| == p.n
        ensures Restores(p, k, s)
      {
        IdleIs(p, k, s);
        SaveSaves(p, k, s.(enabled := false));
        RestoreRestores(p, k, ExecCode(p.frame, s.(enabled := false), SaveCode(p, k)), s.(enabled := false));
      }
    } else {
      var s := Cpu(seq(p.n, _ => 0), 1, 0, true, _ => 0);
      ListIndex(p, k, p.n - 2);
      LongListLoses(p, k, s);
      assert |s.regs| == p.n && !Restores(p, k, s);
    }
  }

  lemma ListIndex(p: Isrs, k: nat, i: nat)
    requires Legal(p) && k < MAX_NUM_INTER && i < |p.modified[k]|
    ensures p.modified[k][i] < p.n
  {
  }

  lemma LongListLegal(list: seq<nat>)
    requires list == [0, 1, 2, 3, 4, 5, 6, 7, 8, 9, 10, 11, 12, 13, 14]
    ensures LegalList(16, 15, list) && |list| == 15
  {
    assert list[0] == 0 && list[1] == 1;
  }

  /** Sixteen registers, all but the frame register changed: a list that does not fit,
      and a context that does not come back. */
  lemma LongListPossible()
    ensures var list: seq<nat> := [0, 1, 2, 3, 4, 5, 6, 7, 8, 9, 10, 11, 12, 13, 14];
            var p := Isrs(16, 15, [list, list, list], [false, true, true]);
            Legal(p) && !Short(p) && exists s: Cpu :: |s.regs| == 16 && !Restores(p, 0, s)
  {
    hide Restores, LegalList;
    var list: seq<nat> := [0, 1, 2, 3, 4, 5, 6, 7, 8, 9, 10, 11, 12, 13, 14];
    var p := Isrs(16, 15, [list, list, list], [false, true, true]);
    LongListLegal(list);
    assert |p.modified[0]| == 15;
    RestoresIff(p, 0);
  }
}
