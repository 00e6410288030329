/** Generation of loads and stores at addresses the generator knows it may use
    (igen/load_store_instr.h:265-830). */
module LoadStores {
  import opened Accesses
  import opened Words
  import opened Ranges
  import opened Machine
  import opened Tracker
  import opened Registers
  import MM = MemManager

  const LS_MIN_BUFFER_SIZE: int := 16
  const TRIES: nat := 15

  /** The range an access at this address takes. */
  function Buffer(at: int): Range {
    Range(at, at + LS_MIN_BUFFER_SIZE)
  }

  /** The address is free for an access, and its buffer does not leave the word. */
  predicate InFree(p: MM.Pool, at: int) {
    0 <= at && at + LS_MIN_BUFFER_SIZE < BASE && MM.FindRange(p.ls, Buffer(at)) < |p.ls|
  }

  /** Which is: there is room for it in one of the free ranges. */
  lemma FreeIff(p: MM.Pool, at: int)
    ensures InFree(p, at) <==>
              && 0 <= at && at + 16 < 0x1_0000_0000
              && exists i :: 0 <= i < |p.ls| && p.ls[i].first <= at && at + 16 < p.ls[i].second
  {
  }

  // ----- offsets in the instruction

  /** The address is reached from val by an 11-bit multiple of the access size. */
  predicate Encodable(val: Word, at: Word, z: Size) {
    -2048 * BytesOf(z) < at - val < 2048 * BytesOf(z) && (at - val) % BytesOf(z) == 0
  }

  /** Immediate and sign that lead from val to the address. */
  method EncodeOffset(val: Word, at: Word, z: Size, sign: bool) returns (imm: nat, sub: bool)
    requires Encodable(val, at, z)
    ensures imm < 2048 && Moved(val, imm * BytesOf(z), sub) == at
  {
    hide BytesOf;
    var tmpImm := Wrap32(if sign then val - at else at - val);
    DifferenceSigned(val, at, z, sign);
    var printedImm := Signed32(tmpImm) / BytesOf(z);
    DivModDef(Signed32(tmpImm), BytesOf(z));
    sub := sign;
    if printedImm < 0 {
      sub := !sub;
      printedImm := printedImm * -1;
    }
    imm := printedImm;
    var n := BytesOf(z);
    assert sign == sub ==> imm * n == Signed32(tmpImm);
    assert sign != sub ==> imm * n == 0 - Signed32(tmpImm) by {
      MulDistrib(0, Signed32(tmpImm) / n, n);
    }
    if imm >= 2048 {
      MulLe(2048, imm, n);
    }
  }

  lemma DifferenceSigned(val: Word, at: Word, z: Size, sign: bool)
    requires Encodable(val, at, z)
    ensures Signed32(Wrap32(if sign then val - at else at - val)) == if sign then val - at else at - val
    ensures (if sign then val - at else at - val) % BytesOf(z) == 0
    ensures BytesOf(z) <= 8
  {
  }

  // ----- searching for an address

  /** The random choices of one load or store. */
  datatype Draws = Draws(
    load: bool, safe: bool, goRegOffset: bool, postReg: bool, sub: bool, size: Size, sizeAt: int -> Size,
    rm: nat, offset: (nat, nat) -> nat, imm11: nat, rd: (Size, bool, nat) -> nat, data: Byte, testSet: bool,
    onChip: int -> bool)

  /** The constraints on the choices: sizes match alignment, destinations stay out of the
      pointer window and off a base register that is modified. */
  ghost predicate DrawsAllowed(d: Draws, w: Window) {
    && d.rm < w.nregs && d.imm11 < 2048
    && (forall at: int :: at % BytesOf(d.sizeAt(at)) == 0)
    && (forall z: Size, post, rn: nat :: rn < w.nregs ==> RdAllowed(w, z, post, rn, d.rd(z, post, rn)))
  }

  predicate RdAllowed(w: Window, z: Size, post: bool, rn: nat, rd: nat) {
    if z == 3 then
      && rd <= (w.nregs - 1) / 2 && !(w.first / 2 <= rd <= w.second / 2) && (post ==> rd != rn / 2)
    else
      && rd < w.nregs && !(w.first <= rd <= w.second) && (post ==> rd != rn)
  }

  /** The register is known to hold a free address. */
  predicate IsBase(k: Known, p: MM.Pool, r: nat) {
    r in k.regs && InFree(p, k.regs[r])
  }

  /** The register is known to lead from val to a free address, one way or the other. */
  predicate IsIndex(k: Known, p: MM.Pool, val: Word, r: nat) {
    r in k.regs && (InFree(p, Moved(val, k.regs[r], false)) || InFree(p, Moved(val, k.regs[r], true)))
  }

  /** The first register whose value is a free address. */
  method FindBase(rm: RegManager, mm: MM.Manager) returns (found: bool, ind: nat, val: Word)
    requires rm.Valid()
    ensures found ==> ind < rm.nregs && IsBase(rm.Facts(), mm.State(), ind) && rm.known[ind] == val
    ensures forall r: nat :: r < (if found then ind else rm.nregs) ==> !IsBase(rm.Facts(), mm.State(), r)
  {
    hide InFree, Represents;
    var i := 0;
    while i < rm.nregs
      invariant 0 <= i <= rm.nregs
      invariant forall r: nat :: r < i ==> !IsBase(rm.Facts(), mm.State(), r)
    {
      var known, v := rm.GetReg(i);
      if known {
        var ok := CheckFree(mm, v);
        if ok {
          return true, i, v;
        }
      }
      i := i + 1;
    }
    return false, 0, 0;
  }

  /** The first register that leads from val to a free address, by addition where that
      does, by subtraction otherwise. */
  method FindIndex(rm: RegManager, mm: MM.Manager, val: Word) returns (found: bool, ind: nat, sub: bool, at: Word)
    requires rm.Valid()
    ensures found ==> && ind < rm.nregs && ind in rm.known && at == Moved(val, rm.known[ind], sub)
                      && InFree(mm.State(), at) && (sub ==> !InFree(mm.State(), Moved(val, rm.known[ind], false)))
    ensures forall r: nat :: r < (if found then ind else rm.nregs) ==> !IsIndex(rm.Facts(), mm.State(), val, r)
  {
    hide Represents, InFree, Wrap32;
    var i := 0;
    while i < rm.nregs
      invariant 0 <= i <= rm.nregs
      invariant forall r: nat :: r < i ==> !IsIndex(rm.Facts(), mm.State(), val, r)
    {
      var known, v := rm.GetReg(i);
      if known {
        var ok := CheckFree(mm, Wrap32(val + v));
        if ok {
          return true, i, false, Wrap32(val + v);
        }
        ok := CheckFree(mm, Wrap32(val - v));
        if ok {
          return true, i, true, Wrap32(val - v);
        }
      }
      i := i + 1;
    }
    return false, 0, false, 0;
  }

  method CheckFree(mm: MM.Manager, at: Word) returns (ok: bool)
    ensures ok <==> InFree(mm.State(), at)
  {
    var check := Range(at, Wrap32(at + LS_MIN_BUFFER_SIZE));
    var inList, ind := mm.GetRangeIndex(MM.LoadStore, check);
    ok := check.first < check.second && inList;
  }

  /** A random try below or above val, moved up to a multiple of the access size. */
  function Tried(val: Word, offset: nat, sub: bool, z: Size): Word {
    var at := if sub then Wrap32(val - offset) else Wrap32(val + offset);
    match z
    case 0 => at
    case 1 => Wrap32(at / 2 * 2 + 2)
    case 2 => Wrap32(at / 4 * 4 + 4)
    case 3 => Wrap32(at / 8 * 8 + 8)
  }

  /** The base is aligned, and the address free and within the instruction's reach. */
  predicate Reachable(p: MM.Pool, val: Word, at: Word, z: Size) {
    InFree(p, at) && val % BytesOf(z) == 0 && -2048 * BytesOf(z) < at - val < 2048 * BytesOf(z)
  }

  /** Try j from the value val of register r. */
  function TryAt(d: Draws, val: Word, r: nat, j: nat): Word
    requires j < TRIES
  {
    Tried(val, d.offset(r, j) % Pow2(14 - j), d.sub, d.size)
  }

  /** Try j from register r succeeds. */
  predicate IsPointer(k: Known, p: MM.Pool, d: Draws, r: nat, j: nat) {
    r in k.regs && j < TRIES && Reachable(p, k.regs[r], TryAt(d, k.regs[r], r, j), d.size)
  }

  /** The access size as an alignment and a distance within the instruction's reach. */
  method Acceptable(mm: MM.Manager, val: Word, at: Word, z: Size) returns (ok: bool)
    ensures ok <==> Reachable(mm.State(), val, at, z)
  {
    hide InFree;
    ok := CheckFree(mm, at);
    var distance := if at < val then val - at else at - val;
    match z
    case 0 => ok := ok && distance < 0x800;
    case 1 => ok := ok && val % 2 == 0 && distance < 0x1000;
    case 2 => ok := ok && val % 4 == 0 && distance < 0x2000;
    case 3 => ok := ok && val % 8 == 0 && distance < 0x4000;
  }

  lemma TriedEncodable(val: Word, offset: nat, sub: bool, z: Size)
    requires val % BytesOf(z) == 0
    ensures (Tried(val, offset, sub, z) - val) % BytesOf(z) == 0
    ensures Tried(val, offset, sub, z) % BytesOf(z) == 0
  {
    hide Wrap32;
    var at := if sub then Wrap32(val - offset) else Wrap32(val + offset);
    match z
    case 0 =>
    case 1 => MultipleWraps(at / 2 + 1, 2); DifferenceMultiple(Wrap32((at / 2 + 1) * 2), val, 2);
    case 2 => MultipleWraps(at / 4 + 1, 4); DifferenceMultiple(Wrap32((at / 4 + 1) * 4), val, 4);
    case 3 => MultipleWraps(at / 8 + 1, 8); DifferenceMultiple(Wrap32((at / 8 + 1) * 8), val, 8);
  }

  lemma MultipleWraps(q: int, n: int)
    requires n == 2 || n == 4 || n == 8
    ensures Wrap32(q * n) % n == 0
  {
    var x := q * n;
    DivModDef(x, BASE);
    var m := BASE / n;
    assert BASE == m * n;
    MulAssoc(x / BASE, m, n);
    MulDistrib(q, (x / BASE) * m, n);
    DivModUnique(x % BASE, n, q - (x / BASE) * m, 0);
  }

  lemma DifferenceMultiple(a: int, b: int, n: int)
    requires n == 2 || n == 4 || n == 8
    requires a % n == 0 && b % n == 0
    ensures (a - b) % n == 0
  {
  }

  /** The tried address is the first multiple of the access size above the random point,
      for bytes the point itself. */
  lemma TriedNear(val: Word, offset: nat, sub: bool, z: Size)
    ensures var point := if sub then val - offset else val + offset;
            if z == 0 then Tried(val, offset, sub, z) == Wrap32(point)
            else 1 <= Wrap32(Tried(val, offset, sub, z) - point) <= BytesOf(z)
  {
    var point := if sub then val - offset else val + offset;
    var at := Wrap32(point);
    WrapNear(point, if z == 0 then at else at / BytesOf(z) * BytesOf(z) + BytesOf(z));
  }

  lemma WrapNear(point: int, up: int)
    requires Wrap32(point) <= up <= Wrap32(point) + 8
    ensures Wrap32(Wrap32(up) - point) == up - Wrap32(point)
  {
    DivModDef(point, BASE);
    DivModDef(up, BASE);
    var x := Wrap32(up) - point;
    DivModUnique(x, BASE, 0 - up / BASE - point / BASE, up - Wrap32(point));
  }

  /** A base register and a random free address it reaches by an immediate offset: the
      first that is found in fifteen tries from each register. */
  method FindImmediate(rm: RegManager, mm: MM.Manager, d: Draws)
    returns (found: bool, ind: nat, val: Word, at: Word, ghost try: nat)
    requires rm.Valid()
    ensures found ==> && ind < rm.nregs && ind in rm.known && rm.known[ind] == val
                      && InFree(mm.State(), at) && Encodable(val, at, d.size) && at % BytesOf(d.size) == 0
    ensures found ==> IsPointer(rm.Facts(), mm.State(), d, ind, try) && at == TryAt(d, val, ind, try)
    ensures forall r: nat, j: nat ::
              r < (if found then ind else rm.nregs) ==> !IsPointer(rm.Facts(), mm.State(), d, r, j)
    ensures found ==> forall j: nat :: j < try ==> !IsPointer(rm.Facts(), mm.State(), d, ind, j)
  {
    hide InFree, Encodable, Tried, BytesOf, Represents, Pow2;
    var i := 0;
    while i < rm.nregs
      invariant 0 <= i <= rm.nregs
      invariant forall r: nat, j: nat :: r < i ==> !IsPointer(rm.Facts(), mm.State(), d, r, j)
    {
      var known, v := rm.GetReg(i);
      if known {
        var k := 0;
        while k < TRIES
          invariant 0 <= k <= TRIES
          invariant forall j: nat :: j < k ==> !IsPointer(rm.Facts(), mm.State(), d, i, j)
        {
          var address := Tried(v, d.offset(i, k) % Pow2(14 - k), d.sub, d.size);
          var ok := Acceptable(mm, v, address, d.size);
          if ok {
            TriedEncodable(v, d.offset(i, k) % Pow2(14 - k), d.sub, d.size);
            EncodableIs(v, address, d.size);
            return true, i, v, address, k;
          }
          k := k + 1;
        }
      }
      i := i + 1;
    }
    return false, 0, 0, 0, 0;
  }

  lemma EncodableIs(val: Word, at: Word, z: Size)
    requires -2048 * BytesOf(z) < at - val < 2048 * BytesOf(z) && (at - val) % BytesOf(z) == 0
    ensures Encodable(val, at, z)
  {
  }

  // ----- memory behind an access

  /** n equal bytes from an address on. */
  function ByteMap(at: int, n: nat, data: Byte): map<int, Byte> {
    map j | at <= j < at + n && In(j, at, n) :: data
  }

  predicate In(j: int, at: int, n: int) {
    at <= j < at + n
  }

  /** Takes the buffer of an access out of the free list. */
  method TakeBuffer(mm: MM.Manager, ghost initial: seq<Range>, at: int)
    requires MM.Consistent(mm.State(), initial) && InFree(mm.State(), at)
    modifies mm`rangeListForLS, mm`rangeListForFetch, mm`checkSet, mm`lsFillRangeList
    ensures mm.State() == Taken(old(mm.State()), at)
    ensures mm.lsFillRangeList == old(mm.lsFillRangeList) + [Buffer(at)]
    ensures MM.Consistent(mm.State(), initial)
    ensures mm.checkSet == old(mm.checkSet) + MM.Addresses(Buffer(at)) && MM.Addresses(Buffer(at)) !! old(mm.checkSet)
  {
    hide MM.Consistent, MM.Carved;
    var inList, ind := mm.GetRangeIndex(MM.LoadStore, Buffer(at));
    MM.TakeConsistent(mm.State(), initial, MM.LoadStore, ind, Buffer(at));
    mm.RemoveUpdateRange(initial, MM.LoadStore, ind, Buffer(at));
    mm.lsFillRangeList := mm.lsFillRangeList + [Buffer(at)];
  }

  /** The allocator's state after giving away the buffer at an address. */
  function Taken(p: MM.Pool, at: int): MM.Pool
    requires InFree(p, at)
  {
    MM.Take(p, MM.LoadStore, MM.FindRange(p.ls, Buffer(at)), Buffer(at))
  }

  /** Records the content of a protected buffer: eight equal bytes, none recorded before. */
  method FillMemory(mm: MM.Manager, at: int, data: Byte)
    requires forall j :: at <= j < at + 8 ==> j !in mm.accessMem
    modifies mm`accessMem
    ensures mm.accessMem == old(mm.accessMem) + ByteMap(at, 8, data)
  {
    var m := 0;
    while m < 8
      invariant 0 <= m <= 8
      invariant mm.accessMem == old(mm.accessMem) + ByteMap(at, m, data)
    {
      mm.SetMem(at + m, data);
      m := m + 1;
    }
  }

  /** 0x100^m */
  function ByteScale(m: nat): int
    requires m <= 4
  {
    match m case 0 => 1 case 1 => 0x100 case 2 => 0x1_0000 case 3 => 0x100_0000 case 4 => BASE
  }

  /** Recorded bytes put together, low byte first. */
  method ReadWord(mm: MM.Manager, at: int, n: nat) returns (val: Word)
    requires 1 <= n <= 4 && BytesRecorded(mm.accessMem, at, n)
    ensures val == RecordedWord(mm.accessMem, at, n)
  {
    var v, m, scale := 0, 0, 1;
    while m < n
      invariant 0 <= m <= n && scale == ByteScale(m)
      invariant v == if m == 0 then 0 else RecordedWord(mm.accessMem, at, m)
    {
      var b: int := mm.accessMem[at + m];
      v := v + scale * b;
      scale := 0x100 * scale;
      m := m + 1;
    }
    val := v;
  }

  // ----- the tracker's updates

  /** The base register after a post-modifying access. */
  method UpdateBase(rm: RegManager, a: Access, maxLoopIt: nat)
    requires rm.Valid() && a.rn < rm.nregs && a.rn in rm.known && (PostModifies(a.mode) ==> rm.Free(a.rn))
    modifies rm`rf, rm`modifiedRegs, rm`known
    ensures rm.Valid() && rm.Facts() == BaseKnown(old(rm.Facts()), a, maxLoopIt != 0)
    ensures rm.Changed() == old(rm.Changed()) + if PostModifies(a.mode) then {a.rn} else {}
  {
    hide Represents, Moved, BytesOf, RegManager.Changed;
    if PostModifies(a.mode) {
      var known, base := rm.GetReg(a.rn);
      var distance: int := a.imm * BytesOf(a.size);
      var usable := true;
      if a.mode == PostModReg {
        var index;
        usable, index := rm.GetReg(a.rm);
        distance := index;
      }
      if maxLoopIt == 0 && usable {
        rm.SetReg(a.rn, Moved(base, distance, a.sub));
      } else {
        rm.InvalidateReg(a.rn);
      }
    }
  }

  lemma SetForgotten(k: Known, r: nat, v: Word)
    ensures Forget(Set(k, r, v), r) == Forget(k, r)
  {
  }

  /** The destination of a load. */
  method UpdateDestination(rm: RegManager, mm: MM.Manager, a: Access, at: int, safe: bool)
    requires rm.Valid() && rm.Free(a.rd) && (a.size == 3 ==> rm.Free(a.rd + 1)) && (a.testSet ==> a.size == 2)
    requires safe ==> BytesRecorded(mm.accessMem, at, 8)
    modifies rm`rf, rm`modifiedRegs, rm`known
    ensures rm.Valid() && rm.Facts() == LoadKnown(old(rm.Facts()), a, at, safe, mm.accessMem)
    ensures rm.Changed() == old(rm.Changed()) + if a.size == 3 then {a.rd, a.rd + 1} else {a.rd}
  {
    hide Represents, RecordedWord, Set, Forget, RegManager.Changed;
    if !safe {
      rm.InvalidateReg(a.rd);
      if a.size == 3 {
        rm.InvalidateReg(a.rd + 1);
      }
    } else {
      var val := ReadWord(mm, at, if a.size == 3 then 4 else BytesOf(a.size));
      rm.SetReg(a.rd, val);
      if a.testSet {
        rm.InvalidateReg(a.rd);
        SetForgotten(old(rm.Facts()), a.rd, val);
      }
      if a.size == 3 {
        val := ReadWord(mm, at + 4, 4);
        rm.SetReg(a.rd + 1, val);
      }
    }
  }

  // ----- one instruction

  datatype Outcome = Nothing | Emitted(a: Access, at: int, safe: bool)

  predicate TakesBuffer(a: Access, safe: bool) {
    !a.load || safe
  }

  /** What generating one load or store does to the allocator, the recorded memory and
      the known values. */
  ghost predicate Generates(out: Outcome, nregs: nat, looping: bool, data: Byte, k: Known, k': Known,
                            p: MM.Pool, p': MM.Pool, mem: map<int, Byte>, mem': map<int, Byte>) {
    match out
    case Nothing => k' == k && p' == p && mem' == mem
    case Emitted(a, at, safe) =>
      && Fits(LoadStore(a), nregs) && DestinationApart(a) && (a.mode == ImmOffset ==> a.imm < 2048)
      && AddressKnown(k, a) && KnownAddress(k, a) == at && InFree(p, at)
      && p' == (if TakesBuffer(a, safe) then Taken(p, at) else p)
      && mem' == (if a.load && safe then mem + ByteMap(at, 8, data) else mem)
      && (a.testSet ==> safe)
      && (a.load && safe ==> BytesRecorded(mem', at, 8))
      && k' == AccessKnown(k, a, looping, safe, mem')
  }

  /** A store and a protected load take sixteen bytes for good, a protected load also finds
      its eight bytes there; an unprotected load leaves memory as free as it was. */
  lemma GeneratedTakes(a: Access, at: int, safe: bool, nregs: nat, looping: bool, data: Byte, k: Known, k': Known,
                       p: MM.Pool, p': MM.Pool, mem: map<int, Byte>, mem': map<int, Byte>, initial: seq<Range>)
    requires MM.Consistent(p, initial)
    requires Generates(Emitted(a, at, safe), nregs, looping, data, k, k', p, p', mem, mem')
    ensures a.load && !safe ==> p' == p && mem' == mem
    ensures !a.load || safe ==>
              p'.used == p.used + MM.Addresses(Range(at, at + 16)) && MM.Addresses(Range(at, at + 16)) !! p.used
    ensures !a.load ==> mem' == mem
    ensures a.load && safe ==> (forall j :: at <= j < at + 8 ==> j in mem' && mem'[j] == data)
                               && (forall j :: !(at <= j < at + 8) ==> (j in mem' <==> j in mem)
                                                                        && (j in mem ==> mem'[j] == mem[j]))
  {
    hide MM.Consistent, MM.Addresses, AccessKnown, KnownAddress, DestinationApart;
    if TakesBuffer(a, safe) {
      MM.TakeConsistent(p, initial, MM.LoadStore, MM.FindRange(p.ls, Buffer(at)), Buffer(at));
    }
  }

  /** Recorded bytes lie in what was handed out. */
  ghost predicate MemInside(mm: MM.Manager)
    reads mm
  {
    forall j :: j in mm.accessMem ==> j in mm.checkSet
  }

  /** The chosen access reaches the address from known registers. */
  ghost predicate Reaches(k: Known, w: Window, p: MM.Pool, a: Access, at: int) {
    && InFree(p, at) && AddressKnown(k, a) && KnownAddress(k, a) == at
    && a.rn < w.nregs && a.rm < w.nregs && a.imm < 2048 && !a.testSet
    && (PostModifies(a.mode) ==> !(w.first <= a.rn <= w.second))
  }

  /** Some try from some register succeeds. */
  ghost predicate HasPointer(k: Known, w: Window, p: MM.Pool, d: Draws) {
    exists r: nat, j: nat :: r < w.nregs && IsPointer(k, p, d, r, j)
  }

  ghost predicate HasIndex(k: Known, w: Window, p: MM.Pool, val: Word) {
    exists r: nat :: r < w.nregs && IsIndex(k, p, val, r)
  }

  /** The first register that holds a free address. */
  ghost predicate FirstBase(k: Known, w: Window, p: MM.Pool, b: nat) {
    b < w.nregs && IsBase(k, p, b) && forall r: nat :: r < b ==> !IsBase(k, p, r)
  }

  /** No known register leads to a free address in a way the generator may use. */
  ghost predicate Stuck(k: Known, w: Window, p: MM.Pool, d: Draws) {
    && !HasPointer(k, w, p, d)
    && forall b: nat :: FirstBase(k, w, p, b) ==>
         w.first <= b <= w.second && (d.goRegOffset ==> !HasIndex(k, w, p, k.regs[b]))
  }

  /** How the address is reached: from the first base register by an index where one is
      asked for and found, else by post-modification unless it is a pointer register;
      else by immediate offset. */
  ghost predicate ModeChosen(k: Known, w: Window, p: MM.Pool, d: Draws, a: Access, at: int) {
    match a.mode
    case RegOffset => FirstBase(k, w, p, a.rn) && d.goRegOffset && IsIndex(k, p, k.regs[a.rn], a.rm)
    case ImmOffset =>
      && HasPointer(k, w, p, d)
      && forall b: nat :: FirstBase(k, w, p, b) ==>
           w.first <= b <= w.second && (d.goRegOffset ==> !HasIndex(k, w, p, k.regs[b]))
    case _ =>
      && FirstBase(k, w, p, a.rn) && at == k.regs[a.rn] && (d.goRegOffset ==> !HasIndex(k, w, p, k.regs[a.rn]))
      && (a.mode == PostModReg <==> d.postReg) && a.rm == d.rm && a.imm == d.imm11 && a.sub == d.sub
  }

  /** By immediate offset from any known register. */
  method ChooseImmediate(rm: RegManager, mm: MM.Manager, d: Draws) returns (found: bool, a: Access, at: Word)
    requires rm.Valid()
    ensures found ==>
              Reaches(rm.Facts(), rm.PointerWindow(), mm.State(), a, at) && a.load == d.load
              && a.mode == ImmOffset && a.size == d.size && at % BytesOf(a.size) == 0
    ensures found <==> HasPointer(rm.Facts(), rm.PointerWindow(), mm.State(), d)
  {
    hide InFree, Represents, Encodable, Moved, BytesOf, IsPointer, TryAt;
    var ind, val, imm, sub;
    ghost var try;
    found, ind, val, at, try := FindImmediate(rm, mm, d);
    a := Access(d.load, d.size, ImmOffset, d.sub, 0, ind, 0, 0, false);
    if found {
      imm, sub := EncodeOffset(val, at, d.size, d.sub);
      a := Access(d.load, d.size, ImmOffset, sub, 0, ind, 0, imm, false);
    }
  }

  /** Chooses how to reach a free address: by register offset or post-modification when a
      register holds one, by immediate offset otherwise. */
  method Choose(rm: RegManager, mm: MM.Manager, d: Draws) returns (found: bool, a: Access, at: Word, safe: bool)
    requires rm.Valid() && DrawsAllowed(d, rm.PointerWindow())
    ensures found ==> Reaches(rm.Facts(), rm.PointerWindow(), mm.State(), a, at) && a.load == d.load
                      && safe == (a.mode != ImmOffset || d.safe)
                      && a.size == (if a.mode == ImmOffset then d.size else d.sizeAt(at)) && at % BytesOf(a.size) == 0
    ensures found <==> !Stuck(rm.Facts(), rm.PointerWindow(), mm.State(), d)
    ensures found ==> ModeChosen(rm.Facts(), rm.PointerWindow(), mm.State(), d, a, at)
  {
    hide InFree, Represents, Moved, BytesOf, IsPointer, IsBase, IsIndex, RdAllowed, HasIndex, HasPointer, Reaches;
    var ind, val;
    found, ind, val := FindBase(rm, mm);
    if found {
      OneFirstBase(rm.Facts(), rm.PointerWindow(), mm.State(), ind);
      found, a, at := ChooseFromBase(rm, mm, d, ind, val);
      if found {
        return true, a, at, true;
      }
    }
    found, a, at := ChooseImmediate(rm, mm, d);
    safe := d.safe;
  }

  /** From the first base register: by an index, or by post-modification. */
  method ChooseFromBase(rm: RegManager, mm: MM.Manager, d: Draws, ind: nat, val: Word)
    returns (found: bool, a: Access, at: Word)
    requires rm.Valid() && DrawsAllowed(d, rm.PointerWindow())
    requires FirstBase(rm.Facts(), rm.PointerWindow(), mm.State(), ind) && val == rm.known[ind]
    ensures found ==> && Reaches(rm.Facts(), rm.PointerWindow(), mm.State(), a, at) && a.load == d.load
                      && a.mode != ImmOffset && a.size == d.sizeAt(at) && at % BytesOf(a.size) == 0
                      && ModeChosen(rm.Facts(), rm.PointerWindow(), mm.State(), d, a, at)
    ensures found <==> || !(rm.memRegInd1 <= ind <= rm.memRegInd2)
                       || (d.goRegOffset && HasIndex(rm.Facts(), rm.PointerWindow(), mm.State(), val))
  {
    hide InFree, Represents, Moved, BytesOf, IsBase, IsIndex, RdAllowed, HasPointer;
    ghost var k, p := rm.Facts(), mm.State();
    BaseFree(k, p, ind);
    found, a, at := false, Access(d.load, d.size, ImmOffset, d.sub, 0, ind, 0, 0, false), val;
    if d.goRegOffset {
      var ind2, sub;
      found, ind2, sub, at := FindIndex(rm, mm, val);
      if found {
        a := Access(d.load, d.sizeAt(at), RegOffset, sub, 0, ind, ind2, 0, false);
        LeadsThere(k, p, val, ind2, sub);
        return;
      }
    }
    if !(rm.memRegInd1 <= ind <= rm.memRegInd2) {
      var mode := if d.postReg then PostModReg else PostModImm;
      a := Access(d.load, d.sizeAt(val), mode, d.sub, 0, ind, d.rm, d.imm11, false);
      return true, a, val;
    }
  }

  lemma OneFirstBase(k: Known, w: Window, p: MM.Pool, b: nat)
    requires b < w.nregs && IsBase(k, p, b) && forall r: nat :: r < b ==> !IsBase(k, p, r)
    ensures forall c: nat :: FirstBase(k, w, p, c) <==> c == b
  {
    hide IsBase;
  }

  lemma LeadsThere(k: Known, p: MM.Pool, val: Word, r: nat, sub: bool)
    requires r in k.regs && InFree(p, Moved(val, k.regs[r], sub))
    ensures IsIndex(k, p, val, r)
  {
  }

  lemma BaseFree(k: Known, p: MM.Pool, r: nat)
    requires IsBase(k, p, r)
    ensures r in k.regs && InFree(p, k.regs[r])
  {
  }

  /** The destination register drawn for an access. */
  function Destination(d: Draws, a: Access): nat {
    var rd := d.rd(a.size, PostModifies(a.mode), a.rn);
    if a.size == 3 then 2 * rd else rd
  }

  lemma DestinationFree(rm: RegManager, d: Draws, a: Access)
    requires rm.Valid() && DrawsAllowed(d, rm.PointerWindow()) && a.rn < rm.nregs
    ensures rm.Free(Destination(d, a)) && (a.size == 3 ==> rm.Free(Destination(d, a) + 1))
    ensures PostModifies(a.mode) ==> Destination(d, a) != a.rn && (a.size == 3 ==> Destination(d, a) + 1 != a.rn)
  {
    hide Represents;
    var rd := d.rd(a.size, PostModifies(a.mode), a.rn);
    assert RdAllowed(rm.PointerWindow(), a.size, PostModifies(a.mode), a.rn, rd);
  }

  lemma AddressesIn(at: int, j: int)
    ensures at <= j <= at + LS_MIN_BUFFER_SIZE ==> j in MM.Addresses(Buffer(at))
  {
  }

  /** A load from chip memory by register offset becomes a test-and-set on request. */
  function BecomesTestSet(d: Draws, a: Access, at: int, safe: bool): bool {
    d.testSet && a.load && safe && a.size == 2 && a.mode == RegOffset && at > EXT_MEM_START && d.onChip(at)
  }

  /** Takes or notes the buffer of an access, and records what a protected load finds. */
  method Settle(mm: MM.Manager, ghost initial: seq<Range>, load: bool, at: int, safe: bool, data: Byte)
    requires MM.Consistent(mm.State(), initial) && MemInside(mm) && InFree(mm.State(), at)
    modifies mm
    ensures MM.Consistent(mm.State(), initial) && MemInside(mm)
    ensures mm.State() == if !load || safe then Taken(old(mm.State()), at) else old(mm.State())
    ensures mm.accessMem == if load && safe then old(mm.accessMem) + ByteMap(at, 8, data) else old(mm.accessMem)
    ensures load && safe ==> BytesRecorded(mm.accessMem, at, 8)
    ensures if !load || safe then mm.checkSet == old(mm.checkSet) + MM.Addresses(Buffer(at))
            && MM.Addresses(Buffer(at)) !! old(mm.checkSet)
            else mm.checkSet == old(mm.checkSet)
    ensures mm.lsFillRangeList == old(mm.lsFillRangeList) + if !load || safe then [Buffer(at)] else []
  {
    hide InFree, MM.Consistent, Taken, MM.Addresses;
    if load && !safe {
      mm.loadNotSafeRangeList := mm.loadNotSafeRangeList + [Buffer(at)];
    } else {
      TakeBuffer(mm, initial, at);
      if load {
        forall j | at <= j < at + 8
          ensures j !in mm.accessMem && j in mm.checkSet
        {
          AddressesIn(at, j);
        }
        FillMemory(mm, at, data);
      }
    }
  }

  /** Allocates, records and tracks a chosen access. */
  method Perform(rm: RegManager, mm: MM.Manager, ghost initial: seq<Range>, a: Access, at: int, safe: bool,
      data: Byte, maxLoopIt: nat)
    requires rm.Valid() && MM.Consistent(mm.State(), initial) && MemInside(mm) && InFree(mm.State(), at)
    requires Fits(LoadStore(a), rm.nregs) && DestinationApart(a) && (a.mode == ImmOffset ==> a.imm < 2048)
    requires AddressKnown(rm.Facts(), a) && KnownAddress(rm.Facts(), a) == at && (a.testSet ==> safe)
    requires rm.Free(a.rd) && (a.size == 3 ==> rm.Free(a.rd + 1)) && (PostModifies(a.mode) ==> rm.Free(a.rn))
    modifies rm`rf, rm`modifiedRegs, rm`known
    modifies mm
    ensures rm.Valid() && MM.Consistent(mm.State(), initial) && MemInside(mm)
    ensures Generates(Emitted(a, at, safe), rm.nregs, maxLoopIt != 0, data, old(rm.Facts()), rm.Facts(),
                      old(mm.State()), mm.State(), old(mm.accessMem), mm.accessMem)
    ensures rm.Changed() == old(rm.Changed()) + AccessTouched(a)
    ensures if TakesBuffer(a, safe) then
              mm.checkSet == old(mm.checkSet) + MM.Addresses(Buffer(at)) && MM.Addresses(Buffer(at)) !! old(mm.checkSet)
            else mm.checkSet == old(mm.checkSet)
    ensures mm.lsFillRangeList == old(mm.lsFillRangeList) + if TakesBuffer(a, safe) then [Buffer(at)] else []
  {
    hide InFree, Represents, MM.Consistent, KnownAddress, AccessKnown, BaseKnown, LoadKnown, Taken, DestinationApart,
        MM.Addresses, MemInside, RegManager.Changed;
    ghost var before := rm.Facts();
    Settle(mm, initial, a.load, at, safe, data);
    UpdateBase(rm, a, maxLoopIt);
    if a.load {
      UpdateDestination(rm, mm, a, at, safe);
    }
    AccessIs(before, a, maxLoopIt != 0, at, safe, mm.accessMem);
  }

  /** Generates one load or store, or none when no free address is reached. */
  method Next(rm: RegManager, mm: MM.Manager, ghost initial: seq<Range>, d: Draws, maxLoopIt: nat)
    returns (out: Outcome)
    requires rm.Valid() && DrawsAllowed(d, rm.PointerWindow()) && MM.Consistent(mm.State(), initial) && MemInside(mm)
    modifies rm`rf, rm`modifiedRegs, rm`known
    modifies mm
    ensures rm.Valid() && MM.Consistent(mm.State(), initial) && MemInside(mm)
    ensures Generates(out, rm.nregs, maxLoopIt != 0, d.data, old(rm.Facts()), rm.Facts(),
                      old(mm.State()), mm.State(), old(mm.accessMem), mm.accessMem)
    ensures rm.Changed() == old(rm.Changed()) + if out.Emitted? then AccessTouched(out.a) else {}
    ensures out.Emitted? ==> && (out.a.load ==> rm.Free(out.a.rd)) && (PostModifies(out.a.mode) ==> rm.Free(out.a.rn))
                             && (out.a.load && out.a.size == 3 ==> rm.Free(out.a.rd + 1))
    ensures if out.Emitted? && TakesBuffer(out.a, out.safe) then
              mm.checkSet == old(mm.checkSet) + MM.Addresses(Buffer(out.at))
              && MM.Addresses(Buffer(out.at)) !! old(mm.checkSet)
            else mm.checkSet == old(mm.checkSet)
    ensures mm.lsFillRangeList
         == old(mm.lsFillRangeList) + if out.Emitted? && TakesBuffer(out.a, out.safe) then [Buffer(out.at)] else []
    ensures out.Nothing? <==> Stuck(old(rm.Facts()), rm.PointerWindow(), old(mm.State()), d)
    ensures out.Emitted? ==> AsDrawn(old(rm.Facts()), rm.PointerWindow(), old(mm.State()), d, out)
  {
    hide InFree, Represents, RdAllowed, Stuck, ModeChosen, BytesOf, MM.Consistent, KnownAddress, AccessKnown, Taken,
        MM.Addresses, MemInside, RegManager.Changed;
    var found, a, at, safe := Choose(rm, mm, d);
    if !found {
      return Nothing;
    }
    DestinationFree(rm, d, a);
    SameMode(rm.Facts(), rm.PointerWindow(), mm.State(), d, a, at);
    SameAddress(rm.Facts(), a, Destination(d, a), BecomesTestSet(d, a, at, safe));
    a := a.(rd := Destination(d, a), testSet := BecomesTestSet(d, a, at, safe));
    Perform(rm, mm, initial, a, at, safe, d.data, maxLoopIt);
    out := Emitted(a, at, safe);
  }

  /** The access is one that was drawn: kind and mode as chosen, aligned to its size, a
      double in an even register; unprotected only by immediate offset and on request;
      a test-and-set only where one was asked for, at a mesh address of the chip. */
  ghost predicate AsDrawn(k: Known, w: Window, p: MM.Pool, d: Draws, out: Outcome)
    requires out.Emitted?
  {
    var a, at := out.a, out.at;
    && a.load == d.load && ModeChosen(k, w, p, d, a, at) && out.safe == (a.mode != ImmOffset || d.safe)
    && at % BytesOf(a.size) == 0 && a.size == (if a.mode == ImmOffset then d.size else d.sizeAt(at))
    && a.rd == Destination(d, a) && (a.size == 3 ==> a.rd % 2 == 0)
    && (a.testSet <==> d.testSet && d.load && a.mode == RegOffset && a.size == 2
                       && at > EXT_MEM_START && d.onChip(at))
  }

  /** Neither do destination and test-and-set matter for the mode. */
  lemma SameMode(k: Known, w: Window, p: MM.Pool, d: Draws, a: Access, at: int)
    ensures forall rd: nat, t: bool ::
              ModeChosen(k, w, p, d, a.(rd := rd, testSet := t), at) <==> ModeChosen(k, w, p, d, a, at)
  {
    hide FirstBase, IsIndex, HasIndex, HasPointer;
  }

  /** The destination does not matter for the address. */
  lemma SameAddress(k: Known, a: Access, rd: nat, testSet: bool)
    requires AddressKnown(k, a)
    ensures AddressKnown(k, a.(rd := rd, testSet := testSet))
    ensures KnownAddress(k, a.(rd := rd, testSet := testSet)) == KnownAddress(k, a)
  {
  }

  lemma AccessIs(k: Known, a: Access, looping: bool, at: int, safe: bool, mem: map<int, Byte>)
    requires AddressKnown(k, a) && KnownAddress(k, a) == at && (a.load && safe ==> BytesRecorded(mem, at, 8))
    ensures AccessKnown(k, a, looping, safe, mem)
         == var after := BaseKnown(k, a, looping); if a.load then LoadKnown(after, a, at, safe, mem) else after
  {
  }
}
