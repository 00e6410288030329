/** The host driver: its transaction queue, the sign-off list and the host memory
    (epiphany_models/stimulus.h, epiphany_models/stimulus.cpp). */
module DriverQueue {
  import opened Accesses
  import opened Words
  import opened ChipAddress

  const CORE_ILAT: int := 0x400 + 0xF0000 + 10 * 4
  const MMR_START: int := 0xF0000
  const REGULAR_CTRL_MODE: int := 0
  const MULTI_CAST_CTRL_MODE: int := 3

  /** dataMode: bits [3:2] log2 of the size, bit 1 read, bit 0 write. */
  datatype Entry = Entry(srcAddr: Word, data: Word, dstAddr: Word, ctrlMode: int, dataMode: nat,
                         delay: nat, isWriteBack: bool)

  predicate IsWrite(e: Entry) {
    e.dataMode % 2 != 0
  }

  /** Types the driver knows; any other stops it. */
  predicate Drivable(e: Entry) {
    e.dataMode in {1, 2, 5, 6, 9, 10, 13, 14}
  }

  /** The size it puts on the wire for a type. */
  function SizeDriven(e: Entry): Size
    requires Drivable(e)
  {
    match e.dataMode
    case 13 => 3
    case 14 => 3
    case 9 => 2
    case 10 => 2
    case 5 => 1
    case 6 => 1
    case _ => 0
  }

  /** A write to the interrupt latch of one of the chip's cores. */
  predicate IsIlatWrite(e: Entry, chipBase: Word) {
    && IsWrite(e)
    && e.dstAddr / 0x1000_0000 == chipBase / 0x1000_0000
    && (e.dstAddr / 0x40_0000) % 16 == (chipBase / 0x40_0000) % 16
    && Offset(e.dstAddr) == CORE_ILAT
  }

  /** Entries a write-back may overtake. */
  predicate Ordinary(e: Entry, chipBase: Word) {
    !e.isWriteBack && !IsIlatWrite(e, chipBase)
  }

  /** It is a write to a register of a core on the driver's own chip, in the quarter of its
      rows and columns that the base address names. */
  lemma LatchWrite(e: Entry, chipBase: Word)
    ensures IsIlatWrite(e, chipBase) <==>
              && IsWrite(e) && Chip(e.dstAddr) == Chip(chipBase) && Offset(e.dstAddr) == CORE_ILAT
              && CoreRow(e.dstAddr) / 4 == CoreRow(chipBase) / 4 && CoreCol(e.dstAddr) / 4 == CoreCol(chipBase) / 4
  {
    hide ChipRow, CoreRow, ChipCol, CoreCol, Offset;
    TopBits(e.dstAddr);
    TopBits(chipBase);
    SamePair(ChipRow(e.dstAddr), CoreRow(e.dstAddr) / 4, ChipRow(chipBase), CoreRow(chipBase) / 4, 2);
    SamePair(ChipCol(e.dstAddr), CoreCol(e.dstAddr) / 4, ChipCol(chipBase), CoreCol(chipBase) / 4, 2);
    SamePair(ChipRow(e.dstAddr), ChipCol(e.dstAddr), ChipRow(chipBase), ChipCol(chipBase), 8);
  }

  lemma SamePair(p: int, q: int, r: int, t: int, n: int)
    requires 0 <= q < n && 0 <= t < n && (n == 2 || n == 8)
    ensures n * p + q == n * r + t <==> p == r && q == t
  {
  }

  /** Bits [31:28] and [25:22]: chip coordinates and the top bit of the core's. */
  lemma TopBits(a: Word)
    ensures a / 0x1000_0000 == 2 * ChipRow(a) + CoreRow(a) / 4
    ensures (a / 0x40_0000) % 16 == 2 * ChipCol(a) + CoreCol(a) / 4
  {
    hide Offset;
    var u, v := a / 0x400_0000, a / 0x10_0000;
    assert a / 0x1000_0000 == u / 4 && a / 0x40_0000 == v / 4;
    assert v / 64 == u && v / 512 == u / 8;
    assert u / 4 == 2 * (u / 8) + u % 8 / 4;
    OctalTop(v);
  }

  lemma OctalTop(v: int)
    ensures (v / 4) % 16 == 2 * ((v / 8) % 8) + v % 8 / 4
  {
    var q, r := v / 8, v % 8 / 4;
    assert v / 4 == 2 * q + r;
    assert q == 8 * (q / 8) + q % 8;
    DivModUnique(v / 4, 16, q / 8, 2 * (q % 8) + r);
  }

  /** So it is never signed off. */
  lemma LatchNotSignedOff(e: Entry, chipBase: Word)
    requires IsIlatWrite(e, chipBase)
    ensures !IsSignedOff(e, chipBase)
  {
    LatchWrite(e, chipBase);
  }

  // ----- queue operations on sequences

  /** Position of the first ordinary entry. */
  function FirstOrdinary(q: seq<Entry>, chipBase: Word): (p: nat)
    ensures p <= |q|
    ensures p < |q| ==> Ordinary(q[p], chipBase)
    ensures forall i :: 0 <= i < p ==> !Ordinary(q[i], chipBase)
  {
    if q == [] || Ordinary(q[0], chipBase) then 0 else 1 + FirstOrdinary(q[1..], chipBase)
  }

  function WithWriteBack(q: seq<Entry>, e: Entry, chipBase: Word): seq<Entry> {
    var p := FirstOrdinary(q, chipBase);
    q[..p] + [e] + q[p..]
  }

  /** The read that fetches back what a write has stored, to this host's copy. */
  function SignOff(e: Entry, hostBase: Word): (r: Entry)
  {
    e.(dataMode := e.dataMode + 1, srcAddr := WithChip(e.dstAddr, Chip(hostBase)), ctrlMode := REGULAR_CTRL_MODE)
  }

  predicate IsSignedOff(e: Entry, chipBase: Word) {
    && IsWrite(e) && !e.isWriteBack && e.ctrlMode != MULTI_CAST_CTRL_MODE
    && !(Chip(e.dstAddr) == Chip(chipBase) && Offset(e.dstAddr) >= MMR_START)
  }

  /** A plain write is read back unless it goes to a register of one of the chip's cores. */
  lemma SignedOffIff(e: Entry, chipBase: Word)
    requires IsWrite(e) && !e.isWriteBack && e.ctrlMode == REGULAR_CTRL_MODE
    ensures IsSignedOff(e, chipBase) <==>
              forall core :: 0 <= core < 64 ==> !(Compose(Chip(chipBase), core, 0xF0000) <= e.dstAddr
                                                  <= Compose(Chip(chipBase), core, 0xFFFFF))
  {
    hide ChipRow, CoreRow, ChipCol, CoreCol;
    ComposeFields(e.dstAddr);
    if !IsSignedOff(e, chipBase) {
      RegisterAddress(e.dstAddr, Chip(chipBase), Core(e.dstAddr));
    }
    forall core | 0 <= core < 64 && Compose(Chip(chipBase), core, 0xF0000) <= e.dstAddr
                                   <= Compose(Chip(chipBase), core, 0xFFFFF)
      ensures !IsSignedOff(e, chipBase)
    {
      RegisterAddress(e.dstAddr, Chip(chipBase), core);
    }
  }

  /** The registers of a core are the last sixteenth of its addresses. */
  lemma RegisterAddress(a: Word, chip: int, core: int)
    requires 0 <= chip < 64 && 0 <= core < 64
    ensures Compose(chip, core, 0xF0000) <= a <= Compose(chip, core, 0xFFFFF)
       <==> Chip(a) == chip && Core(a) == core && Offset(a) >= MMR_START
  {
    hide Chip, Core, Compose;
    var first := Compose(chip, core, 0xF0000);
    ComposeAdd(chip, core, 0xF0000, 0xFFFF);
    if first <= a <= first + 0xFFFF {
      ComposeAdd(chip, core, 0xF0000, a - first);
    }
    if Chip(a) == chip && Core(a) == core && Offset(a) >= MMR_START {
      ComposeFields(a);
      ComposeAdd(chip, core, 0xF0000, Offset(a) - 0xF0000);
    }
  }

  /** The sign-off list after driving these entries. */
  function SignOffs(driven: seq<Entry>, hostBase: Word, chipBase: Word): seq<Entry> {
    if driven == [] then []
    else
      var e := driven[|driven| - 1];
      SignOffs(driven[..|driven| - 1], hostBase, chipBase)
      + if IsSignedOff(e, chipBase) then [SignOff(e, hostBase)] else []
  }

  // ----- queue discipline over whole runs

  /** No write-back sits behind an ordinary entry. */
  ghost predicate Disciplined(q: seq<Entry>, chipBase: Word) {
    forall i, j :: 0 <= i < j < |q| && q[j].isWriteBack ==> !Ordinary(q[i], chipBase)
  }

  /** The write-backs, or the other entries, of q in order. */
  function Select(q: seq<Entry>, writeBack: bool): seq<Entry> {
    if q == [] then []
    else (if q[0].isWriteBack == writeBack then [q[0]] else []) + Select(q[1..], writeBack)
  }

  lemma {:induction false} SelectConcat(a: seq<Entry>, b: seq<Entry>, writeBack: bool)
    ensures Select(a + b, writeBack) == Select(a, writeBack) + Select(b, writeBack)
  {
    if a == [] {
      assert a + b == b;
    } else {
      assert (a + b)[1..] == a[1..] + b;
      SelectConcat(a[1..], b, writeBack);
    }
  }

  lemma {:induction false} SelectNone(q: seq<Entry>, writeBack: bool)
    requires forall i :: 0 <= i < |q| ==> q[i].isWriteBack != writeBack
    ensures Select(q, writeBack) == []
  {
    if q != [] {
      SelectNone(q[1..], writeBack);
    }
  }

  lemma OrdinaryIsNot(e: Entry, chipBase: Word)
    ensures Ordinary(e, chipBase) ==> !e.isWriteBack
  {
  }

  /** A write-back goes behind all earlier write-backs and behind leading latch
      writes, ahead of the rest, which keeps its order. */
  lemma WriteBackInserted(q: seq<Entry>, e: Entry, chipBase: Word)
    requires Disciplined(q, chipBase) && e.isWriteBack
    ensures Disciplined(WithWriteBack(q, e, chipBase), chipBase)
    ensures Select(WithWriteBack(q, e, chipBase), true) == Select(q, true) + [e]
    ensures Select(WithWriteBack(q, e, chipBase), false) == Select(q, false)
  {
    hide Ordinary, Select, FirstOrdinary;
    var p := FirstOrdinary(q, chipBase);
    var a, b := q[..p], q[p..];
    assert q == a + b && WithWriteBack(q, e, chipBase) == a + [e] + b;
    forall i | 0 <= i < |b|
      ensures !b[i].isWriteBack
    {
      OrdinaryIsNot(q[p], chipBase);
      assert q[p + i] == b[i];
    }
    OrdinaryIsNot(e, chipBase);
    SelectInserted(a, e, b);
  }

  /** An entry with nothing ordinary up to it is not overtaken: a leading latch write
      is still driven before the write-back. */
  lemma LeadingNotOvertaken(q: seq<Entry>, e: Entry, chipBase: Word, i: nat)
    requires i < |q| && forall k :: 0 <= k <= i ==> !Ordinary(q[k], chipBase)
    ensures WithWriteBack(q, e, chipBase)[..i + 1] == q[..i + 1]
    ensures e !in q ==> e !in WithWriteBack(q, e, chipBase)[..i + 1]
  {
    assert FirstOrdinary(q, chipBase) > i;
  }

  lemma SelectInserted(a: seq<Entry>, e: Entry, b: seq<Entry>)
    requires e.isWriteBack && forall i :: 0 <= i < |b| ==> !b[i].isWriteBack
    ensures Select(a + [e] + b, true) == Select(a + b, true) + [e]
    ensures Select(a + [e] + b, false) == Select(a + b, false)
  {
    SelectConcat(a, b, true);
    SelectConcat(a, b, false);
    SelectConcat(a, [e], true);
    SelectConcat(a, [e], false);
    SelectConcat(a + [e], b, true);
    SelectConcat(a + [e], b, false);
    SelectNone(b, true);
    assert Select([e], true) == [e] && Select([e], false) == [];
  }

  datatype Event =
    | Add(e: Entry)          // AddStimulus
    | Sampled(e: Entry)      // a read request answered by AddWriteBackStimulus
    | Drive                  // the driver pops and drives one entry
    | Dispatch               // the sign-off list is queued

  /** The queue together with what has gone through it. */
  datatype History = History(queue: seq<Entry>, signoff: seq<Entry>, driven: seq<Entry>,
                             writeBacks: seq<Entry>, others: seq<Entry>)

  predicate Possible(ev: Event) {
    match ev
    case Add(e) => !e.isWriteBack
    case Sampled(e) => e.isWriteBack
    case _ => true
  }

  function Step(h: History, ev: Event, hostBase: Word, chipBase: Word): History {
    match ev
    case Add(e) => h.(queue := h.queue + [e], others := h.others + [e])
    case Sampled(e) => h.(queue := WithWriteBack(h.queue, e, chipBase), writeBacks := h.writeBacks + [e])
    case Drive =>
      if h.queue == [] then h
      else
        var e := h.queue[0];
        h.(queue := h.queue[1..], driven := h.driven + [e],
           signoff := h.signoff + if IsSignedOff(e, chipBase) then [SignOff(e, hostBase)] else [])
    case Dispatch => h.(queue := h.queue + h.signoff, others := h.others + h.signoff)
  }

  function Run(evs: seq<Event>, hostBase: Word, chipBase: Word): History {
    if evs == [] then History([], [], [], [], [])
    else Step(Run(evs[..|evs| - 1], hostBase, chipBase), evs[|evs| - 1], hostBase, chipBase)
  }

  /** Write-backs are ahead of ordinary entries; write-backs leave in arrival order,
      the others in theirs; the sign-off list is derived from exactly the writes driven. */
  ghost predicate Tidy(h: History, hostBase: Word, chipBase: Word) {
    && Disciplined(h.queue, chipBase)
    && Select(h.driven + h.queue, true) == h.writeBacks
    && Select(h.driven + h.queue, false) == h.others
    && h.signoff == SignOffs(h.driven, hostBase, chipBase)
    && forall i :: 0 <= i < |h.signoff| ==> !h.signoff[i].isWriteBack
  }

  /** Every reachable queue is tidy. */
  lemma {:induction false} RunDisciplined(evs: seq<Event>, hostBase: Word, chipBase: Word)
    requires forall i :: 0 <= i < |evs| ==> Possible(evs[i])
    ensures Tidy(Run(evs, hostBase, chipBase), hostBase, chipBase)
  {
    if evs != [] {
      var h, ev := Run(evs[..|evs| - 1], hostBase, chipBase), evs[|evs| - 1];
      RunDisciplined(evs[..|evs| - 1], hostBase, chipBase);
      match ev
      case Add(e) => AppendedTidy(h, [e], hostBase, chipBase);
      case Dispatch => AppendedTidy(h, h.signoff, hostBase, chipBase);
      case Sampled(e) => SampledTidy(h, e, hostBase, chipBase);
      case Drive => DriveTidy(h, hostBase, chipBase);
    }
  }

  lemma SampledTidy(h: History, e: Entry, hostBase: Word, chipBase: Word)
    requires Tidy(h, hostBase, chipBase) && e.isWriteBack
    ensures Tidy(Step(h, Sampled(e), hostBase, chipBase), hostBase, chipBase)
  {
    hide Select, Ordinary, WithWriteBack, SignOffs;
    var q := WithWriteBack(h.queue, e, chipBase);
    WriteBackInserted(h.queue, e, chipBase);
    SelectConcat(h.driven, h.queue, true);
    SelectConcat(h.driven, h.queue, false);
    SelectConcat(h.driven, q, true);
    SelectConcat(h.driven, q, false);
  }

  lemma DriveTidy(h: History, hostBase: Word, chipBase: Word)
    requires Tidy(h, hostBase, chipBase)
    ensures Tidy(Step(h, Drive, hostBase, chipBase), hostBase, chipBase)
  {
    hide Select, Ordinary, IsSignedOff, SignOff;
    if h.queue != [] {
      var n := Step(h, Drive, hostBase, chipBase);
      assert n.driven + n.queue == h.driven + h.queue;
      assert n.driven[..|n.driven| - 1] == h.driven;
      SignOffNotWriteBack(h.queue[0], hostBase, chipBase);
    }
  }

  lemma AppendedTidy(h: History, more: seq<Entry>, hostBase: Word, chipBase: Word)
    requires Tidy(h, hostBase, chipBase)
    requires forall i :: 0 <= i < |more| ==> !more[i].isWriteBack
    ensures Tidy(h.(queue := h.queue + more, others := h.others + more), hostBase, chipBase)
  {
    hide Select, Ordinary;
    assert h.driven + (h.queue + more) == (h.driven + h.queue) + more;
    SelectConcat(h.driven + h.queue, more, true);
    SelectConcat(h.driven + h.queue, more, false);
    SelectNone(more, true);
    SelectAll(more);
  }

  lemma SignOffNotWriteBack(e: Entry, hostBase: Word, chipBase: Word)
    ensures IsSignedOff(e, chipBase) ==> !SignOff(e, hostBase).isWriteBack
  {
  }

  lemma {:induction false} SelectAll(q: seq<Entry>)
    requires forall i :: 0 <= i < |q| ==> !q[i].isWriteBack
    ensures Select(q, false) == q
  {
    if q != [] {
      SelectAll(q[1..]);
    }
  }

  // ----- host memory: little-endian bytes

  function MemByte(mem: map<int, Byte>, a: int): Byte {
    if a in mem then mem[a] else 0
  }

  // ----- the driver object

  class Stimulus {
    var stimulusArray: seq<Entry>
    var signoffArray: seq<Entry>
    var hostMem: map<int, Byte>
    const hostBase: Word
    const chipBase: Word
    ghost var driven: seq<Entry>
    ghost var writeBacks: seq<Entry>
    ghost var others: seq<Entry>

    ghost function State(): History
      reads this
    {
      History(stimulusArray, signoffArray, driven, writeBacks, others)
    }

    constructor (hostBase: Word, chipBase: Word)
      ensures State() == Run([], hostBase, chipBase)
      ensures this.hostBase == hostBase && this.chipBase == chipBase && hostMem == map[]
    {
      this.hostBase, this.chipBase := hostBase, chipBase;
      stimulusArray, signoffArray, hostMem := [], [], map[];
      driven, writeBacks, others := [], [], [];
    }

    method AddStimulus(e: Entry)
      modifies `stimulusArray, `others
      ensures State() == Step(old(State()), Add(e), hostBase, chipBase)
    {
      stimulusArray := stimulusArray + [e];
      others := others + [e];
    }

    /** Inserts e before the first entry that is neither a write-back nor a latch write. */
    method AddWriteBackStimulus(e: Entry)
      modifies `stimulusArray, `writeBacks
      ensures State() == Step(old(State()), Sampled(e), hostBase, chipBase)
    {
      writeBacks := writeBacks + [e];
      var it := 0;
      while it < |stimulusArray|
        invariant 0 <= it <= |stimulusArray|
        invariant stimulusArray == old(stimulusArray) && writeBacks == old(writeBacks) + [e]
        invariant FirstOrdinary(stimulusArray, chipBase) == it + FirstOrdinary(stimulusArray[it..], chipBase)
      {
        if !stimulusArray[it].isWriteBack && !IsIlatWrite(stimulusArray[it], chipBase) {
          stimulusArray := stimulusArray[..it] + [e] + stimulusArray[it..];
          return;
        }
        it := it + 1;
      }
      stimulusArray := stimulusArray + [e];
    }

    /** Takes the entry to drive next and notes its sign-off read. */
    method DriveNext() returns (e: Entry)
      requires stimulusArray != []
      modifies `stimulusArray, `signoffArray, `driven
      ensures e == old(stimulusArray)[0]
      ensures State() == Step(old(State()), Drive, hostBase, chipBase)
    {
      e := stimulusArray[0];
      stimulusArray := stimulusArray[1..];
      if IsWrite(e) && !e.isWriteBack && e.ctrlMode != MULTI_CAST_CTRL_MODE {
        var signOff := e.(dataMode := e.dataMode + 1,
                          srcAddr := WithChip(e.dstAddr, Chip(hostBase)),
                          ctrlMode := REGULAR_CTRL_MODE);
        if !(Chip(e.dstAddr) == Chip(chipBase) && Offset(e.dstAddr) >= MMR_START) {
          signoffArray := signoffArray + [signOff];
        }
      }
      driven := driven + [e];
    }

    method DispatchSignOff()
      modifies `stimulusArray, `others
      ensures State() == Step(old(State()), Dispatch, hostBase, chipBase)
    {
      var it := 0;
      while it < |signoffArray|
        invariant 0 <= it <= |signoffArray|
        invariant stimulusArray == old(stimulusArray) + signoffArray[..it]
        invariant signoffArray == old(signoffArray) && driven == old(driven)
        invariant others == old(others) && writeBacks == old(writeBacks)
      {
        stimulusArray := stimulusArray + [signoffArray[it]];
        it := it + 1;
      }
      assert signoffArray[..it] == signoffArray;
      others := others + signoffArray;
    }

    /** A write from the chip: its bytes go to host memory, low byte first. */
    method SampleWrite(dst: Word, data: Word, srcData: Word, mode: nat)
      requires mode < 4
      modifies `hostMem
      ensures Stored(hostMem, old(hostMem), AlignDown(dst, mode), BytesOf(mode), srcData, data)
    {
      var at := AlignDown(dst, mode);
      var i := 0;
      while i < BytesOf(mode)
        invariant 0 <= i <= BytesOf(mode)
        invariant Stored(hostMem, old(hostMem), at, i, srcData, data)
      {
        hostMem := hostMem[at + i := ByteOf(srcData, data, i)];
        i := i + 1;
      }
    }

    /** A read request from the chip: answered by a write-back of the bytes in host
        memory, zero where nothing was stored. */
    method SampleRead(srcAddr: Word, dst: Word, ctrlMode: int, mode: nat, delay: nat)
      requires mode < 4
      modifies `stimulusArray, `writeBacks
      ensures var answer := Answer(hostMem, srcAddr, dst, ctrlMode, mode, delay);
              State() == Step(old(State()), Sampled(answer), hostBase, chipBase)
    {
      AddWriteBackStimulus(Answer(hostMem, srcAddr, dst, ctrlMode, mode, delay));
    }
  }

  /** mem is before with n bytes of the 64-bit value stored at address at. */
  ghost predicate Stored(mem: map<int, Byte>, before: map<int, Byte>, at: int, n: nat, hi: Word, lo: Word)
    requires n <= 8
  {
    && (forall a :: at <= a < at + n ==> a in mem && mem[a] == ByteOf(hi, lo, a - at))
    && (forall a :: !(at <= a < at + n) ==> (a in mem <==> a in before))
    && (forall a :: !(at <= a < at + n) && a in mem ==> mem[a] == before[a])
  }

  /** The bytes of host memory from at on, as far as n goes, in one word. */
  function Fetch(mem: map<int, Byte>, at: int, n: int): Word {
    WordOf(if n > 0 then MemByte(mem, at) else 0, if n > 1 then MemByte(mem, at + 1) else 0,
           if n > 2 then MemByte(mem, at + 2) else 0, if n > 3 then MemByte(mem, at + 3) else 0)
  }

  /** The write-back that answers a read request. */
  function Answer(mem: map<int, Byte>, srcAddr: Word, dst: Word, ctrlMode: int, mode: nat, delay: nat): Entry
    requires mode < 4
  {
    var at := AlignDown(dst, mode);
    var hi := if mode == 3 then Fetch(mem, at + 4, 4) else at;
    Entry(hi, Fetch(mem, at, BytesOf(mode)), srcAddr, ctrlMode, 4 * mode + 1, delay, true)
  }

  /** The answer is a write-back that stores, at the requester's address, exactly the
      bytes the host memory holds. */
  lemma AnswerCarriesMemory(mem: map<int, Byte>, srcAddr: Word, dst: Word, ctrlMode: int, mode: nat, delay: nat)
    requires mode < 4
    ensures var e := Answer(mem, srcAddr, dst, ctrlMode, mode, delay);
            && e.isWriteBack && IsWrite(e) && e.dstAddr == srcAddr && Drivable(e) && SizeDriven(e) == mode
            && e.ctrlMode == ctrlMode && e.delay == delay
            && forall i :: 0 <= i < BytesOf(mode) ==>
                 ByteOf(e.srcAddr, e.data, i) == MemByte(mem, AlignDown(dst, mode) + i)
  {
    hide WordOf, ByteOf;
    var at: int, n := AlignDown(dst, mode), BytesOf(mode);
    var e := Answer(mem, srcAddr, dst, ctrlMode, mode, delay);
    BytesOfWord(if n > 0 then MemByte(mem, at) else 0, if n > 1 then MemByte(mem, at + 1) else 0,
                if n > 2 then MemByte(mem, at + 2) else 0, if n > 3 then MemByte(mem, at + 3) else 0, e.srcAddr);
    BytesOfHigh(MemByte(mem, at + 4), MemByte(mem, at + 5), MemByte(mem, at + 6), MemByte(mem, at + 7), e.data);
    forall i | 0 <= i < n
      ensures ByteOf(e.srcAddr, e.data, i) == MemByte(mem, at + i)
    {
      if i < 4 {
        assert i == 0 || i == 1 || i == 2 || i == 3;
      } else {
        assert i == 4 || i == 5 || i == 6 || i == 7;
      }
    }
  }

  /** What the chip stores in host memory it reads back. */
  lemma StoredIsAnswered(mem: map<int, Byte>, before: map<int, Byte>, dst: Word, mode: nat, hi: Word, lo: Word,
      srcAddr: Word)
    requires mode < 4 && Stored(mem, before, AlignDown(dst, mode), BytesOf(mode), hi, lo)
    ensures forall i :: 0 <= i < BytesOf(mode) ==>
              var e := Answer(mem, srcAddr, dst, 0, mode, 0);
              ByteOf(e.srcAddr, e.data, i) == ByteOf(hi, lo, i)
  {
    hide ByteOf, Answer;
    AnswerCarriesMemory(mem, srcAddr, dst, 0, mode, 0);
    forall i | 0 <= i < BytesOf(mode)
      ensures MemByte(mem, AlignDown(dst, mode) + i) == ByteOf(hi, lo, i)
    {
      var a := AlignDown(dst, mode) + i;
      assert a in mem && mem[a] == ByteOf(hi, lo, a - AlignDown(dst, mode));
    }
  }
}
