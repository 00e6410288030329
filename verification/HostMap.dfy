/** The memory map of mgen (mgen/main.cpp): every slice of core memory, and the extended
    host ranges, get one master; multicast is off, host offsets are 1. */
module HostMap {
  import opened Words
  import opened Ranges
  import opened ChipAddress
  import HostSchedule

  const MAX_HOSTS: nat := HostSchedule.MAX_HOSTS
  const WEST: nat := 2
  const CORE_START_MEM: int := 0x1000
  const CORE_SLICE_SIZE: int := 0x800
  const HOST_SLICE_SIZE: int := 0x8000

  datatype Config = Config(
    chipId: int, coreNum: seq<int>, coreMemEnd: int,
    internalOnly: bool, hostOff: bool, chipExtOff: bool, hostMasterOff: bool, extendHostSpace: bool)

  /** The chip is not on the edge of the mesh; core numbers are distinct. */
  ghost predicate Legal(c: Config) {
    && 0 <= c.chipId < 64 && 1 <= c.chipId / 8 <= 6 && 1 <= c.chipId % 8 <= 6
    && 0 < |c.coreNum| <= 64 && CORE_START_MEM < c.coreMemEnd <= 0x8000
    && (forall n :: 0 <= n < |c.coreNum| ==> 0 <= c.coreNum[n] < 64)
    && (forall n, m :: 0 <= n < m < |c.coreNum| ==> c.coreNum[n] != c.coreNum[m])
  }

  /** Chip coordinates of the north, south, west and east host. */
  function HostChip(c: Config, h: nat): (r: int)
    requires 0 <= c.chipId < 64 && 1 <= c.chipId / 8 <= 6 && 1 <= c.chipId % 8 <= 6
    requires h < MAX_HOSTS
    ensures 0 <= r < 64 && r != c.chipId
  {
    match h
    case 0 => c.chipId - 8
    case 1 => c.chipId + 8
    case 2 => c.chipId - 1
    case 3 => c.chipId + 1
  }

  /** North and south hosts sit in the chip's column, one row up and one down; west and east
      hosts in its row, one column back and one on. */
  lemma HostBeside(c: Config, h: nat, own: Word, a: Word)
    requires 0 <= c.chipId < 64 && 1 <= c.chipId / 8 <= 6 && 1 <= c.chipId % 8 <= 6 && h < MAX_HOSTS
    requires Chip(own) == c.chipId && Chip(a) == HostChip(c, h)
    ensures h == 0 ==> ChipRow(a) == ChipRow(own) - 1 && ChipCol(a) == ChipCol(own)
    ensures h == 1 ==> ChipRow(a) == ChipRow(own) + 1 && ChipCol(a) == ChipCol(own)
    ensures h == 2 ==> ChipRow(a) == ChipRow(own) && ChipCol(a) == ChipCol(own) - 1
    ensures h == 3 ==> ChipRow(a) == ChipRow(own) && ChipCol(a) == ChipCol(own) + 1
  {
  }

  datatype Owner = CoreMaster(core: nat) | HostMaster(host: nat)

  /** The random choices for one slice. */
  datatype Choice = Choice(external: bool, master: nat, offChip: bool, mapInt2Ext: bool, allowExternal: bool, host: nat)

  /** A random master for an extended range. */
  datatype ExtChoice = ExtChoice(forCore: bool, core: nat, host: nat)

  datatype Choices = Choices(slice: (int, int) -> Choice, ext: (int, int) -> ExtChoice)

  ghost predicate Allowed(c: Config, ch: Choices) {
    && (forall n, k :: 0 <= n < |c.coreNum| ==> ch.slice(n, k).master < |c.coreNum| && ch.slice(n, k).host < MAX_HOSTS)
    && (forall h, i :: 0 <= h < MAX_HOSTS ==>
          ch.ext(h, i).core < |c.coreNum| && ch.ext(h, i).host < MAX_HOSTS && ch.ext(h, i).host != h
          && (c.hostMasterOff ==> ch.ext(h, i).forCore))
  }

  datatype Given = Given(owner: Owner, range: Range)

  function SliceCount(c: Config): nat
    requires CORE_START_MEM < c.coreMemEnd
  {
    (c.coreMemEnd - CORE_START_MEM + CORE_SLICE_SIZE - 1) / CORE_SLICE_SIZE
  }

  function SliceStart(k: nat): int {
    CORE_START_MEM + CORE_SLICE_SIZE * k
  }

  /** Who gets slice k of core n, and as which addresses. */
  function SliceGiven(c: Config, n: nat, k: nat, x: Choice): Given
    requires Legal(c) && n < |c.coreNum| && k < SliceCount(c)
    requires x.host < MAX_HOSTS
  {
    var start := SliceStart(k);
    var external := x.external && !c.internalOnly;
    var master := if external then x.master else n;
    var offChip := external && x.offChip && !c.hostOff;
    var own := c.internalOnly || (n == master && !offChip);
    var full := if own && !(x.mapInt2Ext && !c.internalOnly) then start else Compose(c.chipId, c.coreNum[n], start);
    if !offChip || c.internalOnly || (c.chipExtOff && c.hostMasterOff) then
      Given(CoreMaster(master), Range(full, full + CORE_SLICE_SIZE - 1))
    else
      var allow := c.hostMasterOff || (x.allowExternal && !c.chipExtOff);
      var host := if |c.coreNum| <= 2 then WEST else x.host;
      if allow then
        var moved := WithChip(full, HostChip(c, host));
        Given(CoreMaster(n), Range(moved, WithChip(full + CORE_SLICE_SIZE - 1, HostChip(c, host))))
      else
        Given(HostMaster(host), Range(full, full + CORE_SLICE_SIZE - 1))
  }

  /** Extended range i of host h: the core coordinates carry the host's number. */
  function ExtGiven(c: Config, h: nat, i: nat, x: ExtChoice): Given
    requires Legal(c) && h < MAX_HOSTS && 1 <= i < 16
  {
    var start := Compose(HostChip(c, h), 9 * h, HOST_SLICE_SIZE * i);
    Given(if x.forCore then CoreMaster(x.core) else HostMaster(x.host), Range(start, start + HOST_SLICE_SIZE - 1))
  }

  predicate ExtendedOn(c: Config) {
    c.extendHostSpace && !c.internalOnly && |c.coreNum| > 2 && !c.chipExtOff && !c.hostOff
  }

  /** Every switch does what its name says, and the drawn choice decides the rest: without
      external masters a core keeps its slice under its plain address; with hosts off nothing
      goes to or under a host; a host is master exactly of an off-chip slice that the chip
      may not, or need not, reach itself; only a slice its own core keeps is moved to a host. */
  lemma SwitchesObeyed(c: Config, n: nat, k: nat, x: Choice)
    requires Legal(c) && n < |c.coreNum| && k < SliceCount(c) && x.host < MAX_HOSTS
    ensures var g, chip := SliceGiven(c, n, k, x), SliceChip(c, n, k, x);
            var offered := x.external && x.offChip && !c.internalOnly && !c.hostOff;
            && (c.internalOnly ==> g == Given(CoreMaster(n), Range(SliceStart(k), SliceStart(k) + CORE_SLICE_SIZE - 1)))
            && (!offered ==> chip == c.chipId && g.owner == CoreMaster(if x.external && !c.internalOnly then x.master
                                                                       else n))
            && (c.hostMasterOff ==> g.owner.CoreMaster?) && (c.chipExtOff ==> chip == c.chipId)
            && (g.owner.HostMaster? <==>
                  offered && !c.hostMasterOff && (c.chipExtOff || !x.allowExternal))
            && (g.owner.HostMaster? && |c.coreNum| > 2 ==> g.owner.host == x.host)
            && (g.owner.HostMaster? && |c.coreNum| <= 2 ==> g.owner.host == WEST)
            && (chip != c.chipId <==> offered && !c.chipExtOff && (c.hostMasterOff || x.allowExternal))
            && (chip != c.chipId ==> g.owner == CoreMaster(n))
  {
    hide Compose, SliceCount;
  }

  /** An extended range is 32 kB on the host's chip; it goes to the drawn core or the drawn
      host, never to a host when hosts may not be masters, and never to its own host. */
  lemma ExtendedObeyed(c: Config, ch: Choices, h: nat, i: nat)
    requires Legal(c) && Allowed(c, ch) && h < MAX_HOSTS && 1 <= i < 16
    ensures var g, x := ExtGiven(c, h, i, ch.ext(h, i)), ch.ext(h, i);
            && (g.owner == CoreMaster(x.core) <==> x.forCore) && (g.owner == HostMaster(x.host) <==> !x.forCore)
            && (c.hostMasterOff ==> g.owner.CoreMaster?) && g.owner != HostMaster(h)
            && g.range.second - g.range.first + 1 == 0x8000 && 0 <= g.range.first < BASE
            && Chip(g.range.first) == HostChip(c, h) && Offset(g.range.first) == 0x8000 * i
  {
    hide Compose, Chip, Core;
  }

  // ----- what is given, slot by slot

  /** A place in memory that is given to exactly one master. */
  datatype Slot = CoreSlice(core: nat, index: nat) | HostRange(host: nat, part: nat)

  ghost predicate IsSlot(c: Config, s: Slot)
    requires Legal(c)
  {
    match s
    case CoreSlice(n, k) => n < |c.coreNum| && k < SliceCount(c)
    case HostRange(h, i) => ExtendedOn(c) && h < MAX_HOSTS && 1 <= i < 16
  }

  ghost function GivenAt(c: Config, ch: Choices, s: Slot): Given
    requires Legal(c) && Allowed(c, ch) && IsSlot(c, s)
  {
    match s
    case CoreSlice(n, k) => SliceGiven(c, n, k, ch.slice(n, k))
    case HostRange(h, i) => ExtGiven(c, h, i, ch.ext(h, i))
  }

  /** The global address of an address used by an owner: below 1 MB a core means its own memory. */
  function Global(c: Config, o: Owner, a: Word): Word
    requires Legal(c) && (o.CoreMaster? ==> o.core < |c.coreNum|)
  {
    if o.CoreMaster? && a < 0x10_0000 then Compose(c.chipId, c.coreNum[o.core], a) else a
  }

  /** Core coordinates and offsets of a slot. */
  ghost predicate InSlot(c: Config, s: Slot, core: int, offset: int)
    requires Legal(c) && IsSlot(c, s)
  {
    match s
    case CoreSlice(n, k) => core == c.coreNum[n] && SliceStart(k) <= offset < SliceStart(k) + CORE_SLICE_SIZE
    case HostRange(h, i) => core == 9 * h && HOST_SLICE_SIZE * i <= offset < HOST_SLICE_SIZE * (i + 1)
  }

  lemma SliceBounds(c: Config, k: nat)
    requires Legal(c) && k < SliceCount(c)
    ensures CORE_START_MEM <= SliceStart(k) && SliceStart(k) + CORE_SLICE_SIZE <= 0x8000
    ensures SliceStart(k) % CORE_SLICE_SIZE == 0
  {
  }

  /** The slices of a core cover its memory from the start to the end that is to be used,
      each starting in it. */
  lemma SlicesCover(c: Config, a: int)
    requires Legal(c)
    ensures CORE_START_MEM <= a < c.coreMemEnd ==>
              exists k: nat :: k < SliceCount(c) && SliceStart(k) <= a < SliceStart(k) + CORE_SLICE_SIZE
    ensures forall k: nat :: k < SliceCount(c) <==> SliceStart(k) < c.coreMemEnd
    ensures SliceStart(0) == CORE_START_MEM
    ensures forall k: nat :: SliceStart(k + 1) == SliceStart(k) + CORE_SLICE_SIZE
  {
    if CORE_START_MEM <= a < c.coreMemEnd {
      var k := (a - CORE_START_MEM) / CORE_SLICE_SIZE;
      assert k < SliceCount(c) && SliceStart(k) <= a < SliceStart(k) + CORE_SLICE_SIZE;
    }
  }

  // ----- ownership

  /** Addresses from the start of a piece of core memory on. */
  lemma Span(chip: int, core: int, start: int, size: int, a: int)
    requires 0 <= chip < 64 && 0 <= core < 64 && 0 <= start && 0 < size && start + size <= 0x10_0000
    requires Compose(chip, core, start) <= a < Compose(chip, core, start) + size
    ensures 0 <= a < BASE && Chip(a) == chip && Core(a) == core && start <= Offset(a) < start + size
  {
    hide Compose, Chip, Core;
    ComposeAdd(chip, core, start, a - Compose(chip, core, start));
  }

  /** Every address of a slice as it is given, made global: one chip, the core's
      coordinates, the slice's offsets. */
  lemma SliceSpan(c: Config, n: nat, k: nat, x: Choice, a: int)
    requires Legal(c) && n < |c.coreNum| && k < SliceCount(c) && x.master < |c.coreNum| && x.host < MAX_HOSTS
    requires var g := SliceGiven(c, n, k, x); g.range.first <= a <= g.range.second
    ensures 0 <= a < BASE
    ensures var o := SliceGiven(c, n, k, x).owner;
            && (o.CoreMaster? ==> o.core < |c.coreNum|)
            && (o.HostMaster? ==> o.host < MAX_HOSTS && a >= 0x10_0000)
            && var y := Global(c, o, a);
               Core(y) == c.coreNum[n] && SliceStart(k) <= Offset(y) < SliceStart(k) + CORE_SLICE_SIZE
               && Chip(y) == SliceChip(c, n, k, x) && (o.HostMaster? ==> Chip(y) == c.chipId)
  {
    hide Compose, Chip, Core, SliceStart, SliceCount;
    SliceBounds(c, k);
    var start := SliceStart(k);
    var full := Compose(c.chipId, c.coreNum[n], start);
    ComposeLarge(c.chipId, c.coreNum[n], start);
    var external := x.external && !c.internalOnly;
    var master := if external then x.master else n;
    var offChip := external && x.offChip && !c.hostOff;
    if (c.internalOnly || (n == master && !offChip)) && !(x.mapInt2Ext && !c.internalOnly) {
      ComposeAdd(c.chipId, c.coreNum[n], start, a - start);
    } else if !offChip || c.internalOnly || (c.chipExtOff && c.hostMasterOff) {
      Span(c.chipId, c.coreNum[n], start, CORE_SLICE_SIZE, a);
      ComposeLarge(c.chipId, c.coreNum[n], Offset(a));
      ComposeFields(a);
    } else if c.hostMasterOff || (x.allowExternal && !c.chipExtOff) {
      var h := HostChip(c, if |c.coreNum| <= 2 then WEST else x.host);
      ComposeAdd(c.chipId, c.coreNum[n], start, CORE_SLICE_SIZE - 1);
      ComposeAdd(h, c.coreNum[n], start, CORE_SLICE_SIZE - 1);
      Span(h, c.coreNum[n], start, CORE_SLICE_SIZE, a);
      ComposeLarge(h, c.coreNum[n], Offset(a));
      ComposeFields(a);
    } else {
      Span(c.chipId, c.coreNum[n], start, CORE_SLICE_SIZE, a);
      ComposeLarge(c.chipId, c.coreNum[n], Offset(a));
      ComposeFields(a);
    }
  }

  /** Chip coordinates a slice is reached under: the chip's own, or a host's when the
      slice was moved there. */
  function SliceChip(c: Config, n: nat, k: nat, x: Choice): int
    requires Legal(c) && n < |c.coreNum| && k < SliceCount(c) && x.host < MAX_HOSTS
  {
    var external := x.external && !c.internalOnly;
    var offChip := external && x.offChip && !c.hostOff;
    if offChip && !(c.chipExtOff && c.hostMasterOff) && (c.hostMasterOff || (x.allowExternal && !c.chipExtOff))
    then HostChip(c, if |c.coreNum| <= 2 then WEST else x.host)
    else c.chipId
  }

  /** Chip coordinates other than 0 lie above the first megabyte. */
  lemma ComposeLarge(chip: int, core: int, offset: int)
    requires 0 < chip < 64 && 0 <= core < 64 && 0 <= offset < 0x10_0000
    ensures Compose(chip, core, offset) >= 0x10_0000
  {
  }

  /** Chip coordinates of a slot. */
  ghost function SlotChip(c: Config, ch: Choices, s: Slot): int
    requires Legal(c) && Allowed(c, ch) && IsSlot(c, s)
  {
    match s
    case CoreSlice(n, k) => SliceChip(c, n, k, ch.slice(n, k))
    case HostRange(h, i) => HostChip(c, h)
  }

  ghost predicate Holds(c: Config, ch: Choices, s: Slot, a: int)
    requires Legal(c) && Allowed(c, ch) && IsSlot(c, s)
  {
    GivenAt(c, ch, s).range.first <= a <= GivenAt(c, ch, s).range.second
  }

  /** Every address a master is given lies in the slot, under the slot's chip. */
  lemma GivenInSlot(c: Config, ch: Choices, s: Slot, a: int)
    requires Legal(c) && Allowed(c, ch) && IsSlot(c, s) && Holds(c, ch, s, a)
    ensures 0 <= a < BASE
    ensures var o := GivenAt(c, ch, s).owner;
            && (o.CoreMaster? ==> o.core < |c.coreNum|)
            && (o.HostMaster? ==> o.host < MAX_HOSTS && a >= 0x10_0000)
            && (o.HostMaster? && s.CoreSlice? ==> SlotChip(c, ch, s) == c.chipId)
            && (o.HostMaster? && s.HostRange? ==> o.host != s.host)
            && var y := Global(c, o, a); InSlot(c, s, Core(y), Offset(y)) && Chip(y) == SlotChip(c, ch, s)
  {
    hide Compose, Chip, Core, SliceGiven, SliceChip, SliceStart, SliceCount;
    match s
    case CoreSlice(n, k) => SliceSpan(c, n, k, ch.slice(n, k), a);
    case HostRange(h, i) =>
      Span(HostChip(c, h), 9 * h, HOST_SLICE_SIZE * i, HOST_SLICE_SIZE, a);
      HostChipPositive(c, h);
      ComposeLarge(HostChip(c, h), 9 * h, Offset(a));
      ComposeFields(a);
  }

  lemma HostChipPositive(c: Config, h: nat)
    requires Legal(c) && h < MAX_HOSTS
    ensures 0 < HostChip(c, h) < 64
    ensures forall g :: 0 <= g < MAX_HOSTS && g != h ==> HostChip(c, g) != HostChip(c, h)
  {
  }

  /** Core coordinates and offset identify the slot, whatever the chip coordinates. */
  lemma SlotsApart(c: Config, s: Slot, t: Slot, core: int, offset: int)
    requires Legal(c) && IsSlot(c, s) && IsSlot(c, t)
    requires InSlot(c, s, core, offset) && InSlot(c, t, core, offset)
    ensures s == t
  {
    hide SliceCount, Legal;
    match s
    case CoreSlice(n, k) =>
      SliceBounds(c, k);
      match t {
        case CoreSlice(m, j) =>
          SliceBounds(c, j);
          CoresDistinct(c, n, m);
        case HostRange(h, i) =>
      }
    case HostRange(h, i) =>
      if t.CoreSlice? {
        SliceBounds(c, t.index);
      }
  }

  lemma CoresDistinct(c: Config, n: nat, m: nat)
    requires Legal(c) && n < |c.coreNum| && m < |c.coreNum| && c.coreNum[n] == c.coreNum[m]
    ensures n == m
  {
  }

  /** Exclusive ownership: addresses given in different slots are different memory. */
  lemma SlicesDisjoint(c: Config, ch: Choices, s: Slot, t: Slot, a: int, b: int)
    requires Legal(c) && Allowed(c, ch) && IsSlot(c, s) && IsSlot(c, t) && s != t
    requires Holds(c, ch, s, a) && Holds(c, ch, t, b)
    ensures 0 <= a < BASE && 0 <= b < BASE
    ensures var o, p := GivenAt(c, ch, s).owner, GivenAt(c, ch, t).owner;
            (o.CoreMaster? ==> o.core < |c.coreNum|) && (p.CoreMaster? ==> p.core < |c.coreNum|)
            && Global(c, o, a) != Global(c, p, b)
  {
    hide Holds, GivenAt, InSlot, Global, Core, Chip, SlotChip;
    GivenInSlot(c, ch, s, a);
    GivenInSlot(c, ch, t, b);
    if Global(c, GivenAt(c, ch, s).owner, a) == Global(c, GivenAt(c, ch, t).owner, b) {
      SlotsApart(c, s, t, Core(Global(c, GivenAt(c, ch, s).owner, a)), Offset(Global(c, GivenAt(c, ch, s).owner, a)));
    }
  }

  // ----- the copies hosts keep of their own addresses

  /** Where host h finds, in its own memory, what it reads back from a. */
  function Copy(c: Config, h: nat, a: Word): Word
    requires Legal(c) && h < MAX_HOSTS
  {
    WithChip(a, HostChip(c, h))
  }

  /** Address a is in a slot that host h was given. */
  ghost predicate OwnedIn(c: Config, ch: Choices, s: Slot, h: int, a: int) {
    && h >= 0 && Legal(c) && Allowed(c, ch) && IsSlot(c, s)
    && GivenAt(c, ch, s).owner == HostMaster(h) && Holds(c, ch, s, a)
  }

  /** A copy lies on no range that anyone was given. */
  lemma CopyNotGiven(c: Config, ch: Choices, s: Slot, h: nat, a: Word, t: Slot, b: int)
    requires OwnedIn(c, ch, s, h, a) && IsSlot(c, t) && Holds(c, ch, t, b)
    ensures h < MAX_HOSTS && 0 <= b < BASE
    ensures var o := GivenAt(c, ch, t).owner;
            (o.CoreMaster? ==> o.core < |c.coreNum|) && Copy(c, h, a) != Global(c, o, b)
  {
    hide Holds, GivenAt, InSlot, Core, Chip, Compose, Legal;
    GivenInSlot(c, ch, s, a);
    GivenInSlot(c, ch, t, b);
    var y := Global(c, GivenAt(c, ch, t).owner, b);
    if Copy(c, h, a) == y {
      SlotsApart(c, s, t, Core(y), Offset(y));
      HostChipPositive(c, h);
    }
  }

  /** Different owned addresses have different copies. */
  lemma CopiesDistinct(c: Config, ch: Choices, s: Slot, t: Slot, h: nat, g: nat, a: Word, b: Word)
    requires OwnedIn(c, ch, s, h, a) && OwnedIn(c, ch, t, g, b)
    requires h < MAX_HOSTS && g < MAX_HOSTS && Copy(c, h, a) == Copy(c, g, b)
    ensures h == g && a == b
  {
    hide Holds, GivenAt, InSlot, Core, Chip, Compose, Legal;
    GivenInSlot(c, ch, s, a);
    GivenInSlot(c, ch, t, b);
    HostChipPositive(c, h);
    SlotsApart(c, s, t, Core(a), Offset(a));
    ComposeFields(a);
    ComposeFields(b);
  }

  // ----- the plan of who drives what

  /** Addresses of a host are those in its slots; what it reads goes to its own copy. */
  ghost function PlanOf(c: Config, ch: Choices): HostSchedule.Plan
    requires Legal(c)
  {
    HostSchedule.Plan(
      (h: int, a: int) => exists s: Slot :: OwnedIn(c, ch, s, h, a),
      (h: int, a: int) => if 0 <= h < MAX_HOSTS && 0 <= a < BASE then Copy(c, h, a) else a)
  }

  lemma OwnedIsHost(c: Config, ch: Choices, s: Slot, h: int, a: int)
    requires OwnedIn(c, ch, s, h, a)
    ensures 0 <= h < MAX_HOSTS && 0 <= a < BASE
    ensures forall o :: o == HostMaster(h) ==> Global(c, o, a) == a
  {
    hide Holds, GivenAt, Compose;
    GivenInSlot(c, ch, s, a);
  }

  /** An address is owned by one host only. */
  lemma OneOwner(c: Config, ch: Choices, s: Slot, t: Slot, h: int, g: int, a: int)
    requires OwnedIn(c, ch, s, h, a) && OwnedIn(c, ch, t, g, a)
    ensures h == g
  {
    hide Holds, GivenAt, Global, Legal;
    OwnedIsHost(c, ch, s, h, a);
    OwnedIsHost(c, ch, t, g, a);
    if s != t {
      SlicesDisjoint(c, ch, s, t, a, a);
    }
  }

  /** Whatever the random choices, hosts' addresses and copies never meet. */
  lemma PlanExclusive(c: Config, ch: Choices)
    requires Legal(c)
    ensures HostSchedule.Exclusive(PlanOf(c, ch))
  {
    hide OwnedIn, Copy, Legal;
    var p := PlanOf(c, ch);
    forall h, g, a | p.own(h, a) && p.own(g, a)
      ensures h == g
    {
      var s: Slot :| OwnedIn(c, ch, s, h, a);
      var t: Slot :| OwnedIn(c, ch, t, g, a);
      OneOwner(c, ch, s, t, h, g, a);
    }
    forall h, g, a, b | p.own(h, a) && p.own(g, b) && p.copy(h, a) == p.copy(g, b)
      ensures h == g && a == b
    {
      var s: Slot :| OwnedIn(c, ch, s, h, a);
      var t: Slot :| OwnedIn(c, ch, t, g, b);
      OwnedIsHost(c, ch, s, h, a);
      OwnedIsHost(c, ch, t, g, b);
      CopiesDistinct(c, ch, s, t, h, g, a, b);
    }
    forall h, g, a | p.own(h, a)
      ensures !p.own(g, p.copy(h, a))
    {
      var s: Slot :| OwnedIn(c, ch, s, h, a);
      OwnedIsHost(c, ch, s, h, a);
      forall t: Slot
        ensures !OwnedIn(c, ch, t, g, p.copy(h, a))
      {
        if OwnedIn(c, ch, t, g, p.copy(h, a)) {
          CopyNotOwnedBy(c, ch, s, h, a, t, g);
        }
      }
    }
  }

  lemma CopyNotOwnedBy(c: Config, ch: Choices, s: Slot, h: nat, a: Word, t: Slot, g: int)
    requires OwnedIn(c, ch, s, h, a) && h < MAX_HOSTS
    ensures !OwnedIn(c, ch, t, g, Copy(c, h, a))
  {
    hide Holds, GivenAt, Global, Legal, Copy;
    if OwnedIn(c, ch, t, g, Copy(c, h, a)) {
      OwnedIsHost(c, ch, t, g, Copy(c, h, a));
      CopyNotGiven(c, ch, s, h, a, t, Copy(c, h, a));
    }
  }
}
