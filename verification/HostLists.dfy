/** GenerateMap's loops: the range lists of every core and host (mgen/main.cpp:430-664). */
module HostLists {
  import opened Words
  import opened Ranges
  import opened ChipAddress
  import opened HostMap

  // ----- the slots in the order they are given away

  function SlicesOf(n: nat, k: nat): (r: seq<Slot>) {
    if k == 0 then [] else SlicesOf(n, k - 1) + [CoreSlice(n, k - 1)]
  }

  function CoreSlots(c: Config, n: nat): (r: seq<Slot>)
    requires Legal(c)
  {
    if n == 0 then [] else CoreSlots(c, n - 1) + SlicesOf(n - 1, SliceCount(c))
  }

  function PartsOf(h: nat, i: nat): (r: seq<Slot>) {
    if i <= 1 then [] else PartsOf(h, i - 1) + [HostRange(h, i - 1)]
  }

  function HostSlots(h: nat): (r: seq<Slot>) {
    if h == 0 then [] else HostSlots(h - 1) + PartsOf(h - 1, 16)
  }

  function AllSlots(c: Config): (r: seq<Slot>)
    requires Legal(c)
  {
    CoreSlots(c, |c.coreNum|) + if ExtendedOn(c) then HostSlots(MAX_HOSTS) else []
  }

  ghost predicate AreSlots(c: Config, slots: seq<Slot>)
    requires Legal(c)
  {
    forall j :: 0 <= j < |slots| ==> IsSlot(c, slots[j])
  }

  ghost predicate Distinct(slots: seq<Slot>) {
    forall i, j :: 0 <= i < j < |slots| ==> slots[i] != slots[j]
  }

  lemma Joined(c: Config, a: seq<Slot>, b: seq<Slot>)
    requires Legal(c) && AreSlots(c, a) && AreSlots(c, b) && Distinct(a) && Distinct(b)
    requires forall s :: s in a ==> s !in b
    ensures AreSlots(c, a + b) && Distinct(a + b)
  {
    forall i, j | 0 <= i < j < |a + b|
      ensures (a + b)[i] != (a + b)[j]
    {
      if i < |a| <= j {
        assert a[i] in a && b[j - |a|] in b;
      }
    }
  }

  lemma NoSlots(c: Config)
    requires Legal(c)
    ensures AreSlots(c, []) && Distinct([])
  {
  }

  lemma {:induction false} SlicesOfSlots(c: Config, n: nat, k: nat)
    requires Legal(c) && n < |c.coreNum| && k <= SliceCount(c)
    ensures AreSlots(c, SlicesOf(n, k)) && Distinct(SlicesOf(n, k))
    ensures forall s :: s in SlicesOf(n, k) <==> s.CoreSlice? && s.core == n && s.index < k
  {
    hide Legal, SliceCount;
    if k > 0 {
      SlicesOfSlots(c, n, k - 1);
    }
  }

  lemma {:induction false} CoreSlotsSlots(c: Config, n: nat)
    requires Legal(c) && n <= |c.coreNum|
    ensures AreSlots(c, CoreSlots(c, n)) && Distinct(CoreSlots(c, n))
    ensures forall s :: s in CoreSlots(c, n) <==> s.CoreSlice? && s.core < n && s.index < SliceCount(c)
  {
    assert CORE_START_MEM < c.coreMemEnd;
    hide Legal, SliceCount, SlicesOf, AreSlots, Distinct, IsSlot;
    if n == 0 {
      NoSlots(c);
    } else {
      CoreSlotsSlots(c, n - 1);
      SlicesOfSlots(c, n - 1, SliceCount(c));
      Joined(c, CoreSlots(c, n - 1), SlicesOf(n - 1, SliceCount(c)));
    }
  }

  lemma {:induction false} PartsOfSlots(c: Config, h: nat, i: nat)
    requires Legal(c) && ExtendedOn(c) && h < MAX_HOSTS && i <= 16
    ensures AreSlots(c, PartsOf(h, i)) && Distinct(PartsOf(h, i))
    ensures forall s :: s in PartsOf(h, i) <==> s.HostRange? && s.host == h && 1 <= s.part < i
  {
    hide Legal;
    if i > 1 {
      PartsOfSlots(c, h, i - 1);
    }
  }

  lemma {:induction false} HostSlotsSlots(c: Config, h: nat)
    requires Legal(c) && ExtendedOn(c) && h <= MAX_HOSTS
    ensures AreSlots(c, HostSlots(h)) && Distinct(HostSlots(h))
    ensures forall s :: s in HostSlots(h) <==> s.HostRange? && s.host < h && 1 <= s.part < 16
  {
    hide Legal, PartsOf;
    if h > 0 {
      HostSlotsSlots(c, h - 1);
      PartsOfSlots(c, h - 1, 16);
      Joined(c, HostSlots(h - 1), PartsOf(h - 1, 16));
    }
  }

  /** Every slot is handed out exactly once. */
  lemma AllSlotsOnce(c: Config)
    requires Legal(c)
    ensures AreSlots(c, AllSlots(c)) && Distinct(AllSlots(c))
    ensures forall s :: IsSlot(c, s) ==> s in AllSlots(c)
  {
    hide Legal, CoreSlots, HostSlots, SliceCount;
    CoreSlotsSlots(c, |c.coreNum|);
    if ExtendedOn(c) {
      HostSlotsSlots(c, MAX_HOSTS);
      Joined(c, CoreSlots(c, |c.coreNum|), HostSlots(MAX_HOSTS));
    }
  }

  // ----- the list of one master

  ghost function RangesOf(c: Config, ch: Choices, slots: seq<Slot>, o: Owner): (r: seq<Range>)
    requires Legal(c) && Allowed(c, ch) && AreSlots(c, slots)
  {
    if slots == [] then []
    else
      var last := |slots| - 1;
      RangesOf(c, ch, slots[..last], o)
      + if GivenAt(c, ch, slots[last]).owner == o then [GivenAt(c, ch, slots[last]).range] else []
  }

  lemma RangesOfMore(c: Config, ch: Choices, slots: seq<Slot>, s: Slot, o: Owner)
    requires Legal(c) && Allowed(c, ch) && AreSlots(c, slots) && IsSlot(c, s)
    ensures RangesOf(c, ch, slots + [s], o)
         == RangesOf(c, ch, slots, o) + if GivenAt(c, ch, s).owner == o then [GivenAt(c, ch, s).range] else []
  {
    assert (slots + [s])[..|slots|] == slots;
  }

  /** The slot behind entry i of a master's list. */
  ghost function SourceOf(c: Config, ch: Choices, slots: seq<Slot>, o: Owner, i: nat): (k: nat)
    requires Legal(c) && Allowed(c, ch) && AreSlots(c, slots) && i < |RangesOf(c, ch, slots, o)|
    ensures k < |slots| && GivenAt(c, ch, slots[k]) == Given(o, RangesOf(c, ch, slots, o)[i])
  {
    var rest := slots[..|slots| - 1];
    if i < |RangesOf(c, ch, rest, o)| then SourceOf(c, ch, rest, o, i) else |slots| - 1
  }

  lemma {:induction false} SourceIncreases(c: Config, ch: Choices, slots: seq<Slot>, o: Owner, i: nat, j: nat)
    requires Legal(c) && Allowed(c, ch) && AreSlots(c, slots) && i < j < |RangesOf(c, ch, slots, o)|
    ensures SourceOf(c, ch, slots, o, i) < SourceOf(c, ch, slots, o, j)
  {
    hide Legal, Allowed, GivenAt;
    var rest := slots[..|slots| - 1];
    if j < |RangesOf(c, ch, rest, o)| {
      SourceIncreases(c, ch, rest, o, i, j);
    }
  }

  /** The ranges in two different places of the lists share no memory. */
  lemma ListsDisjoint(c: Config, ch: Choices, o: Owner, i: nat, p: Owner, j: nat, a: int, b: int)
    requires Legal(c) && Allowed(c, ch) && AreSlots(c, AllSlots(c)) && (o != p || i != j)
    requires i < |RangesOf(c, ch, AllSlots(c), o)| && j < |RangesOf(c, ch, AllSlots(c), p)|
    requires var r := RangesOf(c, ch, AllSlots(c), o)[i]; r.first <= a <= r.second
    requires var r := RangesOf(c, ch, AllSlots(c), p)[j]; r.first <= b <= r.second
    ensures 0 <= a < BASE && 0 <= b < BASE
    ensures (o.CoreMaster? ==> o.core < |c.coreNum|) && (p.CoreMaster? ==> p.core < |c.coreNum|)
    ensures Global(c, o, a) != Global(c, p, b)
  {
    hide Legal, Allowed, GivenAt, RangesOf, Global, AllSlots;
    var slots := AllSlots(c);
    var k, l := SourceOf(c, ch, slots, o, i), SourceOf(c, ch, slots, p, j);
    AllSlotsOnce(c);
    if o == p {
      if i < j {
        SourceIncreases(c, ch, slots, o, i, j);
      } else {
        SourceIncreases(c, ch, slots, o, j, i);
      }
    }
    SlicesDisjoint(c, ch, slots[k], slots[l], a, b);
  }

  // ----- the generator object

  class CoreMemoryMap {
    const c: Config
    var coresRangeList: seq<seq<Range>>
    var hostsRangeList: seq<seq<Range>>

    constructor (c: Config)
      requires Legal(c)
      ensures this.c == c
      ensures coresRangeList == seq(|c.coreNum|, _ => []) && hostsRangeList == seq(MAX_HOSTS, _ => [])
    {
      this.c := c;
      coresRangeList := seq(|c.coreNum|, _ => []);
      hostsRangeList := seq(MAX_HOSTS, _ => []);
    }

    /** The lists hold what the slots so far were given. */
    ghost predicate HoldsFor(ch: Choices, slots: seq<Slot>)
      reads this
      requires Legal(c) && Allowed(c, ch) && AreSlots(c, slots)
    {
      && |coresRangeList| == |c.coreNum| && |hostsRangeList| == MAX_HOSTS
      && (forall m :: 0 <= m < |c.coreNum| ==> coresRangeList[m] == RangesOf(c, ch, slots, CoreMaster(m)))
      && (forall h :: 0 <= h < MAX_HOSTS ==> hostsRangeList[h] == RangesOf(c, ch, slots, HostMaster(h)))
    }

    method PushCore(m: nat, range: Range)
      requires m < |coresRangeList|
      modifies `coresRangeList
      ensures coresRangeList == old(coresRangeList)[m := old(coresRangeList)[m] + [range]]
    {
      coresRangeList := coresRangeList[m := coresRangeList[m] + [range]];
    }

    method PushHost(h: nat, range: Range)
      requires h < |hostsRangeList|
      modifies `hostsRangeList
      ensures hostsRangeList == old(hostsRangeList)[h := old(hostsRangeList)[h] + [range]]
    {
      hostsRangeList := hostsRangeList[h := hostsRangeList[h] + [range]];
    }

    /** One slice of one core: who becomes its master, and under which addresses. */
    method DistributeSlice(n: nat, k: nat, i: int, x: Choice, ghost ch: Choices, ghost slots: seq<Slot>)
      requires Legal(c) && Allowed(c, ch) && AreSlots(c, slots)
      requires IsSlot(c, CoreSlice(n, k)) && i == SliceStart(k) && x == ch.slice(n, k)
      requires HoldsFor(ch, slots)
      modifies this
      ensures HoldsFor(ch, slots + [CoreSlice(n, k)])
    {
      hide RangesOf, Compose, SliceStart, SliceCount, Chip, Core;
      SliceBounds(c, k);
      var isExternal := x.external;
      if c.internalOnly {
        isExternal := false;
      }
      var masterId, isOffChip := n, false;
      if isExternal {
        masterId := x.master;
        isOffChip := x.offChip && !c.hostOff;
      }
      var full := i;
      if c.internalOnly || (n == masterId && !isOffChip) {
        if x.mapInt2Ext && !c.internalOnly {
          full := Compose(c.chipId, c.coreNum[n], i);
        }
      } else {
        full := Compose(c.chipId, c.coreNum[n], i);
      }
      FullSpan(c.chipId, c.coreNum[n], i);
      var range := Range(full, full + CORE_SLICE_SIZE - 1);
      if !isOffChip || c.internalOnly || (c.chipExtOff && c.hostMasterOff) {
        PushCore(masterId, range);
      } else {
        var allowExternal := x.allowExternal;
        if c.chipExtOff {
          allowExternal := false;
        }
        if c.hostMasterOff {
          allowExternal := true;
        }
        var hostGen := x.host;
        if |c.coreNum| <= 2 {
          hostGen := WEST;
        }
        if allowExternal {
          range := Range(WithChip(range.first, HostChip(c, hostGen)), WithChip(range.second, HostChip(c, hostGen)));
          PushCore(n, range);
        } else {
          PushHost(hostGen, range);
        }
      }
      forall o ensures RangesOf(c, ch, slots + [CoreSlice(n, k)], o)
         == RangesOf(c, ch, slots, o)
            + if GivenAt(c, ch, CoreSlice(n, k)).owner == o then [GivenAt(c, ch, CoreSlice(n, k)).range] else []
      {
        RangesOfMore(c, ch, slots, CoreSlice(n, k), o);
      }
    }

    /** All slices of all cores. */
    method DistributeCores(ch: Choices)
      requires Legal(c) && Allowed(c, ch) && HoldsFor(ch, [])
      modifies this
      ensures AreSlots(c, CoreSlots(c, |c.coreNum|)) && HoldsFor(ch, CoreSlots(c, |c.coreNum|))
    {
      hide RangesOf, Allowed;
      var n := 0;
      while n < |c.coreNum|
        invariant 0 <= n <= |c.coreNum|
        invariant AreSlots(c, CoreSlots(c, n)) && HoldsFor(ch, CoreSlots(c, n))
      {
        var i := CORE_START_MEM;
        ghost var k := 0;
        assert CoreSlots(c, n) + SlicesOf(n, 0) == CoreSlots(c, n);
        while i < c.coreMemEnd
          invariant 0 <= k <= SliceCount(c) && i == SliceStart(k) && (i < c.coreMemEnd <==> k < SliceCount(c))
          invariant AreSlots(c, CoreSlots(c, n) + SlicesOf(n, k)) && HoldsFor(ch, CoreSlots(c, n) + SlicesOf(n, k))
          decreases c.coreMemEnd - i
        {
          var index := (i - CORE_START_MEM) / CORE_SLICE_SIZE;
          assert index == k;
          DistributeSlice(n, index, i, ch.slice(n, index), ch, CoreSlots(c, n) + SlicesOf(n, k));
          assert CoreSlots(c, n) + SlicesOf(n, k) + [CoreSlice(n, k)] == CoreSlots(c, n) + SlicesOf(n, k + 1);
          i := i + CORE_SLICE_SIZE;
          k := k + 1;
        }
        n := n + 1;
      }
    }

    /** The extended ranges beside every host's first one. */
    method DistributeHosts(ch: Choices)
      requires Legal(c) && Allowed(c, ch) && ExtendedOn(c)
      requires AreSlots(c, CoreSlots(c, |c.coreNum|)) && HoldsFor(ch, CoreSlots(c, |c.coreNum|))
      modifies this
      ensures AreSlots(c, AllSlots(c)) && HoldsFor(ch, AllSlots(c))
    {
      hide RangesOf, Legal, CoreSlots, AreSlots, HoldsFor, PartsOf, Allowed;
      ghost var s0 := CoreSlots(c, |c.coreNum|);
      var h := 0;
      assert s0 + HostSlots(0) == s0;
      while h < MAX_HOSTS
        invariant 0 <= h <= MAX_HOSTS
        invariant AreSlots(c, s0 + HostSlots(h)) && HoldsFor(ch, s0 + HostSlots(h))
      {
        DistributeHost(h, ch, s0 + HostSlots(h));
        assert s0 + HostSlots(h) + PartsOf(h, 16) == s0 + HostSlots(h + 1);
        h := h + 1;
      }
    }

    method DistributeHost(h: nat, ch: Choices, ghost slots: seq<Slot>)
      requires Legal(c) && Allowed(c, ch) && ExtendedOn(c) && h < MAX_HOSTS
      requires AreSlots(c, slots) && HoldsFor(ch, slots)
      modifies this
      ensures AreSlots(c, slots + PartsOf(h, 16)) && HoldsFor(ch, slots + PartsOf(h, 16))
    {
      hide RangesOf, Legal, AreSlots, HoldsFor, Allowed;
      var i := 1;
      assert slots + PartsOf(h, 1) == slots;
      while i < 16
        invariant 1 <= i <= 16
        invariant AreSlots(c, slots + PartsOf(h, i)) && HoldsFor(ch, slots + PartsOf(h, i))
      {
        DistributePart(h, i, ch.ext(h, i), ch, slots + PartsOf(h, i));
        assert slots + PartsOf(h, i) + [HostRange(h, i)] == slots + PartsOf(h, i + 1);
        i := i + 1;
      }
    }

    method DistributePart(h: nat, i: nat, x: ExtChoice, ghost ch: Choices, ghost slots: seq<Slot>)
      requires Legal(c) && Allowed(c, ch) && AreSlots(c, slots)
      requires IsSlot(c, HostRange(h, i)) && x == ch.ext(h, i)
      requires HoldsFor(ch, slots)
      modifies this
      ensures AreSlots(c, slots + [HostRange(h, i)]) && HoldsFor(ch, slots + [HostRange(h, i)])
    {
      hide RangesOf, Compose, Chip, Core;
      var full := Compose(HostChip(c, h), 9 * h, HOST_SLICE_SIZE * i);
      var range := Range(full, full + HOST_SLICE_SIZE - 1);
      if c.hostMasterOff || x.forCore {
        PushCore(x.core, range);
      } else {
        PushHost(x.host, range);
      }
      forall o ensures RangesOf(c, ch, slots + [HostRange(h, i)], o)
         == RangesOf(c, ch, slots, o)
            + if GivenAt(c, ch, HostRange(h, i)).owner == o then [GivenAt(c, ch, HostRange(h, i)).range] else []
      {
        RangesOfMore(c, ch, slots, HostRange(h, i), o);
      }
    }

    /** The whole map: every list is exactly what its master was given. */
    method GenerateMap(ch: Choices)
      requires Legal(c) && Allowed(c, ch)
      requires coresRangeList == seq(|c.coreNum|, _ => []) && hostsRangeList == seq(MAX_HOSTS, _ => [])
      modifies this
      ensures AreSlots(c, AllSlots(c)) && HoldsFor(ch, AllSlots(c))
    {
      DistributeCores(ch);
      if c.extendHostSpace && !c.internalOnly && |c.coreNum| > 2 && !c.chipExtOff && !c.hostOff {
        DistributeHosts(ch);
      } else {
        assert AllSlots(c) == CoreSlots(c, |c.coreNum|);
      }
    }
  }

  /** A slice does not leave the word. */
  lemma FullSpan(chip: int, core: int, start: int)
    requires 0 <= chip < 64 && 0 <= core < 64 && 0 <= start && start + CORE_SLICE_SIZE <= 0x8000
    ensures 0 <= Compose(chip, core, start) && Compose(chip, core, start) + CORE_SLICE_SIZE - 1 < BASE
  {
    ComposeAdd(chip, core, start, CORE_SLICE_SIZE - 1);
  }
}
