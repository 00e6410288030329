/** The random host traffic on the map (mgen/main.cpp:754-920) and its transaction file. */
module HostTraffic {
  import opened Accesses
  import opened Words
  import opened Ranges
  import opened ChipAddress
  import opened HostMap
  import opened HostLists
  import DriverQueue

  // ----- one burst

  /** What the burst generator chooses for a slice first..second. */
  datatype Burst = Burst(addr: int, dataSize: Size, length: nat, sameAddr: bool)

  predicate BurstAllowed(b: Burst, first: int, second: int) {
    first <= b.addr < second && 1 <= b.length <= 64 && b.length < second - b.addr
  }

  /** Destination of transaction i of a burst. */
  function BurstAddr(b: Burst, i: nat): int
  {
    var n := BytesOf(b.dataSize);
    (b.addr / n) * n + if b.sameAddr then 0 else i * n
  }

  /** The generator's range assertion holds, and so does more: the whole access is inside
      the slice, at an aligned address. */
  lemma BurstInside(b: Burst, first: int, second: int, i: nat)
    requires BurstAllowed(b, first, second) && first % 8 == 0 && i < b.length / BytesOf(b.dataSize)
    ensures var n, a := BytesOf(b.dataSize), BurstAddr(b, i);
            first <= a && a + n <= second && a % n == 0
  {
    hide BytesOf;
    var n := BytesOf(b.dataSize);
    Quotient(b.addr, n);
    Quotient(b.length, n);
    var q, l := b.addr / n, b.length / n;
    FirstBelow(first, q, n);
    BurstEnds(b.addr, b.length, q, l, i, n);
    MulModZero(q, n);
    MulModZero(q + i, n);
  }

  /** Some access of the burst moves the byte. */
  ghost predicate InBurst(b: Burst, a: int) {
    exists i: nat :: i < BurstCount(b) && BurstAddr(b, i) <= a < BurstAddr(b, i) + BytesOf(b.dataSize)
  }

  /** A burst starts at its address, aligned, and moves as many whole accesses as fit its
      length, one behind the other or all to the same place. */
  lemma BurstCovers(b: Burst)
    ensures var n, start, count := BytesOf(b.dataSize), BurstAddr(b, 0), BurstCount(b);
            && start % n == 0 && start <= b.addr < start + n && b.length - n < count * n <= b.length
            && (b.sameAddr ==> forall i: nat :: BurstAddr(b, i) == start)
            && (!b.sameAddr ==>
                  forall a: int :: InBurst(b, a) <==> start <= a < start + count * n)
  {
    hide BytesOf;
    var n, start, count := BytesOf(b.dataSize), BurstAddr(b, 0), BurstCount(b);
    Quotient(b.addr, n);
    Quotient(b.length, n);
    MulModZero(b.addr / n, n);
    if !b.sameAddr {
      forall a: int
        ensures InBurst(b, a) <==> start <= a < start + count * n
      {
        if i: nat :| i < count && BurstAddr(b, i) <= a < BurstAddr(b, i) + n {
          MulLe(0, i, n);
          MulLe(i + 1, count, n);
          MulDistrib(i, 1, n);
        }
        if start <= a < start + count * n {
          var i := (a - start) / n;
          DivModDef(a - start, n);
          MulLtCancel(i, count, n);
          assert BurstAddr(b, i) <= a < BurstAddr(b, i) + n;
        }
      }
    }
  }

  lemma Quotient(a: int, n: int)
    requires n == 1 || n == 2 || n == 4 || n == 8
    ensures (a / n) * n <= a < (a / n) * n + n
  {
  }

  lemma FirstBelow(first: int, q: int, n: int)
    requires first % 8 == 0 && (n == 1 || n == 2 || n == 4 || n == 8) && first < q * n + n
    ensures first <= q * n
  {
    var e := first / 8;
    var m := if n == 1 then 8 else if n == 2 then 4 else if n == 4 then 2 else 1;
    MulAssoc(e, m, n);
    MulDistrib(q, 1, n);
    MulLtCancel(e * m, q + 1, n);
    MulLe(e * m, q, n);
  }

  lemma BurstEnds(addr: int, length: int, q: int, l: int, i: int, n: int)
    requires q * n <= addr && l * n <= length && 0 <= i < l && 0 < n
    ensures q * n + i * n + n <= addr + length && q * n + n <= addr + length && q * n + i * n == (q + i) * n
    ensures 0 <= i * n
  {
    MulOrder(i + 1, l, n);
    MulOrder(1, l, n);
  }

  lemma MulModZero(q: int, n: int)
    requires n == 1 || n == 2 || n == 4 || n == 8
    ensures q * n % n == 0
  {
    DivModUnique(q * n, n, q, 0);
  }

  lemma MulOrder(i: int, j: int, n: int)
    requires i <= j && n > 0
    ensures i * n <= j * n
  {
  }

  // ----- one transaction

  /** The bytes of the 64-bit data that a transaction of this size carries. */
  function TranBytes(hi: Word, lo: Word, n: nat): (r: seq<Byte>)
    requires n <= 8
    ensures |r| == n && forall k :: 0 <= k < n ==> r[k] == ByteOf(hi, lo, k)
  {
    seq(n, k requires 0 <= k < n => ByteOf(hi, lo, k))
  }

  /** A transaction inside a slot of the host is as the prediction needs it. */
  lemma TranFits(c: Config, ch: Choices, s: Slot, h: int, t: HostSchedule.Tran)
    requires Legal(c) && Allowed(c, ch) && IsSlot(c, s) && h >= 0 && GivenAt(c, ch, s).owner == HostMaster(h)
    requires var r := GivenAt(c, ch, s).range; r.first <= t.dst && t.dst + |t.data| <= r.second + 1
    ensures HostSchedule.Fits(PlanOf(c, ch), h, t)
  {
    hide GivenAt, Legal, Copy;
    var p := PlanOf(c, ch);
    forall a | HostSchedule.In(a, t.dst, |t.data|)
      ensures p.own(h, a) && p.copy(h, a) == p.copy(h, t.dst) + (a - t.dst)
    {
      assert OwnedIn(c, ch, s, h, a) && OwnedIn(c, ch, s, h, t.dst);
      CopyMoves(c, ch, s, h, t.dst, a);
    }
  }

  /** Copies of addresses of one slot are as far apart as the addresses. */
  lemma CopyMoves(c: Config, ch: Choices, s: Slot, h: int, a: int, b: int)
    requires OwnedIn(c, ch, s, h, a) && OwnedIn(c, ch, s, h, b) && a <= b
    ensures 0 <= h < MAX_HOSTS && 0 <= a < BASE && 0 <= b < BASE
    ensures Copy(c, h, b) == Copy(c, h, a) + (b - a)
  {
    hide GivenAt, Compose, Core, Chip, Holds;
    OwnedIsHost(c, ch, s, h, a);
    OwnedIsHost(c, ch, s, h, b);
    GivenInSlot(c, ch, s, a);
    GivenInSlot(c, ch, s, b);
    ComposeFields(a);
    ComposeFields(b);
    SameCore(Chip(a), Core(a), Offset(a), Offset(b));
    SameCore(HostChip(c, h), Core(a), Offset(a), Offset(b));
  }

  lemma SameCore(chip: int, core: int, x: int, y: int)
    requires 0 <= chip < 64 && 0 <= core < 64 && 0 <= x < 0x10_0000 && 0 <= y < 0x10_0000
    ensures Compose(chip, core, y) - Compose(chip, core, x) == y - x
  {
  }

  /** Ranges given to hosts start at aligned addresses. */
  lemma HostRangeAligned(c: Config, ch: Choices, s: Slot)
    requires Legal(c) && Allowed(c, ch) && IsSlot(c, s) && GivenAt(c, ch, s).owner.HostMaster?
    ensures GivenAt(c, ch, s).range.first % 8 == 0
  {
    hide Core, Chip, Compose;
    match s
    case CoreSlice(n, k) =>
      SliceBounds(c, k);
      ComposeAligned(c.chipId, c.coreNum[n], SliceStart(k));
    case HostRange(h, i) =>
      ComposeAligned(HostChip(c, h), 9 * h, HOST_SLICE_SIZE * i);
  }

  lemma ComposeAligned(chip: int, core: int, x: int)
    requires 0 <= chip < 64 && 0 <= core < 64 && 0 <= x < 0x10_0000 && x % 8 == 0
    ensures Compose(chip, core, x) % 8 == 0
  {
    hide Compose, Chip, Core;
    EighthOf(Compose(chip, core, x));
  }

  lemma EighthOf(a: int)
    requires (a % 0x10_0000) % 8 == 0
    ensures a % 8 == 0
  {
    assert a == 8 * (0x2_0000 * (a / 0x10_0000)) + a % 0x10_0000;
  }

  // ----- the transaction file

  /** One generated access of a host. */
  datatype Access = Access(isWrite: bool, dst: Word, dataSize: Size, hi: Word, lo: Word, delay: nat)

  function TranOf(x: Access): HostSchedule.Tran
  {
    HostSchedule.Tran(x.isWrite, x.dst, TranBytes(x.hi, x.lo, BytesOf(x.dataSize)))
  }

  /** The line written for an access, as the driver reads it in. */
  function Pack(src: Word, x: Access): DriverQueue.Entry {
    DriverQueue.Entry(if x.isWrite then x.hi else src, if x.isWrite then x.lo else 0, x.dst,
                      DriverQueue.REGULAR_CTRL_MODE, 4 * x.dataSize + (if x.isWrite then 1 else 2), x.delay, false)
  }

  /** The driver signs off every packed write, and its sign-off is the line of the read
      that brings the same bytes back to this host's copy. */
  lemma PackedWriteSignedOff(c: Config, ch: Choices, s: Slot, h: int, x: Access, hostBase: Word, chipBase: Word)
    requires OwnedIn(c, ch, s, h, x.dst) && x.isWrite
    requires 0 <= h < MAX_HOSTS && Chip(chipBase) == c.chipId && Chip(hostBase) == HostChip(c, h)
    ensures DriverQueue.IsSignedOff(Pack(Copy(c, h, x.dst), x), chipBase)
    ensures var e := DriverQueue.SignOff(Pack(Copy(c, h, x.dst), x), hostBase);
            e.(data := 0) == Pack(Copy(c, h, x.dst), x.(isWrite := false))
    ensures forall k :: 0 <= k < BytesOf(x.dataSize) ==>
              var e := Pack(Copy(c, h, x.dst), x);
              ByteOf(e.srcAddr, e.data, k) == TranOf(x).data[k]
  {
    hide GivenAt, Holds, Compose, Core, Chip, ByteOf;
    GivenInSlot(c, ch, s, x.dst);
    if s.CoreSlice? {
      SliceBounds(c, s.index);
    }
  }

  // ----- the generator's loops

  /** The choices for one burst on range rInd of the host. */
  datatype Draw = Draw(rInd: nat, burst: Burst, writes: int -> bool, data: int -> (Word, Word), delays: int -> nat)

  ghost predicate DrawAllowed(d: Draw, ranges: seq<Range>) {
    d.rInd < |ranges| && BurstAllowed(d.burst, ranges[d.rInd].first, ranges[d.rInd].second)
  }

  /** Access i of a burst; the address is a 32-bit sum. */
  function AccessOf(d: Draw, i: nat): Access {
    Access(d.writes(i), BurstAddr(d.burst, i) % BASE, d.burst.dataSize, d.data(i).0, d.data(i).1, d.delays(i))
  }

  function BurstCount(b: Burst): nat {
    b.length / BytesOf(b.dataSize)
  }

  function BurstAccesses(d: Draw, n: nat): (r: seq<Access>)
    ensures |r| == n && forall i :: 0 <= i < n ==> r[i] == AccessOf(d, i)
  {
    seq(n, i requires 0 <= i < n => AccessOf(d, i))
  }

  function AllAccesses(draws: seq<Draw>): seq<Access> {
    if draws == [] then []
    else
      var d := draws[|draws| - 1];
      AllAccesses(draws[..|draws| - 1]) + BurstAccesses(d, BurstCount(d.burst))
  }

  /** The access is number i of the burst, with the kind, data and delay drawn for it. */
  predicate IsDrawn(x: Access, d: Draw, i: nat) {
    && x.isWrite == d.writes(i) && x.dst == BurstAddr(d.burst, i) % BASE && x.dataSize == d.burst.dataSize
    && (x.hi, x.lo) == d.data(i) && x.delay == d.delays(i)
  }

  lemma AccessDrawn(d: Draw, i: nat)
    ensures IsDrawn(AccessOf(d, i), d, i)
  {
  }

  /** The accesses of every burst are there, in order, behind those of the bursts before,
      and no others. */
  lemma {:induction false} AllAccessesAre(draws: seq<Draw>, k: nat, i: nat)
    requires k < |draws| && i < BurstCount(draws[k].burst)
    ensures var before, upTo := |AllAccesses(draws[..k])|, |AllAccesses(draws[..k + 1])|;
            && upTo == before + BurstCount(draws[k].burst) <= |AllAccesses(draws)|
            && IsDrawn(AllAccesses(draws)[before + i], draws[k], i)
  {
    hide IsDrawn, AccessOf;
    var n := |draws| - 1;
    if k < n {
      AllAccessesAre(draws[..n], k, i);
      assert draws[..n][..k] == draws[..k] && draws[..n][..k + 1] == draws[..k + 1];
    } else {
      assert draws[..k + 1] == draws;
      AccessDrawn(draws[k], i);
    }
  }

  function Trans(xs: seq<Access>): (r: seq<HostSchedule.Tran>)
    ensures |r| == |xs| && forall k :: 0 <= k < |xs| ==> r[k] == TranOf(xs[k])
  {
    seq(|xs|, k requires 0 <= k < |xs| => TranOf(xs[k]))
  }

  /** The access stays in a range the host was given. */
  ghost predicate Inside(c: Config, ch: Choices, h: nat, x: Access)
    requires Legal(c)
  {
    HostSchedule.Fits(PlanOf(c, ch), h, TranOf(x)) && exists s :: OwnedIn(c, ch, s, h, x.dst)
  }

  /** Every access is inside, has its line in the file, and is in the expected data. */
  ghost predicate Generated(c: Config, ch: Choices, h: nat, xs: seq<Access>, file: seq<DriverQueue.Entry>,
                            before: map<int, Byte>, e: map<int, Byte>)
    requires Legal(c) && h < MAX_HOSTS
  {
    && |file| == |xs|
    && (forall k :: 0 <= k < |xs| ==> Inside(c, ch, h, xs[k]))
    && (forall k :: 0 <= k < |xs| ==> file[k] == Pack(Copy(c, h, xs[k].dst), xs[k]))
    && e == HostSchedule.PredictStream(PlanOf(c, ch), before, h, Trans(xs))
  }

  /** An access of an allowed burst stays in its range. */
  lemma AccessInside(c: Config, ch: Choices, h: nat, ranges: seq<Range>, d: Draw, i: nat)
    requires Legal(c) && Allowed(c, ch) && AreSlots(c, AllSlots(c)) && h < MAX_HOSTS
    requires ranges == RangesOf(c, ch, AllSlots(c), HostMaster(h))
    requires DrawAllowed(d, ranges) && i < BurstCount(d.burst)
    ensures Inside(c, ch, h, AccessOf(d, i))
  {
    hide Legal, GivenAt, RangesOf, AllSlots, BurstAddr, HostSchedule.Fits;
    var k := SourceOf(c, ch, AllSlots(c), HostMaster(h), d.rInd);
    var s := AllSlots(c)[k];
    var r := ranges[d.rInd];
    HostRangeAligned(c, ch, s);
    BurstInside(d.burst, r.first, r.second, i);
    assert OwnedIn(c, ch, s, h, BurstAddr(d.burst, i));
    OwnedIsHost(c, ch, s, h, BurstAddr(d.burst, i));
    TranFits(c, ch, s, h, TranOf(AccessOf(d, i)));
  }

  lemma GeneratedMore(c: Config, ch: Choices, h: nat, xs: seq<Access>, file: seq<DriverQueue.Entry>,
                      before: map<int, Byte>, e: map<int, Byte>, x: Access)
    requires Legal(c) && h < MAX_HOSTS && Generated(c, ch, h, xs, file, before, e) && Inside(c, ch, h, x)
    ensures Generated(c, ch, h, xs + [x], file + [Pack(Copy(c, h, x.dst), x)], before,
                      HostSchedule.PredictTran(PlanOf(c, ch), e, h, TranOf(x)))
  {
    hide Legal, Inside, Copy, HostSchedule.PredictTran;
    var t := Trans(xs + [x]);
    assert t[..|t| - 1] == Trans(xs);
  }

  class HostGenerator {
    const c: Config
    var file: seq<DriverQueue.Entry>
    const expected: HostSchedule.ExpectedData

    constructor (c: Config, expected: HostSchedule.ExpectedData)
      ensures this.c == c && this.expected == expected && file == []
    {
      this.c, this.expected, file := c, expected, [];
    }

    /** One burst: a line and expected bytes for every access. */
    method GenerateBurst(h: nat, d: Draw, ghost ch: Choices, ranges: seq<Range>,
                         ghost xs: seq<Access>, ghost before: map<int, Byte>)
      requires Legal(c) && Allowed(c, ch) && AreSlots(c, AllSlots(c)) && h < MAX_HOSTS
      requires ranges == RangesOf(c, ch, AllSlots(c), HostMaster(h)) && DrawAllowed(d, ranges)
      requires Generated(c, ch, h, xs, file, before, expected.expData)
      modifies this, expected
      ensures Generated(c, ch, h, xs + BurstAccesses(d, BurstCount(d.burst)), file, before, expected.expData)
    {
      hide Legal, Generated, Inside, AllSlots, RangesOf, AreSlots, Copy;
      var n := BytesOf(d.burst.dataSize);
      var i := 0;
      assert xs + BurstAccesses(d, 0) == xs;
      while i < d.burst.length / n
        invariant 0 <= i <= d.burst.length / n
        invariant Generated(c, ch, h, xs + BurstAccesses(d, i), file, before, expected.expData)
      {
        var dst := (d.burst.addr / n) * n;
        if !d.burst.sameAddr {
          dst := dst + i * n;
        }
        dst := dst % BASE;
        var src := Copy(c, h, dst);
        var x := Access(d.writes(i), dst, d.burst.dataSize, d.data(i).0, d.data(i).1, d.delays(i));
        AccessInside(c, ch, h, ranges, d, i);
        GeneratedMore(c, ch, h, xs + BurstAccesses(d, i), file, before, expected.expData, x);
        file := file + [Pack(src, x)];
        expected.Enter(TranOf(x), src);
        assert xs + BurstAccesses(d, i) + [x] == xs + BurstAccesses(d, i + 1);
        i := i + 1;
      }
    }

    /** All bursts of one host. */
    method GenerateHost(h: nat, ghost ch: Choices, ranges: seq<Range>, draws: seq<Draw>)
      requires Legal(c) && Allowed(c, ch) && AreSlots(c, AllSlots(c)) && h < MAX_HOSTS
      requires ranges == RangesOf(c, ch, AllSlots(c), HostMaster(h))
      requires forall k :: 0 <= k < |draws| ==> DrawAllowed(draws[k], ranges)
      modifies this, expected
      ensures Generated(c, ch, h, AllAccesses(draws), file, old(expected.expData), expected.expData)
    {
      hide Inside, AllSlots, RangesOf, AreSlots, Copy, Allowed, BurstAccesses;
      ghost var before := expected.expData;
      file := [];
      var k := 0;
      while k < |draws|
        invariant 0 <= k <= |draws|
        invariant Generated(c, ch, h, AllAccesses(draws[..k]), file, before, expected.expData)
      {
        GenerateBurst(h, draws[k], ch, ranges, AllAccesses(draws[..k]), before);
        assert draws[..k + 1][..k] == draws[..k];
        k := k + 1;
      }
      assert draws[..k] == draws;
    }
  }

  // ----- the end-to-end statement

  /** The streams of all hosts for the given draws. */
  function Streams(draws: seq<seq<Draw>>): (r: seq<seq<HostSchedule.Tran>>)
    ensures |r| == |draws| && forall h :: 0 <= h < |draws| ==> r[h] == Trans(AllAccesses(draws[h]))
  {
    seq(|draws|, h requires 0 <= h < |draws| => Trans(AllAccesses(draws[h])))
  }

  ghost predicate AllGenerated(c: Config, ch: Choices, draws: seq<seq<Draw>>, files: seq<seq<DriverQueue.Entry>>,
                               tables: seq<map<int, Byte>>)
    requires Legal(c)
  {
    && |draws| == |files| == MAX_HOSTS && |tables| == MAX_HOSTS + 1 && tables[0] == map[]
    && forall h :: 0 <= h < MAX_HOSTS ==> Generated(c, ch, h, AllAccesses(draws[h]), files[h], tables[h], tables[h + 1])
  }

  lemma {:induction false} TablesArePrediction(c: Config, ch: Choices, draws: seq<seq<Draw>>,
      files: seq<seq<DriverQueue.Entry>>, tables: seq<map<int, Byte>>, hosts: nat)
    requires Legal(c) && AllGenerated(c, ch, draws, files, tables) && hosts <= MAX_HOSTS
    ensures tables[hosts] == HostSchedule.Predict(PlanOf(c, ch), Streams(draws), hosts)
  {
    hide Legal, Inside, Copy;
    if hosts > 0 {
      TablesArePrediction(c, ch, draws, files, tables, hosts - 1);
      assert Generated(c, ch, hosts - 1, AllAccesses(draws[hosts - 1]), files[hosts - 1], tables[hosts - 1],
                       tables[hosts]);
    }
  }

  /** Whatever the random choices and whatever the interleaving of the hosts and of their
      sign-off reads, memory ends with every byte of the expected-data table. */
  lemma GeneratedPredictionHolds(c: Config, ch: Choices, draws: seq<seq<Draw>>, files: seq<seq<DriverQueue.Entry>>,
      tables: seq<map<int, Byte>>, m: HostSchedule.Memory, sched: seq<int>, signOff: seq<int>)
    requires Legal(c) && AllGenerated(c, ch, draws, files, tables)
    requires HostSchedule.Complete(Streams(draws), sched)
    requires HostSchedule.Complete(HostSchedule.SignOffStreams(Streams(draws)), signOff)
    ensures forall x :: x in tables[MAX_HOSTS] ==>
              HostSchedule.Execute(PlanOf(c, ch), HostSchedule.Execute(PlanOf(c, ch), m, Streams(draws), sched),
                                   HostSchedule.SignOffStreams(Streams(draws)), signOff)(x) == tables[MAX_HOSTS][x]
  {
    hide Legal, Copy, HostSchedule.Execute, HostSchedule.Exclusive, HostSchedule.Fits, HostSchedule.Predict,
        HostSchedule.SignOffStreams,
      HostSchedule.Complete;
    PlanExclusive(c, ch);
    TablesArePrediction(c, ch, draws, files, tables, MAX_HOSTS);
    var streams := Streams(draws);
    forall h, k | 0 <= h < MAX_HOSTS && 0 <= k < |streams[h]|
      ensures HostSchedule.Fits(PlanOf(c, ch), h, streams[h][k])
    {
      assert Generated(c, ch, h, AllAccesses(draws[h]), files[h], tables[h], tables[h + 1]);
      assert Inside(c, ch, h, AllAccesses(draws[h])[k]);
    }
    HostSchedule.PredictionHolds(PlanOf(c, ch), m, streams, sched, signOff);
  }
}
