/** The host driver at work on a generated transaction file: what it drives, whatever the
    chip asks of it meanwhile, is the file and then the sign-off reads that the prediction
    of final memory assumes (mgen/main.cpp:1075-1122, epiphany_models/stimulus.h:241-305). */
module HostDriving {
  import opened Accesses
  import opened ChipAddress
  import opened HostMap
  import opened HostTraffic
  import opened Words
  import DQ = DriverQueue

  // ----- what goes through the queue

  /** The entries added by a sequence of events. */
  function Adds(evs: seq<DQ.Event>): seq<DQ.Entry> {
    if evs == [] then []
    else Adds(evs[..|evs| - 1]) + if evs[|evs| - 1].Add? then [evs[|evs| - 1].e] else []
  }

  /** Lines are read in, the chip's reads are answered, and entries are driven. */
  ghost predicate Feeding(evs: seq<DQ.Event>) {
    forall i :: 0 <= i < |evs| ==> DQ.Possible(evs[i]) && !evs[i].Dispatch?
  }

  /** No more lines. */
  ghost predicate Driving(evs: seq<DQ.Event>) {
    forall i :: 0 <= i < |evs| ==> DQ.Possible(evs[i]) && !evs[i].Dispatch? && !evs[i].Add?
  }

  /** At most answers to the chip are left to drive. */
  ghost predicate Drained(h: DQ.History) {
    DQ.Select(h.queue, false) == []
  }

  lemma {:induction false} FeedingOthers(evs: seq<DQ.Event>, hostBase: Word, chipBase: Word)
    requires Feeding(evs)
    ensures DQ.Run(evs, hostBase, chipBase).others == Adds(evs)
  {
    hide DQ.WithWriteBack, DQ.SignOff, DQ.IsSignedOff;
    if evs != [] {
      FeedingOthers(evs[..|evs| - 1], hostBase, chipBase);
    }
  }

  lemma {:induction false} DrivingOthers(a: seq<DQ.Event>, b: seq<DQ.Event>, hostBase: Word, chipBase: Word)
    requires Driving(b)
    ensures DQ.Run(a + b, hostBase, chipBase).others == DQ.Run(a, hostBase, chipBase).others
  {
    hide DQ.WithWriteBack, DQ.SignOff, DQ.IsSignedOff;
    if b == [] {
      assert a + b == a;
    } else {
      assert (a + b)[..|a + b| - 1] == a + b[..|b| - 1];
      DrivingOthers(a, b[..|b| - 1], hostBase, chipBase);
    }
  }

  /** Answers to the chip are not signed off. */
  lemma {:induction false} SignOffsOfOthers(driven: seq<DQ.Entry>, hostBase: Word, chipBase: Word)
    ensures DQ.SignOffs(driven, hostBase, chipBase) == DQ.SignOffs(DQ.Select(driven, false), hostBase, chipBase)
  {
    hide DQ.SignOff;
    if driven != [] {
      var rest, e := driven[..|driven| - 1], driven[|driven| - 1];
      assert driven == rest + [e];
      SignOffsOfOthers(rest, hostBase, chipBase);
      DQ.SelectConcat(rest, [e], false);
      var own := DQ.Select(rest, false);
      assert DQ.Select([e], false) == if e.isWriteBack then [] else [e];
      if e.isWriteBack {
        assert own + [] == own;
      } else {
        assert (own + [e])[..|own|] == own;
      }
    }
  }

  /** With nothing of its own left in the queue, a host has driven its entries in order. */
  lemma AllDriven(evs: seq<DQ.Event>, hostBase: Word, chipBase: Word)
    requires forall i :: 0 <= i < |evs| ==> DQ.Possible(evs[i])
    requires Drained(DQ.Run(evs, hostBase, chipBase))
    ensures var h := DQ.Run(evs, hostBase, chipBase);
            && DQ.Select(h.driven, false) == h.others
            && h.signoff == DQ.SignOffs(h.others, hostBase, chipBase)
  {
    hide DQ.Disciplined, DQ.Select;
    var h := DQ.Run(evs, hostBase, chipBase);
    DQ.RunDisciplined(evs, hostBase, chipBase);
    DQ.SelectConcat(h.driven, h.queue, false);
    SignOffsOfOthers(h.driven, hostBase, chipBase);
  }

  // ----- the sign-off of a generated file

  /** The accesses that read back what was written. */
  function ReadsOf(xs: seq<Access>): seq<Access> {
    if xs == [] then []
    else
      var x := xs[|xs| - 1];
      ReadsOf(xs[..|xs| - 1]) + if x.isWrite then [x.(isWrite := false)] else []
  }

  lemma {:induction false} ReadsAreSignOffs(xs: seq<Access>)
    ensures Trans(ReadsOf(xs)) == HostSchedule.SignOffReads(Trans(xs))
  {
    if xs != [] {
      var rest, x := xs[..|xs| - 1], xs[|xs| - 1];
      ReadsAreSignOffs(rest);
      assert Trans(xs)[..|xs| - 1] == Trans(rest);
    }
  }

  /** The lines of accesses of host h. */
  ghost predicate Lines(c: Config, ch: Choices, h: nat, xs: seq<Access>, file: seq<DQ.Entry>)
    requires Legal(c) && h < MAX_HOSTS
  {
    && |file| == |xs|
    && forall k :: 0 <= k < |xs| ==> Inside(c, ch, h, xs[k]) && file[k] == Pack(Copy(c, h, xs[k].dst), xs[k])
  }

  /** A line but for the data that a read does not use. */
  predicate IsLineOf(e: DQ.Entry, line: DQ.Entry) {
    e.(data := line.data) == line
  }

  ghost predicate AreReadLines(c: Config, h: nat, s: seq<DQ.Entry>, xs: seq<Access>)
    requires Legal(c) && h < MAX_HOSTS
  {
    |s| == |xs| && forall k :: 0 <= k < |s| ==> IsLineOf(s[k], Pack(Copy(c, h, xs[k].dst), xs[k]))
  }

  /** What the driver notes for sign-off is, line by line, the read of every write. */
  lemma {:induction false} SignOffLines(c: Config, ch: Choices, h: nat, xs: seq<Access>, file: seq<DQ.Entry>,
                                        hostBase: Word, chipBase: Word)
    requires Legal(c) && h < MAX_HOSTS && Lines(c, ch, h, xs, file)
    requires Chip(chipBase) == c.chipId && Chip(hostBase) == HostChip(c, h)
    ensures AreReadLines(c, h, DQ.SignOffs(file, hostBase, chipBase), ReadsOf(xs))
  {
    hide Legal, Inside, Copy, Chip, HostChip, DQ.SignOff, DQ.IsSignedOff;
    if xs != [] {
      var n := |xs| - 1;
      SignOffLines(c, ch, h, xs[..n], file[..n], hostBase, chipBase);
      LineSignedOff(c, ch, h, xs[n], hostBase, chipBase);
    }
  }

  lemma LineSignedOff(c: Config, ch: Choices, h: nat, x: Access, hostBase: Word, chipBase: Word)
    requires Legal(c) && h < MAX_HOSTS && Inside(c, ch, h, x)
    requires Chip(chipBase) == c.chipId && Chip(hostBase) == HostChip(c, h)
    ensures var e := Pack(Copy(c, h, x.dst), x);
            && (DQ.IsSignedOff(e, chipBase) <==> x.isWrite)
            && (x.isWrite ==>
                  IsLineOf(DQ.SignOff(e, hostBase), Pack(Copy(c, h, x.dst), x.(isWrite := false))))
  {
    hide Legal, Copy, Chip, HostChip, HostSchedule.Fits;
    if x.isWrite {
      var s :| OwnedIn(c, ch, s, h, x.dst);
      PackedWriteSignedOff(c, ch, s, h, x, hostBase, chipBase);
    }
  }

  // ----- what a driven entry does

  /** Memory after the chip has carried out an entry: a write stores its bytes, a read
      brings the bytes at its address to where it asks for them. */
  function PerformEntry(m: HostSchedule.Memory, e: DQ.Entry): HostSchedule.Memory
    requires DQ.Drivable(e)
  {
    var n := BytesOf(DQ.SizeDriven(e));
    if DQ.IsWrite(e) then
      (a: int) => if e.dstAddr <= a < e.dstAddr + n then ByteOf(e.srcAddr, e.data, a - e.dstAddr) else m(a)
    else
      (a: int) => if e.srcAddr <= a < e.srcAddr + n then m(e.dstAddr + (a - e.srcAddr)) else m(a)
  }

  /** The entry is the transaction, on the wire. */
  ghost predicate Means(p: HostSchedule.Plan, h: int, e: DQ.Entry, t: HostSchedule.Tran) {
    && DQ.Drivable(e) && BytesOf(DQ.SizeDriven(e)) == |t.data| && e.dstAddr == t.dst
    && (DQ.IsWrite(e) <==> t.isWrite)
    && (if t.isWrite then forall k :: 0 <= k < |t.data| ==> ByteOf(e.srcAddr, e.data, k) == t.data[k]
        else e.srcAddr == p.copy(h, t.dst))
  }

  /** Then it does to memory what the schedule says the transaction does. */
  lemma PerformedAsMeant(p: HostSchedule.Plan, h: int, e: DQ.Entry, t: HostSchedule.Tran, m: HostSchedule.Memory,
                         m': HostSchedule.Memory)
    requires Means(p, h, e, t) && forall a :: m'(a) == m(a)
    ensures forall a :: PerformEntry(m', e)(a) == HostSchedule.Perform(p, m, h, t)(a)
  {
    hide ByteOf;
  }

  /** The line of an access means the access; for a read, whatever data it carries. */
  lemma LineMeans(c: Config, ch: Choices, h: nat, x: Access, e: DQ.Entry)
    requires Legal(c) && h < MAX_HOSTS
    requires var line := Pack(Copy(c, h, x.dst), x); if x.isWrite then e == line else IsLineOf(e, line)
    ensures Means(PlanOf(c, ch), h, e, TranOf(x))
  {
    hide Legal, Copy, ByteOf;
  }

  /** The entries of a queue mean the transactions of a stream, one by one. */
  ghost predicate AllMean(p: HostSchedule.Plan, h: int, q: seq<DQ.Entry>, s: seq<HostSchedule.Tran>) {
    |q| == |s| && forall k :: 0 <= k < |q| ==> Means(p, h, q[k], s[k])
  }

  lemma FileMeans(c: Config, ch: Choices, h: nat, xs: seq<Access>, file: seq<DQ.Entry>)
    requires Legal(c) && h < MAX_HOSTS && Lines(c, ch, h, xs, file)
    ensures AllMean(PlanOf(c, ch), h, file, Trans(xs))
  {
    hide Legal, Copy, Means, Inside;
    forall k | 0 <= k < |file|
      ensures Means(PlanOf(c, ch), h, file[k], Trans(xs)[k])
    {
      LineMeans(c, ch, h, xs[k], file[k]);
    }
  }

  lemma ReadLinesMean(c: Config, ch: Choices, h: nat, xs: seq<Access>, q: seq<DQ.Entry>)
    requires Legal(c) && h < MAX_HOSTS && AreReadLines(c, h, q, ReadsOf(xs))
    ensures AllMean(PlanOf(c, ch), h, q, HostSchedule.SignOffReads(Trans(xs)))
  {
    hide Legal, Copy, Means;
    ReadsAreSignOffs(xs);
    AllReads(xs);
    forall k | 0 <= k < |q|
      ensures Means(PlanOf(c, ch), h, q[k], HostSchedule.SignOffReads(Trans(xs))[k])
    {
      LineMeans(c, ch, h, ReadsOf(xs)[k], q[k]);
    }
  }

  lemma {:induction false} AllReads(xs: seq<Access>)
    ensures forall k :: 0 <= k < |ReadsOf(xs)| ==> !ReadsOf(xs)[k].isWrite
  {
    if xs != [] {
      AllReads(xs[..|xs| - 1]);
    }
  }

  // ----- the whole drive

  /** A host reads in its file and drives it, and after the sign-off is dispatched drives
      on, whatever the chip asks for meanwhile. */
  ghost predicate Driven(c: Config, h: nat, file: seq<DQ.Entry>, first: seq<DQ.Event>, second: seq<DQ.Event>,
                         hostBase: Word, chipBase: Word)
    requires Legal(c) && h < MAX_HOSTS
  {
    && Chip(chipBase) == c.chipId && Chip(hostBase) == HostChip(c, h)
    && Feeding(first) && Adds(first) == file && Driving(second)
    && Drained(DQ.Run(first, hostBase, chipBase))
    && Drained(DQ.Run(first + [DQ.Dispatch] + second, hostBase, chipBase))
  }

  /** All the entries of its own that it has driven. */
  ghost function OwnDriven(first: seq<DQ.Event>, second: seq<DQ.Event>, hostBase: Word, chipBase: Word): seq<DQ.Entry> {
    DQ.Select(DQ.Run(first + [DQ.Dispatch] + second, hostBase, chipBase).driven, false)
  }

  /** Its own entries are, in order, the lines of its accesses, which mean the transactions
      of the prediction, and then entries that mean the prediction's sign-off reads. */
  lemma DrivenIsStream(c: Config, ch: Choices, h: nat, xs: seq<Access>, file: seq<DQ.Entry>, before: map<int, Byte>,
                       e: map<int, Byte>, first: seq<DQ.Event>, second: seq<DQ.Event>, hostBase: Word, chipBase: Word)
    requires Legal(c) && h < MAX_HOSTS && Generated(c, ch, h, xs, file, before, e)
    requires Driven(c, h, file, first, second, hostBase, chipBase)
    ensures var driven := OwnDriven(first, second, hostBase, chipBase);
            && |driven| >= |file| && driven[..|file|] == file
            && AllMean(PlanOf(c, ch), h, driven[..|file|], Trans(xs))
            && AllMean(PlanOf(c, ch), h, driven[|file|..], HostSchedule.SignOffReads(Trans(xs)))
  {
    hide Legal, Inside, Copy, Chip, HostChip, Drained, AreReadLines, DQ.Step, DQ.Select, DQ.SignOffs, AllMean;
    var evs := first + [DQ.Dispatch] + second;
    FeedingOthers(first, hostBase, chipBase);
    AllDriven(first, hostBase, chipBase);
    AllDriven(evs, hostBase, chipBase);
    DrivingOthers(first + [DQ.Dispatch], second, hostBase, chipBase);
    Dispatched(first, hostBase, chipBase);
    SignOffLines(c, ch, h, xs, file, hostBase, chipBase);
    var lines := DQ.SignOffs(file, hostBase, chipBase);
    assert (file + lines)[..|file|] == file && (file + lines)[|file|..] == lines;
    FileMeans(c, ch, h, xs, file);
    ReadLinesMean(c, ch, h, xs, lines);
  }

  lemma Dispatched(first: seq<DQ.Event>, hostBase: Word, chipBase: Word)
    ensures var h := DQ.Run(first, hostBase, chipBase);
            DQ.Run(first + [DQ.Dispatch], hostBase, chipBase).others == h.others + h.signoff
  {
    assert (first + [DQ.Dispatch])[..|first|] == first;
  }

  /** n entries are driven. */
  function Drives(n: nat): (r: seq<DQ.Event>)
    ensures |r| == n && forall i :: 0 <= i < n ==> r[i] == DQ.Drive
  {
    seq(n, _ => DQ.Drive)
  }

  function Additions(file: seq<DQ.Entry>): (r: seq<DQ.Event>)
    ensures |r| == |file| && forall i :: 0 <= i < |file| ==> r[i] == DQ.Add(file[i])
  {
    seq(|file|, i requires 0 <= i < |file| => DQ.Add(file[i]))
  }

  lemma {:induction false} AddsOf(file: seq<DQ.Entry>, n: nat)
    requires n <= |file|
    ensures Adds(Additions(file)[..n]) == file[..n]
  {
    if n > 0 {
      AddsOf(file, n - 1);
      assert Additions(file)[..n][..n - 1] == Additions(file)[..n - 1];
    }
  }

  lemma {:induction false} AddsConcat(a: seq<DQ.Event>, n: nat)
    ensures Adds(a + Drives(n)) == Adds(a)
  {
    if n == 0 {
      assert a + Drives(0) == a;
    } else {
      AddsConcat(a, n - 1);
      assert (a + Drives(n))[..|a| + n - 1] == a + Drives(n - 1);
    }
  }

  /** Driving as many entries as there are empties the queue. */
  lemma {:induction false} DrivesDrain(a: seq<DQ.Event>, n: nat, hostBase: Word, chipBase: Word)
    ensures var q := DQ.Run(a, hostBase, chipBase).queue;
            |DQ.Run(a + Drives(n), hostBase, chipBase).queue| == if n < |q| then |q| - n else 0
  {
    if n == 0 {
      assert a + Drives(0) == a;
    } else {
      DrivesDrain(a, n - 1, hostBase, chipBase);
      assert (a + Drives(n))[..|a| + n - 1] == a + Drives(n - 1);
    }
  }

  /** Any file can be driven to its end, and so can its sign-off. */
  lemma DriveExists(c: Config, h: nat, file: seq<DQ.Entry>, hostBase: Word, chipBase: Word)
    returns (first: seq<DQ.Event>, second: seq<DQ.Event>)
    requires Legal(c) && h < MAX_HOSTS && Chip(chipBase) == c.chipId && Chip(hostBase) == HostChip(c, h)
    requires forall i :: 0 <= i < |file| ==> !file[i].isWriteBack
    ensures Driven(c, h, file, first, second, hostBase, chipBase)
  {
    hide Legal, Chip, HostChip, DQ.Step, DQ.Run, Adds;
    var added := Additions(file);
    AddsOf(file, |file|);
    assert added[..|file|] == added && file[..|file|] == file;
    var n := |DQ.Run(added, hostBase, chipBase).queue|;
    first := added + Drives(n);
    AddsConcat(added, n);
    DrivesDrain(added, n, hostBase, chipBase);
    var rest := |DQ.Run(first + [DQ.Dispatch], hostBase, chipBase).queue|;
    second := Drives(rest);
    DrivesDrain(first + [DQ.Dispatch], rest, hostBase, chipBase);
  }

  // ----- all hosts together

  /** The chip carries out the entries of four queues in the order of the schedule. */
  ghost function ExecuteEntries(m: HostSchedule.Memory, queues: seq<seq<DQ.Entry>>, sched: seq<int>)
    : HostSchedule.Memory
    requires HostSchedule.Possible(queues, sched)
    requires forall h, k :: 0 <= h < |queues| && 0 <= k < |queues[h]| ==> DQ.Drivable(queues[h][k])
    decreases |sched|
  {
    if sched == [] then m
    else
      HostSchedule.PossiblePrefix(queues, sched);
      var before, h := sched[..|sched| - 1], sched[|sched| - 1];
      PerformEntry(ExecuteEntries(m, queues, before), queues[h][HostSchedule.Count(before, h)])
  }

  ghost predicate EachMeans(p: HostSchedule.Plan, queues: seq<seq<DQ.Entry>>, streams: seq<seq<HostSchedule.Tran>>) {
    |queues| == |streams| == MAX_HOSTS && forall h :: 0 <= h < MAX_HOSTS ==> AllMean(p, h, queues[h], streams[h])
  }

  /** Queues that mean the streams run as the streams do. */
  lemma {:induction false} SameRun(p: HostSchedule.Plan, m: HostSchedule.Memory, m': HostSchedule.Memory,
      queues: seq<seq<DQ.Entry>>, streams: seq<seq<HostSchedule.Tran>>, sched: seq<int>)
    requires EachMeans(p, queues, streams) && HostSchedule.Possible(queues, sched) && forall a :: m'(a) == m(a)
    ensures HostSchedule.Possible(streams, sched)
    ensures forall h, k :: 0 <= h < |queues| && 0 <= k < |queues[h]| ==> DQ.Drivable(queues[h][k])
    ensures forall a :: ExecuteEntries(m', queues, sched)(a) == HostSchedule.Execute(p, m, streams, sched)(a)
    decreases |sched|
  {
    hide Means, PerformEntry, HostSchedule.Perform;
    MeantDrivable(p, queues, streams);
    forall h | 0 <= h < MAX_HOSTS
      ensures |streams[h]| == |queues[h]|
    {
      assert AllMean(p, h, queues[h], streams[h]);
    }
    if sched != [] {
      HostSchedule.PossiblePrefix(queues, sched);
      var before, h := sched[..|sched| - 1], sched[|sched| - 1];
      var n := HostSchedule.Count(before, h);
      SameRun(p, m, m', queues, streams, before);
      assert AllMean(p, h, queues[h], streams[h]) && Means(p, h, queues[h][n], streams[h][n]);
      PerformedAsMeant(p, h, queues[h][n], streams[h][n], HostSchedule.Execute(p, m, streams, before),
                       ExecuteEntries(m', queues, before));
    }
  }

  lemma MeantDrivable(p: HostSchedule.Plan, queues: seq<seq<DQ.Entry>>, streams: seq<seq<HostSchedule.Tran>>)
    requires EachMeans(p, queues, streams)
    ensures forall h, k :: 0 <= h < |queues| && 0 <= k < |queues[h]| ==> DQ.Drivable(queues[h][k])
  {
    forall h, k | 0 <= h < |queues| && 0 <= k < |queues[h]|
      ensures DQ.Drivable(queues[h][k])
    {
      assert AllMean(p, h, queues[h], streams[h]) && Means(p, h, queues[h][k], streams[h][k]);
    }
  }

  lemma SameComplete(p: HostSchedule.Plan, queues: seq<seq<DQ.Entry>>, streams: seq<seq<HostSchedule.Tran>>,
                     sched: seq<int>)
    requires EachMeans(p, queues, streams) && HostSchedule.Complete(queues, sched)
    ensures HostSchedule.Complete(streams, sched)
  {
    hide Means;
    forall h | 0 <= h < MAX_HOSTS
      ensures |streams[h]| == |queues[h]|
    {
      assert AllMean(p, h, queues[h], streams[h]);
    }
  }

  /** Every host drives its generated file; queues holds what it drove of it before the
      sign-off was dispatched, and back what it drove after. */
  ghost predicate AllHostsDrive(c: Config, files: seq<seq<DQ.Entry>>, bases: seq<Word>, chipBase: Word,
                                firsts: seq<seq<DQ.Event>>, seconds: seq<seq<DQ.Event>>,
                                queues: seq<seq<DQ.Entry>>, back: seq<seq<DQ.Entry>>)
    requires Legal(c)
  {
    && |files| == |bases| == |firsts| == |seconds| == |queues| == |back| == MAX_HOSTS
    && forall h :: 0 <= h < MAX_HOSTS ==>
         && Driven(c, h, files[h], firsts[h], seconds[h], bases[h], chipBase)
         && OwnDriven(firsts[h], seconds[h], bases[h], chipBase) == queues[h] + back[h]
         && |queues[h]| == |files[h]|
  }

  lemma DriveMeans(c: Config, ch: Choices, draws: seq<seq<Draw>>, files: seq<seq<DQ.Entry>>,
      tables: seq<map<int, Byte>>, bases: seq<Word>, chipBase: Word, firsts: seq<seq<DQ.Event>>,
      seconds: seq<seq<DQ.Event>>, queues: seq<seq<DQ.Entry>>, back: seq<seq<DQ.Entry>>)
    requires Legal(c) && AllGenerated(c, ch, draws, files, tables)
    requires AllHostsDrive(c, files, bases, chipBase, firsts, seconds, queues, back)
    ensures EachMeans(PlanOf(c, ch), queues, Streams(draws))
    ensures EachMeans(PlanOf(c, ch), back, HostSchedule.SignOffStreams(Streams(draws)))
  {
    hide Legal, Driven, OwnDriven, AllMean, Generated;
    forall h | 0 <= h < MAX_HOSTS
      ensures AllMean(PlanOf(c, ch), h, queues[h], Streams(draws)[h])
      ensures AllMean(PlanOf(c, ch), h, back[h], HostSchedule.SignOffStreams(Streams(draws))[h])
    {
      DrivenIsStream(c, ch, h, AllAccesses(draws[h]), files[h], tables[h], tables[h + 1], firsts[h], seconds[h],
                     bases[h], chipBase);
      var driven := OwnDriven(firsts[h], seconds[h], bases[h], chipBase);
      assert driven[..|files[h]|] == queues[h] && driven[|files[h]|..] == back[h];
    }
  }

  /** The generator, the drivers and the chip together: the four hosts drive their generated
      files and then their sign-offs, the chip carries out what they drive in any order, and
      memory ends with every byte of the expected-data table. */
  lemma DrivenPredictionHolds(c: Config, ch: Choices, draws: seq<seq<Draw>>, files: seq<seq<DQ.Entry>>,
      tables: seq<map<int, Byte>>, bases: seq<Word>, chipBase: Word, firsts: seq<seq<DQ.Event>>,
      seconds: seq<seq<DQ.Event>>, queues: seq<seq<DQ.Entry>>, back: seq<seq<DQ.Entry>>, m: HostSchedule.Memory,
      sched: seq<int>, signOff: seq<int>)
    requires Legal(c) && AllGenerated(c, ch, draws, files, tables)
    requires AllHostsDrive(c, files, bases, chipBase, firsts, seconds, queues, back)
    requires HostSchedule.Complete(queues, sched) && HostSchedule.Complete(back, signOff)
    ensures forall h, k :: 0 <= h < |queues| && 0 <= k < |queues[h]| ==> DQ.Drivable(queues[h][k])
    ensures forall h, k :: 0 <= h < |back| && 0 <= k < |back[h]| ==> DQ.Drivable(back[h][k])
    ensures forall x :: x in tables[MAX_HOSTS] ==>
              ExecuteEntries(ExecuteEntries(m, queues, sched), back, signOff)(x) == tables[MAX_HOSTS][x]
  {
    hide Legal, AllHostsDrive, Generated, EachMeans, HostSchedule.Execute, ExecuteEntries, HostSchedule.Possible;
    var p, streams := PlanOf(c, ch), Streams(draws);
    var readBack := HostSchedule.SignOffStreams(streams);
    DriveMeans(c, ch, draws, files, tables, bases, chipBase, firsts, seconds, queues, back);
    SameComplete(p, queues, streams, sched);
    SameComplete(p, back, readBack, signOff);
    GeneratedPredictionHolds(c, ch, draws, files, tables, m, sched, signOff);
    SameRun(p, m, m, queues, streams, sched);
    SameRun(p, HostSchedule.Execute(p, m, streams, sched), ExecuteEntries(m, queues, sched), back, readBack, signOff);
  }
}
