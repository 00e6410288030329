/** The chain of DMA descriptors: free ranges are turned into linked transfers until
    one runs out or the chain is cut (igen/dma.h:499-816). */
module DmaChain {
  import opened Accesses
  import opened Ranges
  import opened ChipAddress
  import opened DmaTransfer
  import MemManager

  const MAX_CHAIN_ADDRESS: int := 0x1_0000
  const TABLE_SIZE: int := 24

  datatype Descriptor = Descriptor(src: int, dst: int, z: Size, size: int, auto: bool, message: bool,
                                   location: int, chained: bool, isr: bool, isrAddress: int, chainPointer: int)

  /** The random choices of one pass. */
  datatype Draws = Draws(dirOut: bool, auto: bool, message: bool, z: Size, chain: bool, interrupt: bool)

  /** What the search through the load/store ranges looks for. */
  datatype Want = Internal | External | OtherChip(chip: int)

  predicate Wanted(w: Want, r: Range)
    requires MemManager.Long(r)
  {
    match w
    case Internal => r.first < EXT_MEM_START
    case External => r.first >= EXT_MEM_START
    case OtherChip(c) => r.first >= EXT_MEM_START && Chip(r.first) != c
  }

  function Without(s: seq<Range>, k: nat): (r: seq<Range>)
    requires k < |s|
    ensures multiset(r) == multiset(s) - multiset{s[k]}
    ensures |r| == |s| - 1 && forall i :: 0 <= i < |r| ==> r[i] in s
  {
    assert s == s[..k] + [s[k]] + s[k + 1..];
    s[..k] + s[k + 1..]
  }

  /** External memory opposite internal memory, or that of another chip. */
  predicate Opposite(a: Range, b: Range, internal: bool)
    requires MemManager.Long(a) && MemManager.Long(b)
  {
    && b.first >= EXT_MEM_START
    && if internal then a.first < EXT_MEM_START else a.first >= EXT_MEM_START && Chip(a.first) != Chip(b.first)
  }

  ghost predicate HasWanted(w: Want, s: seq<Range>)
    requires MemManager.AllLong(s)
  {
    exists i :: 0 <= i < |s| && Wanted(w, s[i])
  }

  /** Data can be moved: there is an external range, and an internal one or an external one
      of another chip. */
  ghost predicate HasPair(s: seq<Range>)
    requires MemManager.AllLong(s)
  {
    exists i :: 0 <= i < |s| && s[i].first >= EXT_MEM_START
                && (HasWanted(Internal, s) || HasWanted(OtherChip(ExternalChip(s[i])), s))
  }

  /** Range i is the first wanted one. */
  predicate IsFirst(w: Want, s: seq<Range>, i: int)
    requires MemManager.AllLong(s)
  {
    0 <= i < |s| && Wanted(w, s[i]) && forall j :: 0 <= j < i ==> !Wanted(w, s[j])
  }

  /** It is r, and rest is the list without it. */
  ghost predicate FirstTaken(w: Want, s: seq<Range>, r: Range, rest: seq<Range>)
    requires MemManager.AllLong(s)
  {
    exists i :: IsFirst(w, s, i) && r == s[i] && rest == Without(s, i)
  }

  /** The first range that starts low enough for a descriptor, or the length of the list. */
  function FirstLow(s: seq<Range>): (i: nat)
    ensures i <= |s| && (i < |s| ==> s[i].first < MAX_CHAIN_ADDRESS)
    ensures forall j :: 0 <= j < i ==> s[j].first >= MAX_CHAIN_ADDRESS
  {
    if s == [] || s[0].first < MAX_CHAIN_ADDRESS then 0 else 1 + FirstLow(s[1..])
  }

  /** The place for a descriptor in a range: the next multiple of eight. */
  function PlaceIn(r: Range): int
    requires 0 <= r.first
  {
    AlignDown(r.first, 3) + 8
  }

  /** The first low range has a place that is low, too. */
  predicate HasPlace(s: seq<Range>)
    requires MemManager.AllLong(s)
  {
    FirstLow(s) < |s| && PlaceIn(s[FirstLow(s)]) < MAX_CHAIN_ADDRESS
  }

  /** Every descriptor but the last goes on, by exactly one of chain and interrupt, to
      the location of the next; the last does neither. */
  ghost predicate Linked(s: seq<Descriptor>) {
    && (forall i :: 0 <= i < |s| - 1 ==> s[i].chained != s[i].isr && s[i].chainPointer == s[i + 1].location)
    && (s != [] ==> !s[|s| - 1].chained && !s[|s| - 1].isr)
  }

  /** The ranges a descriptor is carved from. */
  datatype Origin = Origin(src: Range, dst: Range, table: Range)

  ghost predicate CarvedFrom(d: Descriptor, o: Origin) {
    && MemManager.Long(o.src) && MemManager.Long(o.dst) && MemManager.Long(o.table)
    && d.src == BufferStart(o.src.first, d.z) && d.dst == BufferStart(o.dst.first, d.z)
    && d.size == BufferSize(o.src, o.dst)
    && d.location == AlignDown(o.table.first, 3) + 8 < MAX_CHAIN_ADDRESS
  }

  /** The ranges descriptors are stored in. */
  function TablesOf(s: seq<Origin>): multiset<Range> {
    if s == [] then multiset{} else TablesOf(s[..|s| - 1]) + multiset{s[|s| - 1].table}
  }

  /** The ranges data is moved between. */
  function BuffersOf(s: seq<Origin>): multiset<Range> {
    if s == [] then multiset{} else BuffersOf(s[..|s| - 1]) + multiset{s[|s| - 1].src, s[|s| - 1].dst}
  }

  /** Free ranges and buffers together are no more than there was. */
  ghost predicate Unshared(free: multiset<Range>, buffers: multiset<Range>, all: multiset<Range>) {
    free + buffers <= all
  }

  /** Free ranges, tables and interrupt routines together are no more than there was. */
  ghost predicate Conserved(fetch: multiset<Range>, tables: multiset<Range>, isrs: multiset<Range>,
      all: multiset<Range>) {
    fetch + tables + isrs <= all
  }

  ghost predicate AllCarved(s: seq<Descriptor>, origin: seq<Origin>, ls0: multiset<Range>) {
    |s| == |origin|
    && forall i :: 0 <= i < |s| ==> CarvedFrom(s[i], origin[i]) && multiset{origin[i].src, origin[i].dst} <= ls0
  }

  /** A new descriptor between two ranges; it goes nowhere yet. */
  function Unlinked(from: Range, to: Range, z: Size, auto: bool, message: bool, location: int): (d: Descriptor)
    requires MemManager.Long(from) && MemManager.Long(to)
    ensures !d.chained && !d.isr
  {
    Descriptor(BufferStart(from.first, z), BufferStart(to.first, z), z, BufferSize(from, to),
               auto, message, location, false, false, 0, 0)
  }

  lemma UnlinkedCarved(from: Range, to: Range, z: Size, auto: bool, message: bool, location: int, table: Range)
    requires MemManager.Long(from) && MemManager.Long(to) && MemManager.Long(table)
    requires location == AlignDown(table.first, 3) + 8 < MAX_CHAIN_ADDRESS
    ensures CarvedFrom(Unlinked(from, to, z, auto, message, location), Origin(from, to, table))
  {
  }

  class DmaEngine {
    const number: nat
    const genInter: bool
    const autoOn: bool
    var descrList: seq<Descriptor>
    var rangeListForLS: seq<Range>
    var rangeListForFetch: seq<Range>
    var isrStarts: seq<int>
    ghost var origin: seq<Origin>
    ghost var isrs: multiset<Range>
    ghost const ls0: multiset<Range>
    ghost const fetch0: multiset<Range>

    ghost predicate Valid()
      reads this
    {
      && Linked(descrList) && AllCarved(descrList, origin, ls0)
      && MemManager.AllLong(rangeListForLS) && MemManager.AllLong(rangeListForFetch)
      && multiset(rangeListForLS) <= ls0
      && (number == 0 ==> Unshared(multiset(rangeListForLS), BuffersOf(origin), ls0))
      && Conserved(multiset(rangeListForFetch), TablesOf(origin), isrs, fetch0)
    }

    constructor (number: nat, genInter: bool, autoOn: bool, ls: seq<Range>, fetch: seq<Range>)
      requires MemManager.AllLong(ls) && MemManager.AllLong(fetch)
      ensures Valid() && descrList == [] && origin == []
      ensures ls0 == multiset(ls) && fetch0 == multiset(fetch)
    {
      this.number, this.genInter, this.autoOn := number, genInter, autoOn;
      descrList, rangeListForLS, rangeListForFetch, isrStarts := [], ls, fetch, [];
      origin, isrs, ls0, fetch0 := [], multiset{}, multiset(ls), multiset(fetch);
    }

    /** First wanted range, taken out of the load/store list. */
    method TakeFirst(w: Want) returns (found: bool, r: Range)
      requires MemManager.AllLong(rangeListForLS)
      modifies `rangeListForLS
      ensures MemManager.AllLong(rangeListForLS)
      ensures found <==> HasWanted(w, old(rangeListForLS))
      ensures found ==>
                && MemManager.Long(r) && Wanted(w, r)
                && multiset(rangeListForLS) + multiset{r} == multiset(old(rangeListForLS))
                && FirstTaken(w, old(rangeListForLS), r, rangeListForLS)
      ensures !found ==> rangeListForLS == old(rangeListForLS)
    {
      r := Range(0, 0);
      var it := 0;
      while it < |rangeListForLS|
        invariant 0 <= it <= |rangeListForLS| && rangeListForLS == old(rangeListForLS)
        invariant forall i :: 0 <= i < it ==> !Wanted(w, rangeListForLS[i])
      {
        if Wanted(w, rangeListForLS[it]) {
          r := rangeListForLS[it];
          rangeListForLS := Without(rangeListForLS, it);
          assert IsFirst(w, old(rangeListForLS), it);
          return true, r;
        }
        it := it + 1;
      }
      found := false;
    }

    /** A range for the descriptor itself, taken from the fetch list; at MAX_CHAIN_ADDRESS
        when none is low enough. */
    method TakeLocation() returns (location: int, ghost table: Range)
      requires MemManager.AllLong(rangeListForFetch)
      modifies `rangeListForFetch
      ensures MemManager.AllLong(rangeListForFetch)
      ensures location < MAX_CHAIN_ADDRESS ==>
                MemManager.Long(table) && location == AlignDown(table.first, 3) + 8
                && multiset(rangeListForFetch) + multiset{table} == multiset(old(rangeListForFetch))
                && |rangeListForFetch| < |old(rangeListForFetch)|
      ensures multiset(rangeListForFetch) <= multiset(old(rangeListForFetch))
      ensures |rangeListForFetch| <= |old(rangeListForFetch)|
      ensures var i := FirstLow(old(rangeListForFetch));
              if i < |old(rangeListForFetch)| then
                location == PlaceIn(old(rangeListForFetch)[i]) && table == old(rangeListForFetch)[i]
                && rangeListForFetch == Without(old(rangeListForFetch), i)
              else location == MAX_CHAIN_ADDRESS && rangeListForFetch == old(rangeListForFetch)
    {
      hide FirstLow, AlignDown, Without;
      table := Range(0, 0);
      location := MAX_CHAIN_ADDRESS;
      var it := 0;
      while it < |rangeListForFetch|
        invariant 0 <= it <= |rangeListForFetch| && rangeListForFetch == old(rangeListForFetch)
        invariant location == MAX_CHAIN_ADDRESS
        invariant forall j :: 0 <= j < it ==> rangeListForFetch[j].first >= MAX_CHAIN_ADDRESS
      {
        if rangeListForFetch[it].first < MAX_CHAIN_ADDRESS {
          table := rangeListForFetch[it];
          location := AlignDown(rangeListForFetch[it].first, 3) + 8;
          rangeListForFetch := Without(rangeListForFetch, it);
          return;
        }
        it := it + 1;
      }
    }

    /** The last descriptor goes on to a new one by chain: as drawn, and always in the
        second engine when there are no interrupts. */
    predicate GoesByChain(d: Draws) {
      d.chain || (!genInter && number == 1)
    }

    /** It goes on by interrupt: not by chain, with a fetch range for the routine, in the
        first engine as drawn. */
    predicate GoesByInterrupt(d: Draws, fetch: seq<Range>) {
      genInter && !GoesByChain(d) && fetch != [] && (number == 0 ==> d.interrupt)
    }

    /** Without interrupts the second engine always goes on; with them it does as long as
        there is a fetch range, and the first engine as drawn. */
    lemma GoesOnAsDrawn(d: Draws, fetch: seq<Range>)
      ensures !genInter ==> (GoesByChain(d) <==> d.chain || number == 1) && !GoesByInterrupt(d, fetch)
      ensures genInter && fetch == [] ==> (GoesByChain(d) || GoesByInterrupt(d, fetch) <==> d.chain)
      ensures genInter && fetch != [] && number == 0 ==>
                (GoesByChain(d) || GoesByInterrupt(d, fetch) <==> d.chain || d.interrupt)
      ensures genInter && fetch != [] && number != 0 ==> GoesByChain(d) || GoesByInterrupt(d, fetch)
      ensures !(GoesByChain(d) && GoesByInterrupt(d, fetch))
    {
    }

    /** How the last descriptor goes on: an interrupt takes the last fetch range for its
        routine; with neither, generation ends. */
    method ChooseLink(d: Draws, ghost tables: multiset<Range>) returns (isChain: bool, isInterrupt: bool,
        isrAddress: int)
      requires MemManager.AllLong(rangeListForFetch) && Conserved(multiset(rangeListForFetch), tables, isrs, fetch0)
      modifies `rangeListForFetch, `isrStarts, `isrs
      ensures MemManager.AllLong(rangeListForFetch) && Conserved(multiset(rangeListForFetch), tables, isrs, fetch0)
      ensures |rangeListForFetch| <= |old(rangeListForFetch)|
      ensures !(isChain && isInterrupt)
      ensures isChain <==> GoesByChain(d)
      ensures isInterrupt <==> GoesByInterrupt(d, old(rangeListForFetch))
      ensures rangeListForFetch == if isInterrupt then Without(old(rangeListForFetch), |old(rangeListForFetch)| - 1)
                                   else old(rangeListForFetch)
      ensures isInterrupt ==> old(rangeListForFetch) != []
                              && isrAddress == 2 + old(rangeListForFetch)[|old(rangeListForFetch)| - 1].first / 2 * 2
    {
      hide MemManager.Long;
      isChain, isInterrupt, isrAddress := d.chain, false, 0;
      if !genInter && number == 1 {
        isChain := true;
      }
      if rangeListForFetch != [] && genInter && !isChain {
        isInterrupt := if number == 0 then d.interrupt else true;
        if isInterrupt {
          var from := rangeListForFetch[|rangeListForFetch| - 1];
          isrAddress := 2 + from.first / 2 * 2;
          isrs := isrs + multiset{from};
          rangeListForFetch := Without(rangeListForFetch, |rangeListForFetch| - 1);
          isrStarts := isrStarts + [isrAddress];
        }
      }
    }

    /** Links the last descriptor to d and appends it. */
    method Append(d: Descriptor, isChain: bool, isInterrupt: bool, isrAddress: int, ghost o: Origin)
      requires Linked(descrList) && AllCarved(descrList, origin, ls0)
      requires !d.chained && !d.isr && CarvedFrom(d, o) && multiset{o.src, o.dst} <= ls0
      requires descrList == [] || isChain != isInterrupt
      modifies `descrList, `origin
      ensures Linked(descrList) && AllCarved(descrList, origin, ls0)
      ensures descrList == Extended(old(descrList), d, isChain, isInterrupt, isrAddress)
      ensures origin == old(origin) + [o]
    {
      hide CarvedFrom, Linked;
      LinkedExtended(descrList, d, isChain, isInterrupt, isrAddress);
      if descrList != [] {
        var n := |descrList| - 1;
        SameOrigin(descrList[n], origin[n], isChain, isInterrupt, isrAddress, d.location);
        var last := descrList[n].(chained := isChain, isr := isInterrupt);
        descrList := descrList[n := last.(isrAddress := isrAddress, chainPointer := d.location)];
      }
      descrList := descrList + [d];
      origin := origin + [o];
      assert descrList == Extended(old(descrList), d, isChain, isInterrupt, isrAddress);
    }

    /** Two ranges that may exchange data: an internal and an external one, or external
        ones of different chips. */
    method TakePair() returns (found: bool, foundInt: bool, range1: Range, range2: Range)
      requires MemManager.AllLong(rangeListForLS)
      modifies `rangeListForLS
      ensures MemManager.AllLong(rangeListForLS) && multiset(rangeListForLS) <= multiset(old(rangeListForLS))
      ensures found ==> MemManager.Long(range1) && MemManager.Long(range2)
                        && multiset(rangeListForLS) + multiset{range1, range2} <= multiset(old(rangeListForLS))
                        && Opposite(range1, range2, foundInt)
      ensures found <==> HasPair(old(rangeListForLS))
      ensures foundInt <==> HasWanted(Internal, old(rangeListForLS))
    {
      hide MemManager.Long, Chip, HasWanted, HasPair, MemManager.AllLong, Without, FirstTaken, Opposite, ExternalChip,
          Wanted;
      var intRange, extRange, other, foundExt, foundOther;
      ghost var start := multiset(rangeListForLS);
      ghost var all := rangeListForLS;
      foundInt, intRange := TakeFirst(Internal);
      ghost var rest := rangeListForLS;
      ghost var left := multiset(rangeListForLS);
      foundExt, extRange := TakeFirst(External);
      ghost var left' := multiset(rangeListForLS);
      ghost var last := rangeListForLS;
      foundOther, other := false, intRange;
      if !foundInt && foundExt {
        foundOther, other := TakeFirst(OtherChip(ExternalChip(extRange)));
      }
      found := (foundInt && foundExt) || (foundExt && foundOther);
      PairFound(all, rest, last, foundInt, foundExt, intRange, extRange);
      range1, range2 := if foundInt then intRange else other, extRange;
      if found {
        OppositeIs(range1, range2, foundInt);
        if foundInt {
          BothTaken(start, left, multiset(rangeListForLS), range1, range2);
        } else {
          BothTaken(left, left', multiset(rangeListForLS), range2, range1);
        }
      }
    }

    /** Into internal memory, in the first engine, where asked for and allowed. */
    predicate AutoMode(d: Draws, foundInt: bool) {
      d.auto && !d.dirOut && foundInt && autoOn && number != 1
    }

    /** Into internal memory, where asked for, and not in auto mode. */
    predicate MessageMode(d: Draws, foundInt: bool) {
      d.message && !d.dirOut && foundInt && !AutoMode(d, foundInt)
    }

    /** Only a transfer into internal memory has a mode; it has one where one was drawn, auto
        mode counting in the first engine only and going before message mode. */
    lemma ModesAsDrawn(d: Draws, foundInt: bool)
      ensures var autoDrawn := d.auto && autoOn && number != 1;
              if d.dirOut || !foundInt then !AutoMode(d, foundInt) && !MessageMode(d, foundInt)
              else (AutoMode(d, foundInt) || MessageMode(d, foundInt) <==> autoDrawn || d.message)
                   && (AutoMode(d, foundInt) <==> autoDrawn) && !(AutoMode(d, foundInt) && MessageMode(d, foundInt))
    {
    }

    /** Auto and message mode of a transfer; in message mode the second engine may use
        its ranges again. */
    method ChooseMode(d: Draws, foundInt: bool, range1: Range, range2: Range) returns (auto: bool, message: bool)
      requires MemManager.AllLong(rangeListForLS) && MemManager.Long(range1) && MemManager.Long(range2)
      modifies `rangeListForLS
      ensures MemManager.AllLong(rangeListForLS)
      ensures rangeListForLS == old(rangeListForLS) + if message && number != 0 then [range2, range1] else []
      ensures !(auto && message)
      ensures auto <==> AutoMode(d, foundInt)
      ensures message <==> MessageMode(d, foundInt)
    {
      hide MemManager.Long;
      auto := d.auto;
      if d.dirOut || !foundInt || !autoOn || number == 1 {
        auto := false;
      }
      message := d.message;
      if d.dirOut || !foundInt || auto {
        message := false;
      }
      if message {
        if number != 0 {
          rangeListForLS := rangeListForLS + [range2, range1];
        }
      }
    }

    /** Some way leads on from the last descriptor, if there is one. */
    predicate GoesOn(d: Draws, fetch: seq<Range>)
      requires MemManager.AllLong(fetch) && HasPlace(fetch)
      reads `descrList
    {
      descrList == [] || GoesByChain(d) || GoesByInterrupt(d, Without(fetch, FirstLow(fetch)))
    }

    /** Finds a place for the descriptor, links the last one to it and appends it. */
    method Place(d: Draws, from: Range, to: Range, auto: bool, message: bool) returns (end: bool)
      requires Valid() && MemManager.Long(from) && MemManager.Long(to) && multiset{from, to} <= ls0
      requires number == 0 ==> Unshared(multiset(rangeListForLS) + multiset{from, to}, BuffersOf(origin), ls0)
      modifies `rangeListForFetch, `isrs, `isrStarts, `descrList, `origin
      ensures Valid()
      ensures |rangeListForFetch| <= |old(rangeListForFetch)|
      ensures !end ==> |rangeListForFetch| < |old(rangeListForFetch)| && |descrList| == |old(descrList)| + 1
      ensures end <==> !(HasPlace(old(rangeListForFetch)) && old(GoesOn(d, rangeListForFetch)))
      ensures !end ==> Added(old(descrList), old(rangeListForFetch), d, from, to, auto, message)
      ensures end ==> descrList == old(descrList)
    {
      hide MemManager.Long, Linked, AllCarved, BufferStart, BufferSize, AlignDown, Conserved, MemManager.AllLong,
          TablesOf, BuffersOf, Unshared, GoesByChain, GoesByInterrupt, Without, Added;
      ghost var fetch := rangeListForFetch;
      ghost var tables, free := TablesOf(origin), multiset(rangeListForFetch);
      var location;
      ghost var table;
      location, table := TakeLocation();
      if location >= MAX_CHAIN_ADDRESS {
        LessFree(free, multiset(rangeListForFetch), tables, isrs, fetch0);
        return true;
      }
      TableTaken(free, multiset(rangeListForFetch), table, tables, isrs, fetch0);
      end := Continue(d, from, to, auto, message, location, table, fetch);
    }

    /** Links the last descriptor to a new one at this place, or ends the chain. */
    method Continue(d: Draws, from: Range, to: Range, auto: bool, message: bool, location: int, ghost table: Range,
                    ghost fetch: seq<Range>) returns (end: bool)
      requires Linked(descrList) && AllCarved(descrList, origin, ls0) && MemManager.AllLong(rangeListForFetch)
      requires MemManager.Long(from) && MemManager.Long(to) && MemManager.Long(table) && multiset{from, to} <= ls0
      requires Conserved(multiset(rangeListForFetch), TablesOf(origin) + multiset{table}, isrs, fetch0)
      requires number == 0 ==> Unshared(multiset(rangeListForLS) + multiset{from, to}, BuffersOf(origin), ls0)
      requires MemManager.AllLong(fetch) && HasPlace(fetch) && table == fetch[FirstLow(fetch)]
      requires rangeListForFetch == Without(fetch, FirstLow(fetch)) && location == PlaceIn(table)
      modifies `rangeListForFetch, `isrs, `isrStarts, `descrList, `origin
      ensures Linked(descrList) && AllCarved(descrList, origin, ls0) && MemManager.AllLong(rangeListForFetch)
      ensures Conserved(multiset(rangeListForFetch), TablesOf(origin), isrs, fetch0)
      ensures number == 0 ==> Unshared(multiset(rangeListForLS), BuffersOf(origin), ls0)
      ensures |rangeListForFetch| <= |old(rangeListForFetch)|
      ensures end <==> !old(GoesOn(d, fetch))
      ensures !end ==> Added(old(descrList), fetch, d, from, to, auto, message) && |descrList| == |old(descrList)| + 1
      ensures end ==> descrList == old(descrList)
    {
      hide MemManager.Long, Linked, AllCarved, BufferStart, BufferSize, AlignDown, Conserved, MemManager.AllLong,
          TablesOf, Unlinked, CarvedFrom, BuffersOf, Unshared, GoesByChain, GoesByInterrupt, Without, Extended, Added,
          FirstLow;
      CarvedLength();
      ghost var before, tables := descrList, TablesOf(origin);
      var isChain, isInterrupt, isrAddress := false, false, 0;
      end := false;
      if descrList != [] {
        isChain, isInterrupt, isrAddress := ChooseLink(d, tables + multiset{table});
        end := !isInterrupt && !isChain;
      }
      if end {
        TableLost(multiset(rangeListForFetch), table, tables, isrs, fetch0);
        if number == 0 {
          MoreFree(multiset(rangeListForLS), multiset{from, to}, BuffersOf(origin), ls0);
        }
      } else {
        ghost var o := Origin(from, to, table);
        TablesOfMore(origin, o);
        if number == 0 {
          BuffersTaken(multiset(rangeListForLS), origin, o, ls0);
        }
        var descr := Unlinked(from, to, d.z, auto, message, location);
        UnlinkedCarved(from, to, d.z, auto, message, location, table);
        Append(descr, isChain, isInterrupt, isrAddress, o);
        AddedIs(before, fetch, d, from, to, auto, message, descr, isChain, isInterrupt, isrAddress);
      }
    }

    lemma CarvedLength()
      requires AllCarved(descrList, origin, ls0)
      ensures |descrList| == |origin|
    {
    }

    /** The chain is the one before, its last descriptor going on by chain or interrupt,
        and a new descriptor for this transfer at the first place. */
    ghost predicate Added(before: seq<Descriptor>, fetch: seq<Range>, d: Draws, from: Range, to: Range, auto: bool,
                          message: bool)
      requires MemManager.AllLong(fetch) && MemManager.Long(from) && MemManager.Long(to)
      reads `descrList, `origin
    {
      && |descrList| == |origin| == |before| + 1 && HasPlace(fetch)
      && (forall i :: 0 <= i < |before| - 1 ==> descrList[i] == before[i])
      && (before != [] ==> (descrList[|before| - 1].chained <==> GoesByChain(d))
                           && (descrList[|before| - 1].isr <==> !GoesByChain(d)))
      && var e := descrList[|before|];
         && e.auto == auto && e.message == message && e.z == d.z && e.location == PlaceIn(fetch[FirstLow(fetch)])
         && origin[|before|] == Origin(from, to, fetch[FirstLow(fetch)])
    }

    lemma AddedIs(before: seq<Descriptor>, fetch: seq<Range>, d: Draws, from: Range, to: Range, auto: bool,
        message: bool, descr: Descriptor, isChain: bool, isInterrupt: bool, isrAddress: int)
      requires MemManager.AllLong(fetch) && MemManager.Long(from) && MemManager.Long(to) && HasPlace(fetch)
      requires descr == Unlinked(from, to, d.z, auto, message, PlaceIn(fetch[FirstLow(fetch)]))
      requires descrList == Extended(before, descr, isChain, isInterrupt, isrAddress)
      requires before != [] ==> (isChain <==> GoesByChain(d)) && isChain != isInterrupt
      requires |origin| == |before| + 1 && origin[|before|] == Origin(from, to, fetch[FirstLow(fetch)])
      ensures Added(before, fetch, d, from, to, auto, message) && |descrList| == |before| + 1
    {
      hide MemManager.Long, MemManager.AllLong, BufferStart, BufferSize, GoesByChain;
    }

    /** One pass: ends the chain, or uses up a fetch range. */
    method Pass(d: Draws) returns (end: bool)
      requires Valid() && rangeListForLS != [] && rangeListForFetch != []
      modifies this
      ensures Valid()
      ensures |rangeListForFetch| <= |old(rangeListForFetch)|
      ensures !end ==> |rangeListForFetch| < |old(rangeListForFetch)| && |descrList| == |old(descrList)| + 1
      ensures end <==> !(HasPair(old(rangeListForLS)) && HasPlace(old(rangeListForFetch))
                         && old(GoesOn(d, rangeListForFetch)))
      ensures !end ==> NewTransfer(old(descrList), old(rangeListForLS), old(rangeListForFetch), d)
      ensures end ==> descrList == old(descrList)
    {
      hide MemManager.Long, Linked, AllCarved, Chip, Conserved, MemManager.AllLong, TablesOf, BuffersOf, Unshared,
          HasPair, HasPlace, HasWanted, GoesByChain, GoesByInterrupt, Added, AutoMode, MessageMode, Opposite,
          NewTransfer, GoesOn, FirstLow;
      ghost var free, buffers := multiset(rangeListForLS), BuffersOf(origin);
      var found, foundInt, range1, range2 := TakePair();
      if number == 0 {
        FewerFree(free, multiset(rangeListForLS), buffers, ls0);
      }
      if !found {
        return true;
      }
      PairOf(multiset(rangeListForLS), range1, range2, ls0);
      Reused(rangeListForLS, range1, range2, ls0);
      if number == 0 {
        FewerFree(free, multiset(rangeListForLS) + multiset{range1, range2}, buffers, ls0);
      }
      ghost var left := rangeListForLS;
      var auto, message := ChooseMode(d, foundInt, range1, range2);
      assert number == 0 ==> rangeListForLS == left;
      assert multiset(rangeListForLS) <= ls0;
      assert Valid();
      ghost var before, fetch := descrList, rangeListForFetch;
      if d.dirOut {
        end := Place(d, range1, range2, auto, message);
      } else {
        end := Place(d, range2, range1, auto, message);
      }
      if !end {
        NewTransferIs(before, old(rangeListForLS), fetch, d, range1, range2);
      }
    }

    lemma NewTransferIs(before: seq<Descriptor>, ls: seq<Range>, fetch: seq<Range>, d: Draws, a: Range, b: Range)
      requires MemManager.AllLong(ls) && MemManager.AllLong(fetch) && MemManager.Long(a) && MemManager.Long(b)
      requires Opposite(a, b, HasWanted(Internal, ls))
      requires Added(before, fetch, d, if d.dirOut then a else b, if d.dirOut then b else a,
                     AutoMode(d, HasWanted(Internal, ls)), MessageMode(d, HasWanted(Internal, ls)))
      ensures NewTransfer(before, ls, fetch, d)
    {
      hide Added, AutoMode, MessageMode, Opposite, HasWanted, MemManager.AllLong, MemManager.Long;
    }

    /** The new descriptor moves data between internal and external memory if there is free
        internal memory, out of it or into it as drawn, and else between different chips. */
    ghost predicate NewTransfer(before: seq<Descriptor>, ls: seq<Range>, fetch: seq<Range>, d: Draws)
      requires MemManager.AllLong(ls) && MemManager.AllLong(fetch)
      reads `descrList, `origin
    {
      exists a: Range, b: Range :: MemManager.Long(a) && MemManager.Long(b) && Opposite(a, b, HasWanted(Internal, ls))
        && Added(before, fetch, d, if d.dirOut then a else b, if d.dirOut then b else a,
                 AutoMode(d, HasWanted(Internal, ls)), MessageMode(d, HasWanted(Internal, ls)))
    }

    /** Passes until a range is missing or the chain ends; every continuing pass uses up
        a fetch range. */
    method GenerateDescrList(draws: int -> Draws)
      requires Valid()
      modifies this
      ensures Valid()
      ensures old(descrList) == [] ==>
                (descrList != [] <==> HasPair(old(rangeListForLS)) && HasPlace(old(rangeListForFetch)))
    {
      hide Linked, AllCarved, Conserved, TablesOf, BuffersOf, Unshared, NewTransfer, GoesByChain, GoesByInterrupt,
          MemManager.Long;
      var end, u := false, 0;
      while !end && rangeListForLS != [] && rangeListForFetch != []
        invariant Valid() && u >= 0
        invariant u == 0 ==> !end && descrList == old(descrList)
                             && rangeListForLS == old(rangeListForLS) && rangeListForFetch == old(rangeListForFetch)
        invariant u > 0 && !end ==> descrList != []
        invariant u > 0 && old(descrList) == [] ==>
                    (descrList != [] <==> HasPair(old(rangeListForLS)) && HasPlace(old(rangeListForFetch)))
        decreases |rangeListForFetch|, !end
      {
        end := Pass(draws(u));
        u := u + 1;
      }
    }

    /** Whatever has been generated, no two sections of the first engine's chain overlap. */
    lemma EngineMemoryApart(ls: seq<Range>, fetch: seq<Range>, i: nat, k: nat, j: nat, l: nat)
      requires Valid() && ls0 == multiset(ls) && fetch0 == multiset(fetch) && ListsApart(ls, fetch)
      requires i < |descrList| && j < |descrList| && k < 3 && l < 3 && (i != j || k != l)
      ensures i == j || k == 2 || l == 2 || number == 0
              ==> MemManager.Disjoint(Section(descrList[i], k), Section(descrList[j], l))
    {
      hide ListsApart, MemManager.Disjoint, AllCarved, Linked, Conserved, TablesOf, BuffersOf;
      if i == j || k == 2 || l == 2 || number == 0 {
        ChainMemoryApart(descrList, origin, ls, fetch, multiset(rangeListForFetch), isrs, i, k, j, l);
      }
    }
  }

  lemma BothTaken(start: multiset<Range>, left: multiset<Range>, now: multiset<Range>, a: Range, b: Range)
    requires left + multiset{a} == start && now + multiset{b} == left
    ensures now + multiset{a, b} <= start && now + multiset{b, a} <= start
  {
  }

  lemma PairOf(now: multiset<Range>, a: Range, b: Range, all: multiset<Range>)
    requires now + multiset{a, b} <= all
    ensures multiset{a, b} <= all && multiset{b, a} <= all && multiset{a, b} == multiset{b, a}
  {
  }

  lemma Reused(list: seq<Range>, a: Range, b: Range, all: multiset<Range>)
    requires multiset(list) + multiset{a, b} <= all
    ensures multiset(list + []) <= all && multiset(list + [b, a]) <= all
  {
    assert multiset(list + [b, a]) == multiset(list) + multiset{b, a};
    assert list + [] == list;
  }

  lemma FewerFree(before: multiset<Range>, now: multiset<Range>, buffers: multiset<Range>, all: multiset<Range>)
    requires Unshared(before, buffers, all) && now <= before
    ensures Unshared(now, buffers, all)
  {
  }

  lemma BuffersTaken(free: multiset<Range>, s: seq<Origin>, o: Origin, all: multiset<Range>)
    requires Unshared(free + multiset{o.src, o.dst}, BuffersOf(s), all)
    ensures Unshared(free, BuffersOf(s + [o]), all)
  {
    assert (s + [o])[..|s|] == s;
  }

  lemma MoreFree(free: multiset<Range>, more: multiset<Range>, buffers: multiset<Range>, all: multiset<Range>)
    requires Unshared(free + more, buffers, all)
    ensures Unshared(free, buffers, all)
  {
  }

  lemma LessFree(before: multiset<Range>, now: multiset<Range>, tables: multiset<Range>, isrs: multiset<Range>,
      all: multiset<Range>)
    requires Conserved(before, tables, isrs, all) && now <= before
    ensures Conserved(now, tables, isrs, all)
  {
  }

  lemma TableTaken(before: multiset<Range>, now: multiset<Range>, table: Range, tables: multiset<Range>,
      isrs: multiset<Range>, all: multiset<Range>)
    requires Conserved(before, tables, isrs, all) && now + multiset{table} == before
    ensures Conserved(now, tables + multiset{table}, isrs, all)
  {
  }

  lemma TableLost(now: multiset<Range>, table: Range, tables: multiset<Range>, isrs: multiset<Range>,
      all: multiset<Range>)
    requires Conserved(now, tables + multiset{table}, isrs, all)
    ensures Conserved(now, tables, isrs, all)
  {
  }

  lemma OppositeIs(a: Range, b: Range, internal: bool)
    requires MemManager.Long(a) && MemManager.Long(b) && Wanted(External, b)
    requires Wanted(if internal then Internal else OtherChip(ExternalChip(b)), a)
    ensures Opposite(a, b, internal)
  {
  }

  lemma OthersWanted(w: Want, s: seq<Range>, i: nat)
    requires MemManager.AllLong(s) && i < |s| && !Wanted(w, s[i])
    ensures MemManager.AllLong(Without(s, i)) && (HasWanted(w, s) <==> HasWanted(w, Without(s, i)))
  {
    hide Wanted, MemManager.Long;
    var t := Without(s, i);
    forall k | 0 <= k < |s| && k != i
      ensures t[if k < i then k else k - 1] == s[k]
    {
    }
  }

  /** All external ranges are of one chip, or there is one of another chip than any. */
  lemma PairByFirst(s: seq<Range>, e: nat)
    requires MemManager.AllLong(s) && e < |s| && Wanted(External, s[e]) && !HasWanted(Internal, s)
    ensures HasPair(s) <==> HasWanted(OtherChip(ExternalChip(s[e])), s)
  {
    hide MemManager.Long, Chip;
    if HasPair(s) && Wanted(External, s[e]) {
      var i :| 0 <= i < |s| && s[i].first >= EXT_MEM_START && HasWanted(OtherChip(ExternalChip(s[i])), s);
      var k :| 0 <= k < |s| && Wanted(OtherChip(ExternalChip(s[i])), s[k]);
      assert Wanted(OtherChip(ExternalChip(s[e])), s[k]) || Wanted(OtherChip(ExternalChip(s[e])), s[i]);
    }
  }

  lemma PairWithInternal(s: seq<Range>)
    requires MemManager.AllLong(s)
    ensures HasPair(s) ==> HasWanted(External, s)
    ensures HasWanted(Internal, s) ==> (HasPair(s) <==> HasWanted(External, s))
  {
    hide MemManager.Long, Chip;
    if HasPair(s) {
      var i :| 0 <= i < |s| && s[i].first >= EXT_MEM_START;
      assert Wanted(External, s[i]);
    }
    if HasWanted(External, s) {
      var i :| 0 <= i < |s| && Wanted(External, s[i]);
      assert s[i].first >= EXT_MEM_START;
    }
  }

  /** What the searches of the generator, one after another, have found. */
  lemma PairFound(s: seq<Range>, rest: seq<Range>, last: seq<Range>, foundInt: bool, foundExt: bool, intRange: Range,
                  extRange: Range)
    requires MemManager.AllLong(s) && MemManager.AllLong(rest) && MemManager.AllLong(last)
    requires foundInt <==> HasWanted(Internal, s)
    requires if foundInt then FirstTaken(Internal, s, intRange, rest) else rest == s
    requires foundExt <==> HasWanted(External, rest)
    requires foundExt ==> MemManager.Long(extRange) && FirstTaken(External, rest, extRange, last)
    ensures foundInt ==> (HasPair(s) <==> foundExt)
    ensures !foundInt ==> (HasPair(s) <==> foundExt && HasWanted(OtherChip(ExternalChip(extRange)), last))
  {
    hide MemManager.Long, Chip, MemManager.AllLong, HasPair, HasWanted, Without;
    PairWithInternal(s);
    if foundInt {
      var i :| IsFirst(Internal, s, i) && rest == Without(s, i);
      OthersWanted(External, s, i);
    } else if foundExt {
      var e :| IsFirst(External, rest, e) && extRange == rest[e] && last == Without(rest, e);
      PairByFirst(s, e);
      OthersWanted(OtherChip(ExternalChip(extRange)), s, e);
    }
  }

  function ExternalChip(r: Range): int
    requires MemManager.Long(r)
  {
    Chip(r.first)
  }

  /** The last descriptor goes on to d, which ends the chain. */
  function Extended(s: seq<Descriptor>, d: Descriptor, isChain: bool, isInterrupt: bool,
      isrAddress: int): seq<Descriptor> {
    if s == [] then [d]
    else
      var n := |s| - 1;
      s[n := s[n].(chained := isChain, isr := isInterrupt, isrAddress := isrAddress, chainPointer := d.location)] + [d]
  }

  lemma SameOrigin(d: Descriptor, o: Origin, isChain: bool, isInterrupt: bool, isrAddress: int, next: int)
    requires CarvedFrom(d, o)
    ensures CarvedFrom(d.(chained := isChain, isr := isInterrupt, isrAddress := isrAddress, chainPointer := next), o)
  {
  }

  lemma LinkedExtended(s: seq<Descriptor>, d: Descriptor, isChain: bool, isInterrupt: bool, isrAddress: int)
    requires Linked(s) && !d.chained && !d.isr && (s == [] || isChain != isInterrupt)
    ensures Linked(Extended(s, d, isChain, isInterrupt, isrAddress))
  {
  }

  lemma TablesOfMore(s: seq<Origin>, o: Origin)
    ensures TablesOf(s + [o]) == TablesOf(s) + multiset{o.table}
  {
    assert (s + [o])[..|s|] == s;
  }

  // ----- the chain's memory

  lemma {:induction false} TableCounted(s: seq<Origin>, i: nat, j: nat)
    requires i < |s| && j < |s|
    ensures s[i].table in TablesOf(s)
    ensures i != j && s[i].table == s[j].table ==> TablesOf(s)[s[i].table] >= 2
  {
    var rest, last := s[..|s| - 1], |s| - 1;
    if i < last {
      TableCounted(rest, i, if j < last then j else i);
    }
    if j < last {
      TableCounted(rest, j, if i < last then i else j);
    }
  }

  lemma {:induction false} SeparatedOnce(s: seq<Range>, r: Range)
    requires MemManager.Separated(s)
    ensures multiset(s)[r] <= 1
  {
    hide MemManager.Long;
    if s != [] {
      var rest, last := s[..|s| - 1], s[|s| - 1];
      assert s == rest + [last];
      SeparatedOnce(rest, r);
      if r == last && r in rest {
        var k :| 0 <= k < |rest| && rest[k] == r;
        SelfBefore(s, k, |s| - 1);
      }
    }
  }

  lemma SelfBefore(s: seq<Range>, i: nat, j: nat)
    requires MemManager.Separated(s) && i < j < |s|
    ensures s[i] != s[j]
  {
    assert MemManager.Long(s[i]);
  }

  lemma SeparatedDisjoint(s: seq<Range>, r: Range, q: Range)
    requires MemManager.Separated(s) && r in s && q in s && r != q
    ensures MemManager.Disjoint(r, q)
  {
  }

  lemma {:induction false} BufferCounted(s: seq<Origin>, i: nat, k: nat)
    requires i < |s| && k < 2
    ensures SourceOf(s[i], k) in BuffersOf(s)
  {
    hide BuffersOf;
    var last := |s| - 1;
    if i < last {
      BufferCounted(s[..last], i, k);
    }
    BuffersStep(s, SourceOf(s[i], k));
  }

  lemma BuffersStep(s: seq<Origin>, r: Range)
    requires s != []
    ensures BuffersOf(s)[r] == BuffersOf(s[..|s| - 1])[r] + (if r == s[|s| - 1].src then 1 else 0)
                               + if r == s[|s| - 1].dst then 1 else 0
  {
  }

  lemma {:induction false} BuffersCounted(s: seq<Origin>, i: nat, k: nat, j: nat, l: nat)
    requires i < j < |s| && k < 2 && l < 2 && SourceOf(s[i], k) == SourceOf(s[j], l)
    ensures BuffersOf(s)[SourceOf(s[i], k)] >= 2
  {
    hide BuffersOf;
    var last := |s| - 1;
    if j < last {
      BuffersCounted(s[..last], i, k, j, l);
    } else {
      BufferCounted(s[..last], i, k);
    }
    BuffersStep(s, SourceOf(s[i], k));
  }

  /** A descriptor's memory: what it reads from (0), what it writes to (1), and its table (2). */
  function Section(d: Descriptor, k: nat): Range
    requires k < 3
  {
    if k == 0 then Range(d.src, d.src + d.size)
    else if k == 1 then Range(d.dst, d.dst + d.size)
    else Range(d.location, d.location + TABLE_SIZE)
  }

  /** The range that a descriptor's section is carved from. */
  function SourceOf(o: Origin, k: nat): Range
    requires k < 3
  {
    if k == 0 then o.src else if k == 1 then o.dst else o.table
  }

  lemma SectionInSource(d: Descriptor, o: Origin, k: nat)
    requires CarvedFrom(d, o) && k < 3
    ensures SourceOf(o, k).first <= Section(d, k).first && Section(d, k).second <= SourceOf(o, k).second
  {
    hide MemManager.Long, BufferStart, BufferSize, AlignDown;
    InRange(o.src, o.dst, d.z);
    InRange(o.dst, o.src, d.z);
    TableInRange(o.table);
  }

  ghost predicate ListsApart(ls: seq<Range>, fetch: seq<Range>) {
    && MemManager.Separated(ls) && MemManager.Separated(fetch)
    && forall r, q :: r in ls && q in fetch ==> MemManager.Disjoint(r, q)
  }

  lemma SourcesApart(origin: seq<Origin>, ls: seq<Range>, fetch: seq<Range>, i: nat, k: nat, j: nat, l: nat)
    requires ListsApart(ls, fetch) && TablesOf(origin) <= multiset(fetch)
    requires i < |origin| && j < |origin| && k < 3 && l < 3 && (i != j || k != l)
    requires multiset{origin[i].src, origin[i].dst} <= multiset(ls)
    requires multiset{origin[j].src, origin[j].dst} <= multiset(ls)
    requires i == j || k == 2 || l == 2 || BuffersOf(origin) <= multiset(ls)
    ensures MemManager.Disjoint(SourceOf(origin[i], k), SourceOf(origin[j], l))
  {
    hide MemManager.Separated, MemManager.Disjoint, TablesOf, BuffersOf;
    var o, p := origin[i], origin[j];
    var r, q := SourceOf(o, k), SourceOf(p, l);
    PairDistinct(ls, o.src, o.dst);
    PairDistinct(ls, p.src, p.dst);
    TableCounted(origin, i, j);
    TableCounted(origin, j, i);
    assert o.table in multiset(fetch) && p.table in multiset(fetch);
    if k == 2 && l == 2 {
      SeparatedOnce(fetch, o.table);
      SeparatedDisjoint(fetch, r, q);
    } else if k < 2 && l < 2 {
      SeparatedOnce(ls, r);
      if i < j && r == q {
        BuffersCounted(origin, i, k, j, l);
      } else if j < i && r == q {
        BuffersCounted(origin, j, l, i, k);
      }
      SeparatedDisjoint(ls, r, q);
    } else {
      DisjointSymmetric(r, q);
    }
  }

  lemma DisjointSymmetric(r: Range, q: Range)
    ensures MemManager.Disjoint(r, q) <==> MemManager.Disjoint(q, r)
  {
  }

  /** ls and fetch are the initial lists arranged by address, as the allocator keeps them:
      no two sections of a chain overlap, save that buffers of different descriptors may
      when ranges are used again. */
  lemma ChainMemoryApart(s: seq<Descriptor>, origin: seq<Origin>, ls: seq<Range>, fetch: seq<Range>,
      free: multiset<Range>, isrs: multiset<Range>, i: nat, k: nat, j: nat, l: nat)
    requires AllCarved(s, origin, multiset(ls)) && Conserved(free, TablesOf(origin), isrs, multiset(fetch))
    requires ListsApart(ls, fetch) && i < |s| && j < |s| && k < 3 && l < 3 && (i != j || k != l)
    requires i == j || k == 2 || l == 2 || BuffersOf(origin) <= multiset(ls)
    ensures MemManager.Disjoint(Section(s[i], k), Section(s[j], l))
  {
    hide ListsApart, TablesOf, BuffersOf, CarvedFrom;
    SectionInSource(s[i], origin[i], k);
    SectionInSource(s[j], origin[j], l);
    SourcesApart(origin, ls, fetch, i, k, j, l);
  }

  lemma InRange(r: Range, q: Range, z: Size)
    requires MemManager.Long(r) && MemManager.Long(q)
    ensures r.first <= BufferStart(r.first, z) && BufferStart(r.first, z) + BufferSize(r, q) <= r.second
    ensures BufferSize(r, q) == BufferSize(q, r)
  {
    BufferInside(r, q, z);
  }

  lemma TableInRange(r: Range)
    requires MemManager.Long(r)
    ensures r.first <= AlignDown(r.first, 3) + 8 && AlignDown(r.first, 3) + 8 + TABLE_SIZE <= r.second
  {
  }

  lemma PairDistinct(ls: seq<Range>, r: Range, q: Range)
    requires MemManager.Separated(ls) && multiset{r, q} <= multiset(ls)
    ensures r in ls && q in ls && r != q
  {
    hide MemManager.Separated;
    SeparatedOnce(ls, r);
    assert r in multiset(ls) && q in multiset(ls);
    assert multiset{r, q}[r] <= multiset(ls)[r];
  }

  /** Whatever shape is drawn for it, a descriptor of the chain moves bytes only inside
      the two ranges it is carved from. */
  lemma ChainTransferInside(d: Descriptor, o: Origin, reg: int, draw: Draw, twoD: bool, forward: bool)
    requires CarvedFrom(d, o) && DrawAllowed(draw, BufferSize(o.src, o.dst))
    ensures d.size >= 8
    ensures var t := TransferOf(d.src, d.dst, d.z, d.size, draw, twoD, forward, d.auto);
            forall k :: 0 <= k < |Copied(t, reg, t.shape.countOuter, 0)| ==>
              var (a, b) := Copied(t, reg, t.shape.countOuter, 0)[k];
              o.dst.first <= b < o.dst.second && if d.auto then a == reg else o.src.first <= a < o.src.second
  {
    hide TransferOf, Copied, BufferStart;
    TransferInsideRanges(o.src, o.dst, d.z, reg, draw, twoD, forward, d.auto);
  }
}
