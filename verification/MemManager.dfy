/** The memory-range allocator of igen (igen/mem_manager.h): two lists of free
    ranges, both ends inclusive, from which exclusive pieces are carved. */
module MemManager {
  import opened Words
  import opened Ranges

  const MAX_SUB_ROUTINE_SIZE: int := 256

  datatype ListId = LoadStore | Fetch

  /** The allocator's state: free ranges and the set of addresses handed out. */
  datatype Pool = Pool(ls: seq<Range>, fetch: seq<Range>, used: set<int>) {
    function List(id: ListId): seq<Range> {
      if id == LoadStore then ls else fetch
    }

    function WithList(id: ListId, s: seq<Range>): Pool {
      if id == LoadStore then this.(ls := s) else this.(fetch := s)
    }
  }

  predicate Holds(r: Range, a: int) {
    r.first <= a <= r.second
  }

  predicate Disjoint(r: Range, q: Range) {
    r.second < q.first || q.second < r.first
  }

  function Addresses(r: Range): set<int> {
    set a | r.first <= a <= r.second && Holds(r, a)
  }

  /** A range that can serve a subroutine request. */
  predicate Long(r: Range) {
    0 <= r.first && r.second < BASE && r.second - r.first >= MAX_SUB_ROUTINE_SIZE + 1
  }

  /** Ranges in increasing order without a common address. */
  ghost predicate Separated(s: seq<Range>) {
    (forall i :: 0 <= i < |s| ==> Long(s[i]))
    && (forall i, j :: 0 <= i < j < |s| ==> s[i].second < s[j].first)
  }

  ghost predicate Inside(r: Range, initial: seq<Range>) {
    exists i :: 0 <= i < |initial| && initial[i].first <= r.first && r.second <= initial[i].second
  }

  ghost predicate FreeInside(s: seq<Range>, initial: seq<Range>, used: set<int>) {
    forall i :: 0 <= i < |s| ==> Inside(s[i], initial) && Addresses(s[i]) !! used
  }

  /** The free lists are sorted, pairwise disjoint, inside the initial ranges, long
      enough, and disjoint from everything allocated; allocations stay inside too. */
  ghost predicate Consistent(p: Pool, initial: seq<Range>) {
    && Separated(p.ls) && Separated(p.fetch)
    && (forall i, j :: 0 <= i < |p.ls| && 0 <= j < |p.fetch| ==> Disjoint(p.ls[i], p.fetch[j]))
    && FreeInside(p.ls, initial, p.used) && FreeInside(p.fetch, initial, p.used)
    && (forall a :: a in p.used ==> exists i :: 0 <= i < |initial| && Holds(initial[i], a))
  }

  // ----- carving a range out of a free one

  /** What is left of r around gen: only pieces that can still serve a request. */
  function Pieces(r: Range, gen: Range): seq<Range> {
    (if gen.first - r.first > MAX_SUB_ROUTINE_SIZE + 1 then [Range(r.first, gen.first - 1)] else [])
    + (if r.second - gen.second > MAX_SUB_ROUTINE_SIZE + 1 then [Range(gen.second + 1, r.second)] else [])
  }

  predicate Within(gen: Range, r: Range) {
    r.first <= gen.first <= gen.second <= r.second
  }

  function Carved(s: seq<Range>, ind: nat, gen: Range): seq<Range>
    requires ind < |s|
  {
    s[..ind] + Pieces(s[ind], gen) + s[ind + 1..]
  }

  function Take(p: Pool, id: ListId, ind: nat, gen: Range): Pool
    requires ind < |p.List(id)|
  {
    p.WithList(id, Carved(p.List(id), ind, gen)).(used := p.used + Addresses(gen))
  }

  /** Every range of the carved list comes from one range of the old list, and avoids gen. */
  lemma CarvedFrom(s: seq<Range>, ind: nat, gen: Range, k: nat) returns (o: nat)
    requires Separated(s) && ind < |s| && Within(gen, s[ind])
    requires k < |Carved(s, ind, gen)|
    ensures var c := Carved(s, ind, gen)[k];
            o < |s| && s[o].first <= c.first && c.second <= s[o].second && Long(c) && Disjoint(c, gen)
    ensures k < ind ==> o == k && Carved(s, ind, gen)[k] == s[k]
    ensures ind <= k < ind + |Pieces(s[ind], gen)| ==> o == ind
    ensures k >= ind + |Pieces(s[ind], gen)| ==> o == k - |Pieces(s[ind], gen)| + 1 && Carved(s, ind, gen)[k] == s[o]
  {
    var n := |Pieces(s[ind], gen)|;
    o := if k < ind then k else if k < ind + n then ind else k - n + 1;
  }

  lemma CarvedSeparated(s: seq<Range>, ind: nat, gen: Range)
    requires Separated(s) && ind < |s| && Within(gen, s[ind])
    ensures Separated(Carved(s, ind, gen))
  {
    var t := Carved(s, ind, gen);
    forall i, j | 0 <= i < j < |t|
      ensures t[i].second < t[j].first
    {
      var oi := CarvedFrom(s, ind, gen, i);
      var oj := CarvedFrom(s, ind, gen, j);
    }
    forall i | 0 <= i < |t|
      ensures Long(t[i])
    {
      var oi := CarvedFrom(s, ind, gen, i);
    }
  }

  /** The ranges left stay inside, unused, and apart from whatever was apart before. */
  lemma CarvedFree(s: seq<Range>, ind: nat, gen: Range, initial: seq<Range>, used: set<int>)
    requires Separated(s) && ind < |s| && Within(gen, s[ind])
    requires FreeInside(s, initial, used)
    ensures FreeInside(Carved(s, ind, gen), initial, used + Addresses(gen))
    ensures forall q: Range, k: nat :: k < |Carved(s, ind, gen)| && (forall i :: 0 <= i < |s| ==> Disjoint(s[i], q))
              ==> Disjoint(Carved(s, ind, gen)[k], q)
  {
    var t := Carved(s, ind, gen);
    forall k: nat | k < |t|
      ensures Inside(t[k], initial) && Addresses(t[k]) !! used + Addresses(gen)
      ensures forall q: Range :: (forall i :: 0 <= i < |s| ==> Disjoint(s[i], q)) ==> Disjoint(t[k], q)
    {
      var o := CarvedFrom(s, ind, gen, k);
      assert Addresses(t[k]) <= Addresses(s[o]) && Inside(s[o], initial);
      assert forall q: Range :: Disjoint(s[o], q) ==> Disjoint(t[k], q);
    }
  }

  // ----- what carving leaves free

  /** The address is in one of the ranges. */
  ghost predicate InSome(s: seq<Range>, a: int) {
    exists i :: 0 <= i < |s| && Holds(s[i], a)
  }

  /** The address is in r, in the part on its side of gen, and that part is too short for
      a request of its own. */
  predicate Abandoned(r: Range, gen: Range, a: int) {
    || (r.first <= a < gen.first && gen.first - r.first <= MAX_SUB_ROUTINE_SIZE + 1)
    || (gen.second < a <= r.second && r.second - gen.second <= MAX_SUB_ROUTINE_SIZE + 1)
  }

  /** List t is what remains of s when gen is taken out of range ind: the other ranges are
      still there, and an address is free exactly when it was, is not taken, and does not
      lie in a part too short to keep. */
  ghost predicate Remains(s: seq<Range>, ind: nat, gen: Range, t: seq<Range>)
    requires ind < |s|
  {
    && (forall i :: 0 <= i < |s| && i != ind ==> s[i] in t)
    && (forall a :: InSome(t, a) <==> InSome(s, a) && !Holds(gen, a) && !Abandoned(s[ind], gen, a))
  }

  lemma CarvedRemains(s: seq<Range>, ind: nat, gen: Range)
    requires Separated(s) && ind < |s| && Within(gen, s[ind])
    ensures Remains(s, ind, gen, Carved(s, ind, gen))
  {
    var t, pieces := Carved(s, ind, gen), Pieces(s[ind], gen);
    forall i | 0 <= i < |s|
      ensures i < ind ==> t[i] == s[i]
      ensures i > ind ==> t[i + |pieces| - 1] == s[i]
    {
    }
    forall a
      ensures InSome(t, a) <==> InSome(s, a) && !Holds(gen, a) && !Abandoned(s[ind], gen, a)
    {
      if InSome(s, a) && !Holds(gen, a) && !Abandoned(s[ind], gen, a) {
        var i :| 0 <= i < |s| && Holds(s[i], a);
        StillFree(s, ind, gen, i, a);
      }
      if InSome(t, a) {
        var k :| 0 <= k < |t| && Holds(t[k], a);
        WasFree(s, ind, gen, k, a);
      }
    }
  }

  lemma StillFree(s: seq<Range>, ind: nat, gen: Range, i: nat, a: int)
    requires ind < |s| && Within(gen, s[ind]) && i < |s| && Holds(s[i], a)
    requires !Holds(gen, a) && !Abandoned(s[ind], gen, a)
    ensures InSome(Carved(s, ind, gen), a)
  {
    var t, pieces := Carved(s, ind, gen), Pieces(s[ind], gen);
    if i == ind {
      assert Holds(t[if a < gen.first then ind else ind + |pieces| - 1], a);
    } else {
      assert Holds(t[if i < ind then i else i + |pieces| - 1], a);
    }
  }

  lemma WasFree(s: seq<Range>, ind: nat, gen: Range, k: nat, a: int)
    requires Separated(s) && ind < |s| && Within(gen, s[ind])
    requires k < |Carved(s, ind, gen)| && Holds(Carved(s, ind, gen)[k], a)
    ensures InSome(s, a) && !Holds(gen, a) && !Abandoned(s[ind], gen, a)
  {
    var o := CarvedFrom(s, ind, gen, k);
    assert Holds(s[o], a);
    if o != ind {
      assert if o < ind then s[o].second < s[ind].first else s[ind].second < s[o].first;
    } else {
      assert Carved(s, ind, gen)[k] == Pieces(s[ind], gen)[k - ind];
    }
  }

  /** Carving keeps the allocator consistent, and takes only free addresses. */
  lemma TakeConsistent(p: Pool, initial: seq<Range>, id: ListId, ind: nat, gen: Range)
    requires Consistent(p, initial) && ind < |p.List(id)| && Within(gen, p.List(id)[ind])
    ensures Consistent(Take(p, id, ind, gen), initial)
    ensures Addresses(gen) !! p.used
    ensures Inside(gen, initial)
  {
    hide Separated, Carved;
    var s := p.List(id);
    var other := if id == LoadStore then p.fetch else p.ls;
    CarvedSeparated(s, ind, gen);
    CarvedFree(s, ind, gen, initial, p.used);
    assert Inside(s[ind], initial) && Addresses(gen) <= Addresses(s[ind]);
    forall i | 0 <= i < |other|
      ensures Addresses(other[i]) !! p.used + Addresses(gen)
      ensures forall k :: 0 <= k < |Carved(s, ind, gen)| ==> Disjoint(Carved(s, ind, gen)[k], other[i])
    {
      assert forall k :: 0 <= k < |s| ==> Disjoint(s[k], other[i]);
    }
  }

  // ----- requests, over whole runs

  /** The solver's constraint on a generated range of the given size. */
  predicate Solves(r: Range, first: int, size: int) {
    r.first <= first && first + size < r.second
  }

  ghost predicate CanServe(r: Range) {
    exists first :: Solves(r, first, MAX_SUB_ROUTINE_SIZE)
  }

  /** A subroutine request can be served from r exactly when r is long enough. */
  lemma RequestSolvable(r: Range)
    requires 0 <= r.first && r.second < BASE
    ensures CanServe(r) <==> Long(r)
  {
    if Long(r) {
      assert Solves(r, r.first, MAX_SUB_ROUTINE_SIZE);
    }
  }

  /** The first range of the list with room for range, or the length of the list. */
  function FindRange(s: seq<Range>, range: Range): (ind: nat)
    ensures ind <= |s|
    ensures ind < |s| ==> s[ind].first <= range.first && range.second < s[ind].second
    ensures forall i :: 0 <= i < ind ==> !(s[i].first <= range.first && range.second < s[i].second)
  {
    if s == [] then 0
    else if s[0].first <= range.first && range.second < s[0].second then 0
    else 1 + FindRange(s[1..], range)
  }

  /** What the generators ask for: a fresh subroutine range at the solver's choice, or
      a range at an address they already hold in a register. */
  datatype Request =
    | ByJump(ind: nat, first: int)
    | ByAddress(id: ListId, range: Range)

  /** The pool after a request, and the range it was given, if any. */
  function Serve(p: Pool, q: Request): (Pool, seq<Range>) {
    match q
    case ByJump(ind, first) =>
      if ind < |p.fetch| && Solves(p.fetch[ind], first, MAX_SUB_ROUTINE_SIZE) then
        var gen := Range(first, first + MAX_SUB_ROUTINE_SIZE);
        (Take(p, Fetch, ind, gen), [gen])
      else (p, [])
    case ByAddress(id, range) =>
      var ind := FindRange(p.List(id), range);
      if range.first < range.second && ind < |p.List(id)| then
        (Take(p, id, ind, range), [range])
      else (p, [])
  }

  function Run(p: Pool, qs: seq<Request>): (Pool, seq<Range>) {
    if qs == [] then (p, [])
    else
      var (p1, given) := Run(p, qs[..|qs| - 1]);
      var (p2, more) := Serve(p1, qs[|qs| - 1]);
      (p2, given + more)
  }

  lemma ServeSafe(p: Pool, initial: seq<Range>, q: Request)
    requires Consistent(p, initial)
    ensures var (p', given) := Serve(p, q);
            && Consistent(p', initial)
            && |given| <= 1
            && (given == [] ==> p' == p)
            && (given != [] ==>
                  p'.used == p.used + Addresses(given[0]) && Addresses(given[0]) !! p.used
                  && Inside(given[0], initial))
  {
    hide Consistent, Inside;
    var (p', given) := Serve(p, q);
    if given != [] {
      match q
      case ByJump(ind, first) => TakeConsistent(p, initial, Fetch, ind, given[0]);
      case ByAddress(id, range) => TakeConsistent(p, initial, id, FindRange(p.List(id), range), range);
    }
  }

  /** A request is served exactly when there is room for it: a subroutine range where the
      solver put it, a range at an address in one of the free ranges. */
  lemma ServedIff(p: Pool, q: Request)
    ensures var (p', given) := Serve(p, q);
            match q
            case ByJump(ind, first) =>
              if ind < |p.fetch| && p.fetch[ind].first <= first && first + 256 < p.fetch[ind].second then
                given == [Range(first, first + 256)]
              else given == []
            case ByAddress(id, range) =>
              if range.first < range.second && HasRoom(p.List(id), range) then given == [range] else given == []
  {
  }

  ghost predicate HasRoom(s: seq<Range>, range: Range) {
    exists i :: 0 <= i < |s| && s[i].first <= range.first && range.second < s[i].second
  }

  lemma FetchServes(p: Pool, initial: seq<Range>)
    requires Consistent(p, initial)
    ensures forall i :: 0 <= i < |p.fetch| ==> CanServe(p.fetch[i])
  {
    forall i | 0 <= i < |p.fetch|
      ensures CanServe(p.fetch[i])
    {
      RequestSolvable(p.fetch[i]);
    }
  }

  /** After any sequence of requests the allocator is consistent and no two of the
      ranges it gave share an address; every fetch range can serve another request. */
  lemma {:induction false} RunSafe(p: Pool, initial: seq<Range>, qs: seq<Request>)
    requires Consistent(p, initial)
    ensures var (p', given) := Run(p, qs);
            && Consistent(p', initial)
            && p.used <= p'.used
            && (forall i :: 0 <= i < |given| ==> Inside(given[i], initial) && Addresses(given[i]) <= p'.used - p.used)
            && (forall i, j :: 0 <= i < j < |given| ==> Addresses(given[i]) !! Addresses(given[j]))
            && (forall i :: 0 <= i < |p'.fetch| ==> CanServe(p'.fetch[i]))
  {
    hide Consistent, Serve, Inside;
    if qs != [] {
      RunSafe(p, initial, qs[..|qs| - 1]);
      ServeSafe(Run(p, qs[..|qs| - 1]).0, initial, qs[|qs| - 1]);
    }
    FetchServes(Run(p, qs).0, initial);
  }

  // ----- nothing gets lost

  /** All addresses of the ranges. */
  function AllAddresses(s: seq<Range>): (f: set<int>) {
    if s == [] then {} else AllAddresses(s[..|s| - 1]) + Addresses(s[|s| - 1])
  }

  lemma {:induction false} FreeIsInSome(s: seq<Range>, a: int)
    ensures a in AllAddresses(s) <==> InSome(s, a)
  {
    if s != [] {
      var n := |s| - 1;
      FreeIsInSome(s[..n], a);
      if InSome(s, a) && !Holds(s[n], a) {
        var i :| 0 <= i < |s| && Holds(s[i], a);
        assert Holds(s[..n][i], a);
      }
      if InSome(s[..n], a) {
        var i :| 0 <= i < n && Holds(s[..n][i], a);
        assert Holds(s[i], a);
      }
    }
  }

  function Free(p: Pool): set<int> {
    AllAddresses(p.ls) + AllAddresses(p.fetch)
  }

  lemma {:induction false} AddressCount(first: int, second: int)
    requires first <= second + 1
    ensures |Addresses(Range(first, second))| == second + 1 - first
    decreases second - first
  {
    if first == second + 1 {
      assert Addresses(Range(first, second)) == {};
    } else {
      AddressCount(first, second - 1);
      assert Addresses(Range(first, second)) == Addresses(Range(first, second - 1)) + {second};
    }
  }

  /** first..second, when that is too short to keep. */
  function ShortPart(first: int, second: int): set<int> {
    if second + 1 - first <= MAX_SUB_ROUTINE_SIZE + 1 then Addresses(Range(first, second)) else {}
  }

  lemma ShortPartIs(first: int, second: int, a: int)
    requires first <= second + 1
    ensures a in ShortPart(first, second) <==>
              first <= a <= second && second + 1 - first <= MAX_SUB_ROUTINE_SIZE + 1
    ensures |ShortPart(first, second)| <= MAX_SUB_ROUTINE_SIZE + 1
  {
    AddressCount(first, second);
  }

  /** The addresses given up beside gen. */
  function Waste(r: Range, gen: Range): set<int> {
    ShortPart(r.first, gen.first - 1) + ShortPart(gen.second + 1, r.second)
  }

  lemma WasteIs(r: Range, gen: Range, a: int)
    requires Within(gen, r)
    ensures a in Waste(r, gen) <==> Abandoned(r, gen, a)
    ensures |Waste(r, gen)| <= 2 * (MAX_SUB_ROUTINE_SIZE + 1)
  {
    hide ShortPart;
    ShortPartIs(r.first, gen.first - 1, a);
    ShortPartIs(gen.second + 1, r.second, a);
    UnionSize(ShortPart(r.first, gen.first - 1), ShortPart(gen.second + 1, r.second));
  }

  lemma UnionSize(a: set<int>, b: set<int>)
    ensures |a + b| <= |a| + |b|
  {
    assert a + b == a + (b - a);
    assert b == (b - a) + (b * a);
  }

  /** What was free is free, given or waste, never two of them. */
  ghost predicate Accounted(before: set<int>, after: set<int>, taken: set<int>, waste: set<int>) {
    before == after + taken + waste && after !! taken && after !! waste && taken !! waste
  }

  lemma AccountedBeside(before: set<int>, after: set<int>, taken: set<int>, waste: set<int>, other: set<int>)
    requires Accounted(before, after, taken, waste) && other !! before
    ensures Accounted(before + other, after + other, taken, waste)
  {
  }

  lemma AccountedChain(f0: set<int>, f1: set<int>, f2: set<int>, t1: set<int>, t2: set<int>, w1: set<int>, w2: set<int>)
    requires Accounted(f0, f1, t1, w1) && Accounted(f1, f2, t2, w2)
    ensures Accounted(f0, f2, t1 + t2, w1 + w2)
  {
  }

  lemma CarvedAccounted(s: seq<Range>, ind: nat, gen: Range)
    requires Separated(s) && ind < |s| && Within(gen, s[ind])
    ensures Accounted(AllAddresses(s), AllAddresses(Carved(s, ind, gen)), Addresses(gen), Waste(s[ind], gen))
  {
    hide Separated, Carved, AllAddresses, Waste, InSome;
    CarvedRemains(s, ind, gen);
    var free, left, taken := AllAddresses(s), AllAddresses(Carved(s, ind, gen)), Addresses(gen);
    forall a
      ensures a in left <==> a in free && a !in taken && a !in Waste(s[ind], gen)
      ensures a in taken ==> a in free && a !in Waste(s[ind], gen)
      ensures a in Waste(s[ind], gen) ==> a in free
    {
      WasteIs(s[ind], gen, a);
      FreeIsInSome(s, a);
      FreeIsInSome(Carved(s, ind, gen), a);
      InSomeAt(s, ind, a);
      assert a in taken <==> Holds(gen, a);
    }
  }

  lemma InSomeAt(s: seq<Range>, i: nat, a: int)
    requires i < |s|
    ensures Holds(s[i], a) ==> InSome(s, a)
  {
  }

  /** The two lists have no address in common. */
  lemma ListsApart(p: Pool, initial: seq<Range>)
    requires Consistent(p, initial)
    ensures AllAddresses(p.ls) !! AllAddresses(p.fetch)
  {
    forall a | a in AllAddresses(p.ls) && a in AllAddresses(p.fetch)
      ensures false
    {
      FreeIsInSome(p.ls, a);
      FreeIsInSome(p.fetch, a);
    }
  }

  lemma TakeAccounted(p: Pool, initial: seq<Range>, id: ListId, ind: nat, gen: Range)
    requires Consistent(p, initial) && ind < |p.List(id)| && Within(gen, p.List(id)[ind])
    ensures var waste := Waste(p.List(id)[ind], gen);
            Accounted(Free(p), Free(Take(p, id, ind, gen)), Addresses(gen), waste)
            && |waste| <= 2 * (MAX_SUB_ROUTINE_SIZE + 1)
  {
    ListsApart(p, initial);
    hide Consistent, Carved, AllAddresses, Waste, Accounted, Addresses, Separated;
    var s, other := p.List(id), if id == LoadStore then p.fetch else p.ls;
    assert Separated(s) by {
      ListsSeparated(p, initial);
    }
    CarvedAccounted(s, ind, gen);
    WasteIs(s[ind], gen, 0);
    AccountedBeside(AllAddresses(s), AllAddresses(Carved(s, ind, gen)), Addresses(gen), Waste(s[ind], gen),
                    AllAddresses(other));
    FreeOf(p, id);
    FreeOf(Take(p, id, ind, gen), id);
  }

  lemma ListsSeparated(p: Pool, initial: seq<Range>)
    requires Consistent(p, initial)
    ensures Separated(p.ls) && Separated(p.fetch)
  {
  }

  lemma FreeOf(p: Pool, id: ListId)
    ensures Free(p) == AllAddresses(p.List(id)) + AllAddresses(if id == LoadStore then p.fetch else p.ls)
  {
    hide AllAddresses;
  }

  lemma ServeAccounted(p: Pool, initial: seq<Range>, q: Request) returns (waste: set<int>)
    requires Consistent(p, initial)
    ensures var (p', given) := Serve(p, q);
            Accounted(Free(p), Free(p'), AllAddresses(given), waste) && p'.used == p.used + AllAddresses(given)
            && |waste| <= 2 * (MAX_SUB_ROUTINE_SIZE + 1) * |given|
  {
    hide Consistent, Free, Take, Waste, Addresses, Accounted, AllAddresses, Inside;
    ServeSafe(p, initial, q);
    NothingAccounted(Free(p));
    var (p', given) := Serve(p, q);
    waste := {};
    if given != [] {
      var id := if q.ByJump? then Fetch else q.id;
      var ind := if q.ByJump? then q.ind else FindRange(p.List(id), q.range);
      TakeAccounted(p, initial, id, ind, given[0]);
      waste := Waste(p.List(id)[ind], given[0]);
      OneRange(given[0]);
    }
  }

  lemma OneRange(r: Range)
    ensures AllAddresses([r]) == Addresses(r)
  {
    assert [r][..0] == [];
    assert AllAddresses([r]) == AllAddresses([r][..0]) + Addresses(r);
  }

  lemma {:induction false} AddressesConcat(s: seq<Range>, t: seq<Range>)
    ensures AllAddresses(s + t) == AllAddresses(s) + AllAddresses(t)
  {
    if t == [] {
      assert s + t == s;
    } else {
      AddressesConcat(s, t[..|t| - 1]);
      assert (s + t)[..|s + t| - 1] == s + t[..|t| - 1];
    }
  }

  /** Over any sequence of requests: every address that was free is still free, in a range
      given, or waste, and there are at most two short parts of waste for a range given. */
  lemma {:induction false} RunConserves(p: Pool, initial: seq<Range>, qs: seq<Request>) returns (waste: set<int>)
    requires Consistent(p, initial)
    ensures var (p', given) := Run(p, qs);
            Accounted(Free(p), Free(p'), AllAddresses(given), waste) && p'.used == p.used + AllAddresses(given)
            && |waste| <= 2 * (MAX_SUB_ROUTINE_SIZE + 1) * |given|
  {
    hide Consistent, Free, Serve, Accounted, AllAddresses;
    waste := {};
    NothingAccounted(Free(p));
    if qs != [] {
      var rest, q := qs[..|qs| - 1], qs[|qs| - 1];
      waste := RunConserves(p, initial, rest);
      RunSafe(p, initial, rest);
      var w := ServeAccounted(Run(p, rest).0, initial, q);
      AddressesConcat(Run(p, rest).1, Serve(Run(p, rest).0, q).1);
      UnionSize(waste, w);
      AccountedChain(Free(p), Free(Run(p, rest).0), Free(Run(p, qs).0), AllAddresses(Run(p, rest).1),
                     AllAddresses(Serve(Run(p, rest).0, q).1), waste, w);
      waste := waste + w;
    }
  }

  lemma NothingAccounted(f: set<int>)
    ensures Accounted(f, f, AllAddresses([]), {}) && AllAddresses([]) == {}
  {
  }

  // ----- the sections to emit

  /** Half-open cover: address a is emitted for some range. */
  ghost predicate Covered(s: seq<Range>, a: int) {
    exists i :: 0 <= i < |s| && s[i].first <= a < s[i].second
  }

  /** In order, with a gap between neighbours. */
  ghost predicate Gapped(s: seq<Range>) {
    forall i, j :: 0 <= i < j < |s| ==> s[i].second < s[j].first
  }

  ghost predicate SortedByFirst(s: seq<Range>) {
    forall i, j :: 0 <= i < j < |s| ==> s[i].first <= s[j].first
  }

  lemma CoveredSame(s: seq<Range>, t: seq<Range>)
    requires multiset(s) == multiset(t)
    ensures forall a :: Covered(s, a) <==> Covered(t, a)
  {
    forall a
      ensures Covered(s, a) <==> Covered(t, a)
    {
      if Covered(s, a) {
        var i :| 0 <= i < |s| && s[i].first <= a < s[i].second;
        assert s[i] in multiset(t);
      }
      if Covered(t, a) {
        var i :| 0 <= i < |t| && t[i].first <= a < t[i].second;
        assert t[i] in multiset(s);
      }
    }
  }

  /** Merging the range after it into the one at position it. */
  function Merged(s: seq<Range>, it: nat): seq<Range>
    requires it + 1 < |s|
  {
    var second := if s[it + 1].second > s[it].second then s[it + 1].second else s[it].second;
    s[..it] + [Range(s[it].first, second)] + s[it + 2..]
  }

  lemma MergedCovers(s: seq<Range>, it: nat)
    requires it + 1 < |s| && SortedByFirst(s) && s[it + 1].first <= s[it].second
    ensures forall a :: Covered(Merged(s, it), a) <==> Covered(s, a)
    ensures SortedByFirst(Merged(s, it))
  {
    var t := Merged(s, it);
    forall a
      ensures Covered(t, a) <==> Covered(s, a)
    {
      if Covered(s, a) {
        var i :| 0 <= i < |s| && s[i].first <= a < s[i].second;
        var k := if i <= it then i else i - 1;
        assert t[k].first <= a < t[k].second;
      }
      if Covered(t, a) {
        var k :| 0 <= k < |t| && t[k].first <= a < t[k].second;
        if k == it {
          assert s[it].first <= a < s[it].second || s[it + 1].first <= a < s[it + 1].second;
        } else {
          assert t[k] == if k < it then s[k] else s[k + 1];
        }
      }
    }
  }

  /** The first it ranges end before the next one starts. */
  ghost predicate GappedTo(s: seq<Range>, it: nat) {
    forall i :: 0 <= i < it && i + 1 < |s| ==> s[i].second < s[i + 1].first
  }

  lemma MergedGaps(s: seq<Range>, it: nat)
    requires it + 1 < |s| && GappedTo(s, it)
    ensures GappedTo(Merged(s, it), it) && |Merged(s, it)| == |s| - 1
  {
  }

  lemma AnotherGap(s: seq<Range>, it: nat)
    requires it + 1 < |s| && GappedTo(s, it) && s[it].second < s[it + 1].first
    ensures GappedTo(s, it + 1)
  {
  }

  lemma AllGapped(s: seq<Range>, it: nat)
    requires it + 1 >= |s| && SortedByFirst(s) && GappedTo(s, it)
    ensures Gapped(s)
  {
    forall i, j | 0 <= i < j < |s|
      ensures s[i].second < s[j].first
    {
      assert s[i].second < s[i + 1].first;
      assert i + 1 < j ==> s[i + 1].first <= s[j].first;
    }
  }

  lemma SortSorted(s: seq<Range>)
    ensures multiset(Sort(s)) == multiset(s) && SortedByFirst(Sort(s)) && GappedTo(Sort(s), 0)
  {
  }

  // ----- the allocator object

  /** Each range starts after the one before it ends. */
  predicate InOrder(s: seq<Range>) {
    forall i :: 0 <= i && i + 1 < |s| ==> s[i].second < s[i + 1].first
  }

  predicate AllLong(s: seq<Range>) {
    forall i :: 0 <= i < |s| ==> Long(s[i])
  }

  lemma SameElements(s: seq<Range>, t: seq<Range>)
    requires multiset(s) == multiset(t)
    ensures AllLong(s) ==> AllLong(t)
    ensures |s| == |t|
  {
    assert |multiset(s)| == |s| && |multiset(t)| == |t|;
    forall i | AllLong(s) && 0 <= i < |t|
      ensures Long(t[i])
    {
      assert t[i] in multiset(s);
    }
  }

  lemma BeforeNext(q: Range, list: seq<Range>, it: nat)
    requires it < |list| && Inside(q, list[..it])
    requires Separated(list[..it]) && (it > 0 ==> list[it - 1].second < list[it].first)
    ensures q.second < list[it].first && Inside(q, list[..it + 1])
  {
    var i :| 0 <= i < it && list[..it][i].first <= q.first && q.second <= list[..it][i].second;
    assert list[..it + 1][i] == list[..it][i] && list[..it][it - 1] == list[it - 1];
    if i < it - 1 {
      assert list[..it][i].second < list[..it][it - 1].first;
      assert Long(list[..it][it - 1]);
    }
  }

  /** One more initial range, put on either list. */
  lemma RangeAdded(before: Pool, id: ListId, list: seq<Range>, it: nat)
    requires it < |list| && Long(list[it]) && before.used == {}
    requires Separated(list[..it]) && Consistent(before, list[..it])
    requires it > 0 ==> list[it - 1].second < list[it].first
    ensures Separated(list[..it + 1])
    ensures Consistent(before.WithList(id, before.List(id) + [list[it]]), list[..it + 1])
  {
    var r := list[it];
    assert Inside(r, list[..it + 1]) by {
      assert list[..it + 1][it] == r;
    }
    forall i | 0 <= i < |before.ls|
      ensures before.ls[i].second < r.first && Inside(before.ls[i], list[..it + 1])
    {
      BeforeNext(before.ls[i], list, it);
    }
    forall i | 0 <= i < |before.fetch|
      ensures before.fetch[i].second < r.first && Inside(before.fetch[i], list[..it + 1])
    {
      BeforeNext(before.fetch[i], list, it);
    }
    assert Separated(list[..it + 1]) by {
      forall i | 0 <= i < it
        ensures list[i].second < r.first && Long(list[i])
      {
        assert list[..it][i] == list[i] && Long(list[..it][i]);
        assert Inside(list[i], list[..it]);
        BeforeNext(list[i], list, it);
      }
      forall i, j | 0 <= i < j < it
        ensures list[i].second < list[j].first
      {
        assert list[..it][i].second < list[..it][j].first;
      }
    }
  }

  /** The first it ranges of the list are in order and on one list or the other. */
  ghost predicate ReadSoFar(p: Pool, list: seq<Range>, it: nat)
    requires it <= |list|
  {
    && InOrder(list[..it]) && p.used == {}
    && multiset(p.fetch) + multiset(p.ls) == multiset(list[..it])
    && (it > 0 ==> p.fetch != [])
    && (AllLong(list) ==> Separated(list[..it]) && Consistent(p, list[..it]))
  }

  /** The first it ranges of the list are where the choices put them; the first one is for
      code whatever its choice. */
  ghost predicate Spread(p: Pool, list: seq<Range>, forFetch: seq<bool>, it: nat)
    requires it <= |list| == |forFetch|
  {
    forall i :: 0 <= i < it ==> list[i] in if i == 0 || forFetch[i] then p.fetch else p.ls
  }

  lemma SpreadNext(p: Pool, id: ListId, list: seq<Range>, forFetch: seq<bool>, it: nat)
    requires it < |list| == |forFetch| && Spread(p, list, forFetch, it)
    requires id == if it == 0 || forFetch[it] then Fetch else LoadStore
    ensures Spread(p.WithList(id, p.List(id) + [list[it]]), list, forFetch, it + 1)
  {
  }

  lemma NothingSpread(list: seq<Range>, forFetch: seq<bool>)
    requires |list| == |forFetch|
    ensures Spread(Pool([], [], {}), list, forFetch, 0)
  {
  }

  lemma NothingRead(list: seq<Range>)
    ensures ReadSoFar(Pool([], [], {}), list, 0)
  {
  }

  lemma ReadNext(p: Pool, id: ListId, list: seq<Range>, it: nat)
    requires it < |list| && ReadSoFar(p, list, it)
    requires it == 0 ==> id == Fetch
    requires it != 0 ==> list[it - 1].second < list[it].first
    ensures ReadSoFar(p.WithList(id, p.List(id) + [list[it]]), list, it + 1)
  {
    hide Separated, Consistent;
    assert list[..it + 1] == list[..it] + [list[it]];
    if AllLong(list) {
      RangeAdded(p, id, list, it);
    }
  }

  lemma OverlapFound(list: seq<Range>, it: nat)
    requires 0 < it < |list| && list[it - 1].second >= list[it].first
    ensures !InOrder(list)
  {
  }

  lemma AllRead(p: Pool, ranges: seq<Range>, list: seq<Range>)
    requires ReadSoFar(p, list, |list|) && multiset(list) == multiset(ranges)
    ensures InOrder(list)
    ensures multiset(p.fetch) + multiset(p.ls) == multiset(ranges)
    ensures ranges != [] ==> p.fetch != []
    ensures AllLong(ranges) ==> Consistent(p, list)
  {
    assert list[..|list|] == list;
    SameElements(ranges, list);
  }

  /** The carved list put together the way the allocator does it, then sorted. */
  lemma CarvedSorted(s: seq<Range>, ind: nat, gen: Range)
    requires Separated(s) && ind < |s| && Within(gen, s[ind])
    ensures Sort(s[..ind] + s[ind + 1..] + Pieces(s[ind], gen)) == Carved(s, ind, gen)
  {
    CarvedSeparated(s, ind, gen);
    var t := Carved(s, ind, gen);
    assert SortedRanges(t);
    SortedUnique(Sort(s[..ind] + s[ind + 1..] + Pieces(s[ind], gen)), t);
  }

  class Manager {
    var rangeListForLS: seq<Range>
    var rangeListForFetch: seq<Range>
    var checkSet: set<int>
    var accessMem: map<int, Byte>
    var lsFillRangeList: seq<Range>
    var loadNotSafeRangeList: seq<Range>

    function State(): Pool
      reads this
    {
      Pool(rangeListForLS, rangeListForFetch, checkSet)
    }

    constructor ()
      ensures State() == Pool([], [], {}) && accessMem == map[]
      ensures lsFillRangeList == [] && loadNotSafeRangeList == []
    {
      rangeListForLS, rangeListForFetch, checkSet := [], [], {};
      accessMem, lsFillRangeList, loadNotSafeRangeList := map[], [], [];
    }

    /** Reads the initial ranges; forFetch is the random choice made for each of them.
        An overlap is an error. */
    method ReadInitialRanges(ranges: seq<Range>, forFetch: seq<bool>) returns (ok: bool)
      requires State() == Pool([], [], {}) && |forFetch| == |ranges|
      modifies `rangeListForLS, `rangeListForFetch
      ensures ok <==> InOrder(Sort(ranges))
      ensures ok ==> multiset(rangeListForFetch) + multiset(rangeListForLS) == multiset(ranges)
      ensures ok ==> |Sort(ranges)| == |forFetch| && Spread(State(), Sort(ranges), forFetch, |forFetch|)
      ensures ok && ranges != [] ==> rangeListForFetch != []
      ensures ok && AllLong(ranges) ==> Consistent(State(), Sort(ranges))
    {
      hide ReadSoFar, Sort, Spread;
      var list := Sort(ranges);
      SameElements(list, ranges);
      var it := 0;
      NothingRead(list);
      NothingSpread(list, forFetch);
      while it < |list|
        invariant 0 <= it <= |list|
        invariant ReadSoFar(State(), list, it) && Spread(State(), list, forFetch, it)
      {
        if it != 0 && list[it - 1].second >= list[it].first {
          OverlapFound(list, it);
          return false;
        }
        var id := if it == 0 || forFetch[it] then Fetch else LoadStore;
        ReadNext(State(), id, list, it);
        SpreadNext(State(), id, list, forFetch, it);
        if id == Fetch {
          rangeListForFetch := rangeListForFetch + [list[it]];
        } else {
          rangeListForLS := rangeListForLS + [list[it]];
        }
        it := it + 1;
      }
      AllRead(State(), ranges, list);
      return true;
    }

    /** Takes genRange out of one list and records its addresses; the overlap
        assertion inside never fails. */
    method RemoveUpdateRange(ghost initial: seq<Range>, id: ListId, ind: nat, genRange: Range)
      requires Consistent(State(), initial)
      requires ind < |State().List(id)| && Within(genRange, State().List(id)[ind])
      modifies `rangeListForLS, `rangeListForFetch, `checkSet
      ensures State() == Take(old(State()), id, ind, genRange)
      ensures Remains(old(State()).List(id), ind, genRange, State().List(id))
      ensures Consistent(State(), initial)
    {
      TakeConsistent(State(), initial, id, ind, genRange);
      hide Consistent;
      var list := State().List(id);
      SplitList(id, ind, genRange, list[ind]);
      MarkUsed(genRange);
    }

    /** Appends what is left on both sides of genRange, where it is long enough. */
    method AppendPieces(list: seq<Range>, r: Range, genRange: Range) returns (rest: seq<Range>)
      ensures rest == list + Pieces(r, genRange)
    {
      rest := list;
      if genRange.first - r.first > MAX_SUB_ROUTINE_SIZE + 1 {
        rest := rest + [Range(r.first, genRange.first - 1)];
      }
      if r.second - genRange.second > MAX_SUB_ROUTINE_SIZE + 1 {
        rest := rest + [Range(genRange.second + 1, r.second)];
      }
    }

    /** Erases the range, appends the pieces worth keeping, sorts again. */
    method SplitList(id: ListId, ind: nat, genRange: Range, r: Range)
      requires ind < |State().List(id)| && r == State().List(id)[ind] && Within(genRange, r)
      requires Separated(State().List(id))
      modifies `rangeListForLS, `rangeListForFetch
      ensures State() == old(State()).WithList(id, Carved(old(State()).List(id), ind, genRange))
      ensures Remains(old(State()).List(id), ind, genRange, State().List(id))
    {
      hide Remains;
      var list := State().List(id);
      var rest := AppendPieces(list[..ind] + list[ind + 1..], r, genRange);
      CarvedSorted(list, ind, genRange);
      CarvedRemains(list, ind, genRange);
      if id == LoadStore {
        rangeListForLS := Sort(rest);
      } else {
        rangeListForFetch := Sort(rest);
      }
    }

    /** Records the addresses of a range; none of them is there yet. */
    method MarkUsed(genRange: Range)
      requires Addresses(genRange) !! checkSet
      modifies `checkSet
      ensures checkSet == old(checkSet) + Addresses(genRange)
    {
      var j := genRange.first;
      while j <= genRange.second
        invariant genRange.first <= j
        invariant j <= genRange.second + 1 || j == genRange.first
        invariant checkSet == old(checkSet) + Addresses(Range(genRange.first, j - 1))
      {
        assert j in Addresses(genRange);
        assert j !in checkSet;
        checkSet := checkSet + {j};
        j := j + 1;
      }
    }

    /** Looks range up in a list; ind is where it was found. */
    method GetRangeIndex(id: ListId, range: Range) returns (found: bool, ind: nat)
      ensures ind == FindRange(State().List(id), range)
      ensures found <==> ind < |State().List(id)|
    {
      var list := State().List(id);
      ind := 0;
      while ind < |list| && !(list[ind].first <= range.first && range.second < list[ind].second)
        invariant ind <= |list|
        invariant FindRange(list, range) == ind + FindRange(list[ind..], range)
      {
        ind := ind + 1;
      }
      found := ind < |list|;
    }

    /** A subroutine range from list position ind, at the solver's choice of first;
        the returned start is moved up to an even address. */
    method GetGenRangeByJump(ghost initial: seq<Range>, ind: nat, first: int) returns (ok: bool, start: int)
      requires Consistent(State(), initial)
      requires rangeListForFetch != [] ==>
                 ind < |rangeListForFetch| && Solves(rangeListForFetch[ind], first, MAX_SUB_ROUTINE_SIZE)
      modifies `rangeListForLS, `rangeListForFetch, `checkSet
      ensures ok <==> old(rangeListForFetch) != []
      ensures ok ==> (State(), [Range(first, first + MAX_SUB_ROUTINE_SIZE)]) == Serve(old(State()), ByJump(ind, first))
      ensures ok ==> first <= start <= first + 1 && start % 2 == 0
      ensures !ok ==> State() == old(State())
      ensures Consistent(State(), initial)
    {
      if rangeListForFetch == [] {
        return false, 0;
      }
      RemoveUpdateRange(initial, Fetch, ind, Range(first, first + MAX_SUB_ROUTINE_SIZE));
      start := if first % 2 != 0 then first + 1 else first;
      ok := true;
    }

    /** The starts of all free ranges, as values for pointer registers. */
    method FillStartMemRanges() returns (v: seq<Word>)
      requires AllLong(rangeListForFetch) && AllLong(rangeListForLS)
      ensures |v| == |rangeListForFetch + rangeListForLS|
      ensures forall i :: 0 <= i < |v| ==> v[i] == (rangeListForFetch + rangeListForLS)[i].first
    {
      v := [];
      var it := 0;
      while it < |rangeListForFetch|
        invariant 0 <= it <= |rangeListForFetch| && |v| == it
        invariant forall i :: 0 <= i < it ==> v[i] == rangeListForFetch[i].first
      {
        v := v + [rangeListForFetch[it].first];
        it := it + 1;
      }
      it := 0;
      while it < |rangeListForLS|
        invariant 0 <= it <= |rangeListForLS| && |v| == |rangeListForFetch| + it
        invariant forall i :: 0 <= i < |v| ==> v[i] == (rangeListForFetch + rangeListForLS)[i].first
      {
        v := v + [rangeListForLS[it].first];
        it := it + 1;
      }
    }

    /** Records a byte of generated memory content. */
    method SetMem(addr: int, data: Byte)
      requires addr !in accessMem
      modifies `accessMem
      ensures accessMem == old(accessMem)[addr := data]
    {
      accessMem := accessMem[addr := data];
    }

    /** Merges the section list: same addresses, each in one section only. */
    method UnifyLSList()
      modifies `lsFillRangeList
      ensures forall a :: Covered(lsFillRangeList, a) <==> Covered(old(lsFillRangeList), a)
      ensures Gapped(lsFillRangeList)
    {
      hide Covered, SortedByFirst, GappedTo, Gapped, Merged;
      SortSorted(lsFillRangeList);
      CoveredSame(lsFillRangeList, Sort(lsFillRangeList));
      lsFillRangeList := Sort(lsFillRangeList);
      var it := 0;
      while it + 1 < |lsFillRangeList|
        invariant 0 <= it && (it > 0 ==> it < |lsFillRangeList|)
        invariant forall a :: Covered(lsFillRangeList, a) <==> Covered(old(lsFillRangeList), a)
        invariant SortedByFirst(lsFillRangeList) && GappedTo(lsFillRangeList, it)
        decreases |lsFillRangeList| - it
      {
        if lsFillRangeList[it + 1].first <= lsFillRangeList[it].second {
          MergedCovers(lsFillRangeList, it);
          MergedGaps(lsFillRangeList, it);
          lsFillRangeList := Merged(lsFillRangeList, it);
        } else {
          AnotherGap(lsFillRangeList, it);
          it := it + 1;
        }
      }
      AllGapped(lsFillRangeList, it);
    }

    /** Emits the bytes of one section. */
    method PrintSection(r: Range, random: int -> Byte) returns (out: seq<(int, Byte)>)
      ensures out == SectionBytes(r, accessMem, random)
    {
      out := [];
      var i := r.first;
      while i < r.second
        invariant if r.first <= r.second then r.first <= i <= r.second else i == r.first
        invariant out == SectionBytes(Range(r.first, i), accessMem, random)
      {
        out := out + [(i, EmittedByte(accessMem, i, random))];
        i := i + 1;
      }
    }

    /** The bytes emitted for all sections: each covered address once, in order,
        recorded bytes as recorded and the others random. */
    method PrintAssemblySections(random: int -> Byte) returns (out: seq<(int, Byte)>)
      modifies `lsFillRangeList
      ensures Emits(out, old(lsFillRangeList + loadNotSafeRangeList), accessMem, random)
    {
      lsFillRangeList := lsFillRangeList + loadNotSafeRangeList;
      UnifyLSList();
      var list, mem := lsFillRangeList, accessMem;
      out := [];
      var it := 0;
      while it < |list|
        invariant 0 <= it <= |list| && accessMem == mem
        invariant Emits(out, list[..it], mem, random)
      {
        var section := PrintSection(list[it], random);
        EmitsNext(out, list, it, mem, random);
        out := out + section;
        it := it + 1;
      }
      assert list[..it] == list;
    }
  }

  /** The byte written at an address of a section. */
  function EmittedByte(mem: map<int, Byte>, a: int, random: int -> Byte): Byte {
    if a in mem then mem[a] else random(a)
  }

  function SectionBytes(r: Range, mem: map<int, Byte>, random: int -> Byte): (out: seq<(int, Byte)>)
    ensures |out| == if r.first <= r.second then r.second - r.first else 0
    ensures forall i :: 0 <= i < |out| ==> out[i] == (r.first + i, EmittedByte(mem, r.first + i, random))
  {
    var n := if r.first <= r.second then r.second - r.first else 0;
    seq(n, i => (r.first + i, EmittedByte(mem, r.first + i, random)))
  }

  /** out lists the covered addresses in increasing order, each with its byte. */
  ghost predicate Emits(out: seq<(int, Byte)>, s: seq<Range>, mem: map<int, Byte>, random: int -> Byte) {
    && (forall i, j :: 0 <= i < j < |out| ==> out[i].0 < out[j].0)
    && (forall i :: 0 <= i < |out| ==> Covered(s, out[i].0) && out[i].1 == EmittedByte(mem, out[i].0, random))
    && (forall a :: Covered(s, a) ==> (a, EmittedByte(mem, a, random)) in out)
  }

  lemma EmitsNext(out: seq<(int, Byte)>, s: seq<Range>, it: nat, mem: map<int, Byte>, random: int -> Byte)
    requires it < |s| && Gapped(s) && Emits(out, s[..it], mem, random)
    ensures Emits(out + SectionBytes(s[it], mem, random), s[..it + 1], mem, random)
  {
    var section := SectionBytes(s[it], mem, random);
    CoveredNext(s, it);
    forall a | Covered(s[..it + 1], a)
      ensures (a, EmittedByte(mem, a, random)) in out + section
    {
      if !Covered(s[..it], a) {
        assert section[a - s[it].first] == (a, EmittedByte(mem, a, random));
      }
    }
  }

  /** Covered by one more range, which starts beyond all before it. */
  lemma CoveredNext(s: seq<Range>, it: nat)
    requires it < |s|
    ensures Gapped(s) ==> forall a :: Covered(s[..it], a) ==> a < s[it].first
    ensures forall a :: Covered(s[..it + 1], a) <==> Covered(s[..it], a) || s[it].first <= a < s[it].second
  {
    forall a
      ensures Covered(s[..it + 1], a) <==> Covered(s[..it], a) || s[it].first <= a < s[it].second
    {
      if Covered(s[..it], a) {
        var i :| 0 <= i < it && s[..it][i].first <= a < s[..it][i].second;
        assert s[..it + 1][i] == s[..it][i];
      }
      assert s[..it + 1][it] == s[it];
      if Covered(s[..it + 1], a) {
        var i :| 0 <= i < it + 1 && s[..it + 1][i].first <= a < s[..it + 1][i].second;
        assert i < it ==> s[..it][i] == s[..it + 1][i];
      }
    }
  }
}
