/** Four hosts drive their transaction streams concurrently; the expected memory is
    predicted by running them one after another (mgen/main.cpp). */
module HostSchedule {
  import opened Words

  const MAX_HOSTS: nat := 4

  /** A byte-wise view of one transaction. A read returns |data| bytes to the host. */
  datatype Tran = Tran(isWrite: bool, dst: int, data: seq<Byte>)

  /** Who may access an address, and where a host keeps its copy of it. */
  datatype Plan = Plan(own: (int, int) -> bool, copy: (int, int) -> int)

  /** Own addresses and copies of different hosts never meet. */
  ghost predicate Exclusive(p: Plan) {
    && (forall h, g, a :: p.own(h, a) && p.own(g, a) ==> h == g)
    && (forall h, a, b :: p.own(h, a) && p.own(h, b) && p.copy(h, a) == p.copy(h, b) ==> a == b)
    && (forall h, g, a, b :: p.own(h, a) && p.own(g, b) && p.copy(h, a) == p.copy(g, b) ==> h == g)
    && (forall h, g, a :: p.own(h, a) ==> !p.own(g, p.copy(h, a)))
  }

  /** A transaction of host h on its own addresses, whose copies are as contiguous. */
  ghost predicate Fits(p: Plan, h: int, t: Tran) {
    forall a :: In(a, t.dst, |t.data|) ==> p.own(h, a) && p.copy(h, a) == p.copy(h, t.dst) + (a - t.dst)
  }

  ghost predicate AllFit(p: Plan, streams: seq<seq<Tran>>) {
    |streams| == MAX_HOSTS
    && forall h, k :: 0 <= h < MAX_HOSTS && 0 <= k < |streams[h]| ==> Fits(p, h, streams[h][k])
  }

  /** Address a is byte a - base of an access of n bytes. */
  predicate In(a: int, base: int, n: int) {
    base <= a < base + n
  }

  // ----- the reference: the last byte a stream writes at an address

  datatype LastByte = Never | Last(b: Byte)

  function LastWrite(s: seq<Tran>, a: int): LastByte {
    if s == [] then Never
    else
      var t := s[|s| - 1];
      if t.isWrite && In(a, t.dst, |t.data|) then Last(t.data[a - t.dst]) else LastWrite(s[..|s| - 1], a)
  }

  // ----- the real run: any interleaving, on memory with any initial contents

  type Memory = int -> Byte

  function Perform(p: Plan, m: Memory, h: int, t: Tran): Memory {
    if t.isWrite then
      (a: int) => if In(a, t.dst, |t.data|) then t.data[a - t.dst] else m(a)
    else
      (a: int) => if In(a, p.copy(h, t.dst), |t.data|) then m(t.dst + (a - p.copy(h, t.dst))) else m(a)
  }

  function Count(sched: seq<int>, h: int): (n: nat) {
    if sched == [] then 0
    else Count(sched[..|sched| - 1], h) + if sched[|sched| - 1] == h then 1 else 0
  }

  /** sched names, step by step, the host whose next transaction is performed. */
  ghost predicate Possible<T>(streams: seq<seq<T>>, sched: seq<int>) {
    |streams| == MAX_HOSTS
    && (forall k :: 0 <= k < |sched| ==> 0 <= sched[k] < MAX_HOSTS)
    && forall h :: 0 <= h < MAX_HOSTS ==> Count(sched, h) <= |streams[h]|
  }

  ghost predicate Complete<T>(streams: seq<seq<T>>, sched: seq<int>) {
    Possible(streams, sched) && forall h :: 0 <= h < MAX_HOSTS ==> Count(sched, h) == |streams[h]|
  }

  lemma PossiblePrefix<T>(streams: seq<seq<T>>, sched: seq<int>)
    requires Possible(streams, sched) && sched != []
    ensures Possible(streams, sched[..|sched| - 1])
    ensures var h := sched[|sched| - 1]; 0 <= h < MAX_HOSTS && Count(sched[..|sched| - 1], h) < |streams[h]|
  {
    forall h | 0 <= h < MAX_HOSTS
      ensures Count(sched[..|sched| - 1], h) <= |streams[h]|
    {
      assert Count(sched, h) <= |streams[h]|;
    }
    var h := sched[|sched| - 1];
    assert Count(sched, h) <= |streams[h]|;
  }

  lemma {:induction false} CountConcat(a: seq<int>, b: seq<int>, h: int)
    ensures Count(a + b, h) == Count(a, h) + Count(b, h)
  {
    if b == [] {
      assert a + b == a;
    } else {
      CountConcat(a, b[..|b| - 1], h);
      assert (a + b)[..|a + b| - 1] == a + b[..|b| - 1];
    }
  }

  /** n turns of one host. */
  function Turns(h: int, n: nat): (r: seq<int>) {
    if n == 0 then [] else Turns(h, n - 1) + [h]
  }

  lemma {:induction false} TurnsCount(h: int, n: nat, g: int)
    ensures Count(Turns(h, n), g) == if g == h then n else 0
    ensures forall k :: 0 <= k < |Turns(h, n)| ==> Turns(h, n)[k] == h
  {
    if n > 0 {
      TurnsCount(h, n - 1, g);
      assert Turns(h, n)[..|Turns(h, n)| - 1] == Turns(h, n - 1);
    }
  }

  /** Any streams can be run to their end: one host after another is one way. */
  lemma ScheduleExists<T>(streams: seq<seq<T>>) returns (sched: seq<int>)
    requires |streams| == MAX_HOSTS
    ensures Complete(streams, sched)
  {
    hide Count, Turns;
    sched := Turns(0, |streams[0]|) + Turns(1, |streams[1]|) + Turns(2, |streams[2]|) + Turns(3, |streams[3]|);
    forall g | 0 <= g < MAX_HOSTS
      ensures Count(sched, g) == |streams[g]|
    {
      CountConcat(Turns(0, |streams[0]|), Turns(1, |streams[1]|), g);
      CountConcat(Turns(0, |streams[0]|) + Turns(1, |streams[1]|), Turns(2, |streams[2]|), g);
      CountConcat(Turns(0, |streams[0]|) + Turns(1, |streams[1]|) + Turns(2, |streams[2]|), Turns(3, |streams[3]|), g);
      TurnsCount(0, |streams[0]|, g);
      TurnsCount(1, |streams[1]|, g);
      TurnsCount(2, |streams[2]|, g);
      TurnsCount(3, |streams[3]|, g);
    }
    TurnsCount(0, |streams[0]|, 0);
    TurnsCount(1, |streams[1]|, 0);
    TurnsCount(2, |streams[2]|, 0);
    TurnsCount(3, |streams[3]|, 0);
  }

  ghost function Execute(p: Plan, m: Memory, streams: seq<seq<Tran>>, sched: seq<int>): Memory
    requires Possible(streams, sched)
    decreases |sched|
  {
    if sched == [] then m
    else
      PossiblePrefix(streams, sched);
      var before, h := sched[..|sched| - 1], sched[|sched| - 1];
      Perform(p, Execute(p, m, streams, before), h, streams[h][Count(before, h)])
  }

  /** Where a read stores is the copy of an address of that host, hence nobody's own. */
  lemma CopyNotOwned(p: Plan, g: int, t: Tran, a: int)
    requires Exclusive(p) && Fits(p, g, t) && In(a, p.copy(g, t.dst), |t.data|)
    ensures var x := t.dst + (a - p.copy(g, t.dst)); p.own(g, x) && p.copy(g, x) == a
    ensures forall h :: !p.own(h, a)
  {
    var x := t.dst + (a - p.copy(g, t.dst));
    assert In(x, t.dst, |t.data|);
    assert p.copy(g, x) == a;
  }

  lemma EachFits(p: Plan, streams: seq<seq<Tran>>, h: int, k: nat)
    requires AllFit(p, streams) && 0 <= h < MAX_HOSTS && k < |streams[h]|
    ensures Fits(p, h, streams[h][k])
  {
  }

  /** Only its owner writes an address. */
  lemma OwnWrite(p: Plan, g: int, t: Tran, h: int, a: int)
    requires Exclusive(p) && Fits(p, g, t) && In(a, t.dst, |t.data|) && p.own(h, a)
    ensures g == h
  {
  }

  /** After any interleaving so far, an owned byte is the last one its own host wrote. */
  lemma {:induction false} ExecuteOwned(p: Plan, m: Memory, streams: seq<seq<Tran>>, sched: seq<int>, h: int, a: int)
    requires Exclusive(p) && AllFit(p, streams) && Possible(streams, sched)
    requires 0 <= h < MAX_HOSTS && p.own(h, a)
    ensures Count(sched, h) <= |streams[h]|
    ensures Execute(p, m, streams, sched)(a)
         == match LastWrite(streams[h][..Count(sched, h)], a) case Never => m(a) case Last(b) => b
  {
    hide Exclusive, Fits, AllFit;
    if sched != [] {
      PossiblePrefix(streams, sched);
      var before, g := sched[..|sched| - 1], sched[|sched| - 1];
      ExecuteOwned(p, m, streams, before, h, a);
      var n := Count(before, g);
      var t := streams[g][n];
      EachFits(p, streams, g, n);
      if !t.isWrite && In(a, p.copy(g, t.dst), |t.data|) {
        CopyNotOwned(p, g, t, a);
      } else if t.isWrite && In(a, t.dst, |t.data|) {
        OwnWrite(p, g, t, h, a);
      }
      if g == h {
        assert streams[h][..n + 1][..n] == streams[h][..n];
      }
    }
  }

  // ----- sign-off: every write is read back at the end

  function SignOffReads(s: seq<Tran>): seq<Tran> {
    if s == [] then []
    else
      var t := s[|s| - 1];
      SignOffReads(s[..|s| - 1]) + if t.isWrite then [t.(isWrite := false)] else []
  }

  function SignOffStreams(streams: seq<seq<Tran>>): (r: seq<seq<Tran>>)
    ensures |r| == |streams|
  {
    seq(|streams|, h requires 0 <= h < |streams| => SignOffReads(streams[h]))
  }

  ghost predicate ReadBack(s: seq<Tran>, a: int) {
    exists k :: 0 <= k < |s| && In(a, s[k].dst, |s[k].data|)
  }

  lemma {:induction false} SignOffReadsAre(s: seq<Tran>)
    ensures forall k :: 0 <= k < |SignOffReads(s)| ==>
              !SignOffReads(s)[k].isWrite
              && exists j :: 0 <= j < |s| && SignOffReads(s)[k] == s[j].(isWrite := false)
    ensures forall a :: LastWrite(s, a) != Never ==> ReadBack(SignOffReads(s), a)
  {
    if s != [] {
      var rest := s[..|s| - 1];
      SignOffReadsAre(rest);
      var r, q := SignOffReads(s), SignOffReads(rest);
      forall k | 0 <= k < |r|
        ensures !r[k].isWrite && exists j :: 0 <= j < |s| && r[k] == s[j].(isWrite := false)
      {
        if k < |q| {
          var j :| 0 <= j < |rest| && q[k] == rest[j].(isWrite := false);
          assert r[k] == s[j].(isWrite := false);
        } else {
          assert r[k] == s[|s| - 1].(isWrite := false);
        }
      }
      forall a | LastWrite(s, a) != Never
        ensures ReadBack(r, a)
      {
        if LastWrite(rest, a) != Never {
          var k :| 0 <= k < |q| && In(a, q[k].dst, |q[k].data|);
          assert r[k] == q[k];
        } else {
          assert In(a, r[|q|].dst, |r[|q|].data|);
        }
      }
    }
  }

  ghost predicate AllReads(s: seq<Tran>) {
    forall k :: 0 <= k < |s| ==> !s[k].isWrite
  }

  lemma {:induction false} ReadsWriteNothing(s: seq<Tran>, a: int)
    requires AllReads(s)
    ensures LastWrite(s, a) == Never
  {
    if s != [] {
      ReadsWriteNothing(s[..|s| - 1], a);
    }
  }

  /** While only reads run, owned bytes stay, and a byte read back is copied. */
  lemma {:induction false} ExecuteCopies(p: Plan, m: Memory, back: seq<seq<Tran>>, sched: seq<int>, h: int, a: int)
    requires Exclusive(p) && AllFit(p, back) && Possible(back, sched)
    requires forall g :: 0 <= g < MAX_HOSTS ==> AllReads(back[g])
    requires 0 <= h < MAX_HOSTS && p.own(h, a)
    ensures Execute(p, m, back, sched)(a) == m(a)
    ensures Count(sched, h) <= |back[h]|
    ensures ReadBack(back[h][..Count(sched, h)], a) ==> Execute(p, m, back, sched)(p.copy(h, a)) == m(a)
  {
    ExecuteOwned(p, m, back, sched, h, a);
    ReadsWriteNothing(back[h][..Count(sched, h)], a);
    if sched != [] {
      PossiblePrefix(back, sched);
      var before, g := sched[..|sched| - 1], sched[|sched| - 1];
      ExecuteCopies(p, m, back, before, h, a);
      var n := Count(before, g);
      var t := back[g][n];
      assert Fits(p, g, t) && !t.isWrite;
      CopyStep(p, Execute(p, m, back, before), g, t, h, a);
      if g == h && ReadBack(back[h][..n + 1], a) && !ReadBack(back[h][..n], a) {
        LastReadBack(back[h], n, a);
      }
    }
  }

  /** One read: the copy of an owned byte is refreshed or left alone. */
  lemma CopyStep(p: Plan, m: Memory, g: int, t: Tran, h: int, a: int)
    requires Exclusive(p) && Fits(p, g, t) && !t.isWrite && p.own(h, a)
    ensures var c := Perform(p, m, g, t)(p.copy(h, a));
            (c == m(p.copy(h, a)) || c == m(a)) && (g == h && In(a, t.dst, |t.data|) ==> c == m(a))
  {
    var c := p.copy(h, a);
    if In(c, p.copy(g, t.dst), |t.data|) {
      CopyNotOwned(p, g, t, c);
    }
  }

  lemma LastReadBack(s: seq<Tran>, n: nat, a: int)
    requires n < |s| && ReadBack(s[..n + 1], a) && !ReadBack(s[..n], a)
    ensures In(a, s[n].dst, |s[n].data|)
  {
    assert forall j :: 0 <= j < n ==> s[..n + 1][j] == s[..n][j];
  }

  // ----- the prediction: hosts one after another

  /** Expected data after the first i bytes of a transaction whose copy is at src. */
  function EnterBytes(e: map<int, Byte>, t: Tran, src: int, i: nat): map<int, Byte>
    requires i <= |t.data|
  {
    if i == 0 then e
    else
      var m := EnterBytes(e, t, src, i - 1);
      if t.isWrite then m[t.dst + i - 1 := t.data[i - 1]][src + i - 1 := t.data[i - 1]]
      else if t.dst + i - 1 in m then m[src + i - 1 := m[t.dst + i - 1]]
      else m
  }

  function PredictTran(p: Plan, e: map<int, Byte>, h: int, t: Tran): map<int, Byte> {
    EnterBytes(e, t, p.copy(h, t.dst), |t.data|)
  }

  /** x in m and e alike. */
  predicate Same(m: map<int, Byte>, e: map<int, Byte>, x: int) {
    (x in m <==> x in e) && (x in e ==> m[x] == e[x])
  }

  /** Entry x of the table after i bytes, when destination and copy do not overlap. */
  lemma {:induction false} EnterBytesAt(e: map<int, Byte>, t: Tran, src: int, i: nat, x: int)
    requires i <= |t.data| && forall a :: In(a, src, |t.data|) ==> !In(a, t.dst, |t.data|)
    ensures var m := EnterBytes(e, t, src, i);
            if t.isWrite && In(x, t.dst, i) then x in m && m[x] == t.data[x - t.dst]
            else if t.isWrite && In(x, src, i) then x in m && m[x] == t.data[x - src]
            else if In(x, src, i) && t.dst + (x - src) in e then x in m && m[x] == e[t.dst + (x - src)]
            else Same(m, e, x)
  {
    if i > 0 {
      EnterBytesAt(e, t, src, i - 1, x);
      EnterBytesAt(e, t, src, i - 1, t.dst + i - 1);
      assert In(src + i - 1, src, |t.data|);
      assert !In(t.dst + i - 1, src, |t.data|);
    }
  }

  function PredictStream(p: Plan, e: map<int, Byte>, h: int, s: seq<Tran>): map<int, Byte> {
    if s == [] then e
    else PredictTran(p, PredictStream(p, e, h, s[..|s| - 1]), h, s[|s| - 1])
  }

  function Predict(p: Plan, streams: seq<seq<Tran>>, hosts: nat): map<int, Byte>
    requires hosts <= |streams|
  {
    if hosts == 0 then map[]
    else PredictStream(p, Predict(p, streams, hosts - 1), hosts - 1, streams[hosts - 1])
  }

  /** x is an address written by s of host h, or its copy, and the expected byte is the last one. */
  ghost predicate Expected(p: Plan, e: map<int, Byte>, h: int, s: seq<Tran>, a: int) {
    match LastWrite(s, a)
    case Never => a !in e && p.copy(h, a) !in e
    case Last(b) => a in e && e[a] == b && p.copy(h, a) in e && e[p.copy(h, a)] == b
  }

  /** What one prediction step does to an owned address and to its copy. */
  lemma PredictByte(p: Plan, e: map<int, Byte>, h: int, t: Tran, a: int)
    requires Exclusive(p) && Fits(p, h, t) && p.own(h, a)
    ensures var e', c := PredictTran(p, e, h, t), p.copy(h, a);
            if !In(a, t.dst, |t.data|) then
              (a in e' <==> a in e) && (a in e ==> e'[a] == e[a]) && (c in e' <==> c in e) && (c in e ==> e'[c] == e[c])
            else if t.isWrite then
              a in e' && c in e' && e'[a] == e'[c] == t.data[a - t.dst]
            else
              (a in e' <==> a in e) && (a in e ==> e'[a] == e[a] && c in e' && e'[c] == e[a])
              && (a !in e ==> (c in e' <==> c in e))
  {
    hide Exclusive, Fits;
    CopyPlace(p, h, t, a);
    CopyApart(p, h, t);
    EnterBytesAt(e, t, p.copy(h, t.dst), |t.data|, a);
    EnterBytesAt(e, t, p.copy(h, t.dst), |t.data|, p.copy(h, a));
  }

  lemma CopyApart(p: Plan, h: int, t: Tran)
    requires Exclusive(p) && Fits(p, h, t)
    ensures forall x :: In(x, p.copy(h, t.dst), |t.data|) ==> !In(x, t.dst, |t.data|)
  {
    forall x | In(x, p.copy(h, t.dst), |t.data|)
      ensures !In(x, t.dst, |t.data|)
    {
      CopyNotOwned(p, h, t, x);
    }
  }

  /** Where an owned address and its copy lie relative to an access and its copy. */
  lemma CopyPlace(p: Plan, h: int, t: Tran, a: int)
    requires Exclusive(p) && Fits(p, h, t) && p.own(h, a)
    ensures var src, c, n := p.copy(h, t.dst), p.copy(h, a), |t.data|;
            !In(a, src, n) && !In(c, t.dst, n) && (In(c, src, n) <==> In(a, t.dst, n))
            && (In(a, t.dst, n) ==> c - src == a - t.dst)
  {
    var src, c := p.copy(h, t.dst), p.copy(h, a);
    if In(a, src, |t.data|) {
      CopyNotOwned(p, h, t, a);
    }
    if In(c, src, |t.data|) {
      CopyNotOwned(p, h, t, c);
    }
  }

  /** Predicting one transaction of host h. */
  lemma PredictTranExpected(p: Plan, e: map<int, Byte>, h: int, s: seq<Tran>, t: Tran)
    requires Exclusive(p) && Fits(p, h, t)
    requires forall a :: p.own(h, a) ==> Expected(p, e, h, s, a)
    ensures forall a :: p.own(h, a) ==> Expected(p, PredictTran(p, e, h, t), h, s + [t], a)
  {
    hide Exclusive, Fits, PredictTran;
    assert (s + [t])[..|s|] == s;
    forall a | p.own(h, a)
      ensures Expected(p, PredictTran(p, e, h, t), h, s + [t], a)
    {
      assert Expected(p, e, h, s, a);
      PredictByte(p, e, h, t, a);
    }
  }

  /** An address that belongs to host h, or is a copy kept by it. */
  ghost predicate Touches(p: Plan, h: int, x: int) {
    exists a :: p.own(h, a) && (x == a || x == p.copy(h, a))
  }

  /** Only addresses of this host, and their copies, are changed. */
  lemma PredictTranFrame(p: Plan, e: map<int, Byte>, h: int, t: Tran)
    requires Exclusive(p) && Fits(p, h, t)
    ensures forall x :: !Touches(p, h, x) ==> Same(PredictTran(p, e, h, t), e, x)
  {
    forall x | !Touches(p, h, x)
      ensures Same(PredictTran(p, e, h, t), e, x)
    {
      if In(x, p.copy(h, t.dst), |t.data|) {
        CopyNotOwned(p, h, t, x);
      }
      CopyApart(p, h, t);
      EnterBytesAt(e, t, p.copy(h, t.dst), |t.data|, x);
    }
  }

  lemma {:induction false} PredictStreamExpected(p: Plan, e: map<int, Byte>, h: int, s: seq<Tran>)
    requires Exclusive(p) && forall k :: 0 <= k < |s| ==> Fits(p, h, s[k])
    requires forall x :: x in e ==> !Touches(p, h, x)
    ensures forall a :: p.own(h, a) ==> Expected(p, PredictStream(p, e, h, s), h, s, a)
    ensures forall x :: !Touches(p, h, x) ==> Same(PredictStream(p, e, h, s), e, x)
  {
    hide Exclusive, Fits, PredictTran;
    if s == [] {
      forall a | p.own(h, a)
        ensures a !in e && p.copy(h, a) !in e
      {
        assert Touches(p, h, a) && Touches(p, h, p.copy(h, a));
      }
    } else {
      var rest, t := s[..|s| - 1], s[|s| - 1];
      PredictStreamExpected(p, e, h, rest);
      var e1 := PredictStream(p, e, h, rest);
      PredictTranExpected(p, e1, h, rest, t);
      assert rest + [t] == s;
      PredictTranFrame(p, e1, h, t);
    }
  }

  /** Host h's zone is apart from host g's. */
  lemma ZonesApart(p: Plan, h: int, g: int, x: int)
    requires Exclusive(p) && h != g && Touches(p, h, x)
    ensures !Touches(p, g, x)
  {
  }

  /** After the first hosts: each of their written bytes, and its copy, is predicted, and
      nothing else is. */
  lemma {:induction false} PredictExpected(p: Plan, streams: seq<seq<Tran>>, hosts: nat)
    requires Exclusive(p) && AllFit(p, streams) && hosts <= MAX_HOSTS
    ensures forall h, a :: 0 <= h < hosts && p.own(h, a) ==> Expected(p, Predict(p, streams, hosts), h, streams[h], a)
    ensures forall x :: x in Predict(p, streams, hosts) ==> exists h :: 0 <= h < hosts && Touches(p, h, x)
  {
    hide Exclusive, Touches, PredictStream;
    if hosts > 0 {
      var n := hosts - 1;
      PredictExpected(p, streams, n);
      var e := Predict(p, streams, n);
      forall x | x in e
        ensures !Touches(p, n, x)
      {
        var h :| 0 <= h < n && Touches(p, h, x);
        ZonesApart(p, h, n, x);
      }
      PredictStreamExpected(p, e, n, streams[n]);
      forall x | x in Predict(p, streams, hosts)
        ensures exists h :: 0 <= h < hosts && Touches(p, h, x)
      {
        if !Touches(p, n, x) {
          assert Same(PredictStream(p, e, n, streams[n]), e, x);
        }
      }
      forall h, a | 0 <= h < hosts && p.own(h, a)
        ensures Expected(p, Predict(p, streams, hosts), h, streams[h], a)
      {
        if h < n {
          OwnTouches(p, h, a);
          ZonesApart(p, h, n, a);
          ZonesApart(p, h, n, p.copy(h, a));
          assert Expected(p, e, h, streams[h], a);
        }
      }
    }
  }

  lemma OwnTouches(p: Plan, h: int, a: int)
    requires p.own(h, a)
    ensures Touches(p, h, a) && Touches(p, h, p.copy(h, a))
  {
  }

  // ----- the prediction holds for every schedule

  /** Whatever the interleaving of the four hosts' streams, and of the sign-off reads
      after them, memory ends with every predicted byte; every byte a host wrote last at
      an address is there, and so is its copy. */
  lemma PredictionHolds(p: Plan, m: Memory, streams: seq<seq<Tran>>, sched: seq<int>, signOff: seq<int>)
    requires Exclusive(p) && AllFit(p, streams)
    requires Complete(streams, sched) && Complete(SignOffStreams(streams), signOff)
    ensures var end := Execute(p, Execute(p, m, streams, sched), SignOffStreams(streams), signOff);
            && (forall x :: x in Predict(p, streams, MAX_HOSTS) ==> end(x) == Predict(p, streams, MAX_HOSTS)[x])
            && (forall h, a :: 0 <= h < MAX_HOSTS && p.own(h, a) && LastWrite(streams[h], a) != Never ==>
                  end(a) == end(p.copy(h, a)) == LastWrite(streams[h], a).b
                  && a in Predict(p, streams, MAX_HOSTS) && p.copy(h, a) in Predict(p, streams, MAX_HOSTS))
  {
    hide Exclusive, Predict, Execute;
    var e := Predict(p, streams, MAX_HOSTS);
    var end := Execute(p, Execute(p, m, streams, sched), SignOffStreams(streams), signOff);
    PredictExpected(p, streams, MAX_HOSTS);
    forall h, a | 0 <= h < MAX_HOSTS && p.own(h, a) && LastWrite(streams[h], a) != Never
      ensures end(a) == end(p.copy(h, a)) == LastWrite(streams[h], a).b && Expected(p, e, h, streams[h], a)
    {
      FinalByte(p, m, streams, sched, signOff, h, a);
    }
    forall x | x in e
      ensures end(x) == e[x]
    {
      var h :| 0 <= h < MAX_HOSTS && Touches(p, h, x);
      var a :| p.own(h, a) && (x == a || x == p.copy(h, a));
      assert Expected(p, e, h, streams[h], a);
    }
  }

  lemma FinalByte(p: Plan, m: Memory, streams: seq<seq<Tran>>, sched: seq<int>, signOff: seq<int>, h: int, a: int)
    requires Exclusive(p) && AllFit(p, streams)
    requires Complete(streams, sched) && Complete(SignOffStreams(streams), signOff)
    requires 0 <= h < MAX_HOSTS && p.own(h, a) && LastWrite(streams[h], a) != Never
    ensures var end := Execute(p, Execute(p, m, streams, sched), SignOffStreams(streams), signOff);
            end(a) == end(p.copy(h, a)) == LastWrite(streams[h], a).b
  {
    hide Exclusive, Execute;
    var back := SignOffStreams(streams);
    SignOffFits(p, streams);
    ExecuteOwned(p, m, streams, sched, h, a);
    assert streams[h][..Count(sched, h)] == streams[h];
    ExecuteCopies(p, Execute(p, m, streams, sched), back, signOff, h, a);
    assert back[h][..Count(signOff, h)] == back[h];
    SignOffReadsAre(streams[h]);
  }

  lemma SignOffFits(p: Plan, streams: seq<seq<Tran>>)
    requires AllFit(p, streams)
    ensures AllFit(p, SignOffStreams(streams))
    ensures forall g :: 0 <= g < MAX_HOSTS ==> AllReads(SignOffStreams(streams)[g])
  {
    var back := SignOffStreams(streams);
    forall g, k | 0 <= g < MAX_HOSTS && 0 <= k < |back[g]|
      ensures Fits(p, g, back[g][k]) && !back[g][k].isWrite
    {
      SignOffReadsAre(streams[g]);
      var j :| 0 <= j < |streams[g]| && back[g][k] == streams[g][j].(isWrite := false);
      assert Fits(p, g, streams[g][j]);
    }
  }

  // ----- the generator's table of expected data

  class ExpectedData {
    var expData: map<int, Byte>

    constructor ()
      ensures expData == map[]
    {
      expData := map[];
    }

    /** Enters one generated transaction whose copy is at src, byte by byte. */
    method Enter(t: Tran, src: int)
      modifies this
      ensures expData == EnterBytes(old(expData), t, src, |t.data|)
    {
      var i := 0;
      while i < |t.data|
        invariant 0 <= i <= |t.data|
        invariant expData == EnterBytes(old(expData), t, src, i)
      {
        if t.isWrite {
          expData := expData[t.dst + i := t.data[i]];
          expData := expData[src + i := t.data[i]];
        } else if t.dst + i in expData {
          expData := expData[src + i := expData[t.dst + i]];
        }
        i := i + 1;
      }
    }
  }
}
