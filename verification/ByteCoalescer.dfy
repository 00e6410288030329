/** The byte coalescer (igen/run/full.awk): turns a dump of address-byte lines into
    aligned byte, short and word writes for the host driver. */
module ByteCoalescer {
  import opened Accesses
  import opened Words

  datatype Record = Record(addr: int, data: Byte)

  /** One emitted transaction: data is the 32-bit number printed, mode the type digit. */
  datatype Write = Write(addr: int, data: Word, mode: nat)

  /** The script's variables. data is empty before the first line; dataStr holds the
      bytes of the open group, the latest first. */
  datatype State = State(addr: int, size: nat, dataStr: seq<Byte>, sLength: nat, data: seq<Byte>)

  function Initial(chipOffset: int): State {
    State(chipOffset, 1, [], 4, [])
  }

  /** The number whose hexadecimal text is the given bytes, most significant first. */
  function Number(bytes: seq<Byte>): (n: nat)
  {
    if bytes == [] then 0 else 0x100 * Number(bytes[..|bytes| - 1]) + bytes[|bytes| - 1]
  }

  /** The k-th byte from the end of the text, 0 beyond its start. */
  function LowByte(bytes: seq<Byte>, k: nat): Byte {
    if k < |bytes| then bytes[|bytes| - 1 - k] else 0
  }

  lemma {:induction false} NumberBytes(bytes: seq<Byte>)
    requires |bytes| <= 4
    ensures Number(bytes) == WordOf(LowByte(bytes, 0), LowByte(bytes, 1), LowByte(bytes, 2), LowByte(bytes, 3))
  {
    if bytes != [] {
      var rest := bytes[..|bytes| - 1];
      NumberBytes(rest);
      assert forall k: nat :: LowByte(rest, k) == LowByte(bytes, k + 1);
      assert LowByte(bytes, 4) == 0;
    }
  }

  /** At most eight hexadecimal digits make a 32-bit number. */
  function Text(bytes: seq<Byte>): Word
    requires |bytes| <= 4
  {
    NumberBytes(bytes);
    Number(bytes)
  }

  function ModeOf(size: nat): nat {
    if size == 1 then 1 else if size == 2 then 5 else 9
  }

  function AlignedLength(addr: int): (n: nat)
    ensures 1 <= n <= 4
  {
    if addr % 4 == 0 then 4 else if addr % 2 == 0 then 2 else 1
  }

  /** Whether the line joins the open group. */
  predicate Joins(s: State, next: int) {
    s.addr + 1 == next && s.size < s.sLength
  }

  function Step(s: State, r: Record): (n: State)
  {
    var str := s.data + s.dataStr;
    if Joins(s, r.addr)
    then State(r.addr, s.size + 1, str, s.sLength, [r.data])
    else State(r.addr, 1, [], AlignedLength(r.addr), [r.data])
  }

  /** What the line makes the script print. */
  function Printed(s: State, next: int): seq<Write>
    requires |s.data + s.dataStr| <= 4
  {
    var str := s.data + s.dataStr;
    if !Joins(s, next) && |str| > 0 then
      [Write(s.addr - s.size + 1, Text(str), ModeOf(s.size))]
    else []
  }

  /** The script as a process over its lines. */
  class Script {
    var addr: int
    var size: nat
    var dataStr: seq<Byte>
    var sLength: nat
    var data: seq<Byte>

    function Current(): State
      reads this
    {
      State(addr, size, dataStr, sLength, data)
    }

    constructor (chipOffset: int)
      ensures Current() == Initial(chipOffset)
    {
      addr, size, dataStr, sLength, data := chipOffset, 1, [], 4, [];
    }

    method Line(r: Record) returns (out: seq<Write>)
      requires |data + dataStr| <= 4
      modifies this
      ensures Current() == Step(old(Current()), r)
      ensures out == Printed(old(Current()), r.addr)
    {
      out := [];
      dataStr := data + dataStr;
      if addr + 1 == r.addr && size < sLength {
        size := size + 1;
      } else {
        var mode := 9;
        if size == 1 { mode := 1; }
        if size == 2 { mode := 5; }
        if |dataStr| > 0 {
          out := [Write(addr - size + 1, Text(dataStr), mode)];
        }
        size := 1;
        dataStr := [];
        sLength := 1;
        if r.addr % 2 == 0 { sLength := 2; }
        if r.addr % 4 == 0 { sLength := 4; }
      }
      addr := r.addr;
      data := [r.data];
    }
  }

  // ----- whole dumps

  function After(chipOffset: int, lines: seq<Record>): State {
    if lines == [] then Initial(chipOffset)
    else Step(After(chipOffset, lines[..|lines| - 1]), lines[|lines| - 1])
  }

  lemma {:induction false} AfterFits(chipOffset: int, lines: seq<Record>)
    ensures var s := After(chipOffset, lines);
            |s.data + s.dataStr| <= s.size <= s.sLength <= 4 && s.size >= 1 && (lines != []
            ==> s.addr == lines[|lines| - 1].addr)
  {
    if lines != [] {
      AfterFits(chipOffset, lines[..|lines| - 1]);
    }
  }

  function Output(chipOffset: int, lines: seq<Record>): seq<Write> {
    if lines == [] then []
    else
      var before := lines[..|lines| - 1];
      AfterFits(chipOffset, before);
      Output(chipOffset, before) + Printed(After(chipOffset, before), lines[|lines| - 1].addr)
  }

  /** Number of bytes a driver stores for a write. */
  function Bytes(w: Write): (n: nat)
  {
    if w.mode / 4 < 4 then BytesOf(w.mode / 4) else 0
  }

  /** The byte the driver stores at address w.addr + i. */
  function StoredByte(w: Write, i: nat): Byte
    requires i < 8
  {
    ByteOf(0, w.data, i)
  }

  ghost predicate Increasing(d: seq<Record>) {
    forall i, j :: 0 <= i < j < |d| ==> d[i].addr < d[j].addr
  }

  ghost predicate Dumped(d: seq<Record>, a: int, b: Byte) {
    exists m :: 0 <= m < |d| && d[m].addr == a && d[m].data == b
  }

  ghost predicate Absent(d: seq<Record>, a: int) {
    forall m :: 0 <= m < |d| ==> d[m].addr != a
  }

  /** A write is naturally aligned and stores dumped bytes, or zero where the dump has nothing. */
  ghost predicate Sound(w: Write, d: seq<Record>) {
    && Bytes(w) in {1, 2, 4} && w.addr % Bytes(w) == 0
    && forall i :: 0 <= i < Bytes(w) ==>
         Dumped(d, w.addr + i, StoredByte(w, i)) || (StoredByte(w, i) == 0 && Absent(d, w.addr + i))
  }

  ghost predicate Writes(out: seq<Write>, a: int) {
    exists k :: 0 <= k < |out| && out[k].addr <= a < out[k].addr + Bytes(out[k])
  }

  /** The writes reproduce the dump. */
  ghost predicate Faithful(out: seq<Write>, d: seq<Record>) {
    && (forall k :: 0 <= k < |out| ==> Sound(out[k], d))
    && (forall m :: 0 <= m < |d| ==> Writes(out, d[m].addr))
  }

  // ----- one group

  /** The open group after n lines: its lines are consecutive addresses from an aligned start. */
  ghost predicate GroupOpen(s: State, d: seq<Record>, n: nat)
    requires 1 <= n <= |d|
  {
    && 1 <= s.size <= s.sLength && s.size <= n && s.sLength in {1, 2, 4}
    && d[n - s.size].addr % s.sLength == 0
    && s.addr == d[n - 1].addr
    && |s.data + s.dataStr| == s.size
    && (forall m :: n - s.size <= m < n ==>
          d[m].addr == s.addr - (n - 1 - m) && d[m].data == (s.data + s.dataStr)[n - 1 - m])
  }

  /** Byte i printed for a group. */
  lemma GroupBytes(str: seq<Byte>, i: nat)
    requires |str| <= 4 && i < 4
    ensures ByteOf(0, Text(str), i) == LowByte(str, i)
  {
    NumberBytes(str);
    BytesOfWord(LowByte(str, 0), LowByte(str, 1), LowByte(str, 2), LowByte(str, 3), 0);
    assert i == 0 || i == 1 || i == 2 || i == 3;
  }

  lemma GroupShape(s: State, d: seq<Record>, n: nat)
    requires 1 <= n <= |d| && GroupOpen(s, d, n)
    ensures 1 <= s.size <= s.sLength && s.size <= n && s.sLength in {1, 2, 4} && |s.data + s.dataStr| == s.size
    ensures d[n - s.size].addr == s.addr - s.size + 1 && d[n - 1].addr == s.addr
    ensures d[n - s.size].addr % s.sLength == 0
  {
  }

  /** The printed transaction: rounded up to the next access size. */
  lemma PrintedShape(s: State, next: int)
    requires 1 <= s.size <= s.sLength && s.sLength in {1, 2, 4} && |s.data + s.dataStr| == s.size && !Joins(s, next)
    ensures |Printed(s, next)| == 1
    ensures var w := Printed(s, next)[0];
            w.addr == s.addr - s.size + 1 && w.data == Text(s.data + s.dataStr)
            && Bytes(w) in {1, 2, 4} && s.sLength % Bytes(w) == 0
            && s.size <= Bytes(w) <= s.size + 1 && (Bytes(w) == s.size + 1 ==> s.size < s.sLength)
  {
    hide Text;
  }

  lemma StaysAligned(x: int, l: int, n: int)
    requires (l == 1 || l == 2 || l == 4) && (n == 1 || n == 2 || n == 4)
    requires l % n == 0 && x % l == 0
    ensures x % n == 0
  {
    if l == 4 {
      assert x % 4 == 0;
    } else if l == 2 {
      assert x % 2 == 0;
    }
  }

  /** Closing the group prints a sound write that covers all of it. */
  lemma GroupWrite(s: State, d: seq<Record>, n: nat, next: int)
    requires 1 <= n <= |d| && Increasing(d) && GroupOpen(s, d, n)
    requires !Joins(s, next) && s.addr < next && (n < |d| ==> d[n].addr == next)
    ensures |Printed(s, next)| == 1
    ensures var w := Printed(s, next)[0];
            Sound(w, d) && w.addr == d[n - s.size].addr && s.addr < w.addr + Bytes(w) <= next
  {
    hide ByteOf, Text, Increasing, GroupOpen, Dumped, Absent, Printed, Bytes;
    GroupShape(s, d, n);
    PrintedShape(s, next);
    var w := Printed(s, next)[0];
    var str := s.data + s.dataStr;
    StaysAligned(w.addr, s.sLength, Bytes(w));
    forall i | 0 <= i < Bytes(w)
      ensures Dumped(d, w.addr + i, StoredByte(w, i)) || (StoredByte(w, i) == 0 && Absent(d, w.addr + i))
    {
      GroupBytes(str, i);
      if i < s.size {
        GroupByteDumped(s, d, n, i);
      } else {
        GapAfter(d, n, next);
      }
    }
  }

  lemma GroupByteDumped(s: State, d: seq<Record>, n: nat, i: nat)
    requires 1 <= n <= |d| && GroupOpen(s, d, n) && i < s.size
    ensures Dumped(d, s.addr - s.size + 1 + i, LowByte(s.data + s.dataStr, i))
  {
    var m := n - s.size + i;
    assert d[m].addr == s.addr - s.size + 1 + i && d[m].data == (s.data + s.dataStr)[n - 1 - m];
  }

  lemma GapAfter(d: seq<Record>, n: nat, next: int)
    requires 1 <= n <= |d| && Increasing(d)
    requires d[n - 1].addr + 1 < next && (n < |d| ==> d[n].addr == next)
    ensures Absent(d, d[n - 1].addr + 1)
  {
  }

  // ----- the whole output

  /** After n lines: what is printed is sound, covers the closed groups and nothing of the open one. */
  ghost predicate Progress(out: seq<Write>, s: State, d: seq<Record>, n: nat)
    requires 1 <= n <= |d|
  {
    && GroupOpen(s, d, n)
    && (forall k :: 0 <= k < |out| ==> Sound(out[k], d) && out[k].addr + Bytes(out[k]) <= d[n - s.size].addr)
    && (forall m :: 0 <= m < n - s.size ==> Writes(out, d[m].addr))
  }

  /** The next line opens a group of its own or joins the open one. */
  lemma GroupStep(s: State, d: seq<Record>, n: nat)
    requires 1 <= n < |d| && GroupOpen(s, d, n)
    ensures GroupOpen(Step(s, d[n]), d, n + 1)
  {
    var t := Step(s, d[n]);
    if Joins(s, d[n].addr) {
      forall m | n + 1 - t.size <= m < n + 1
        ensures d[m].addr == t.addr - (n - m) && d[m].data == (t.data + t.dataStr)[n - m]
      {
        if m < n {
          assert d[m].addr == s.addr - (n - 1 - m) && d[m].data == (s.data + s.dataStr)[n - 1 - m];
        }
      }
    }
  }

  lemma ProgressStep(out: seq<Write>, s: State, d: seq<Record>, n: nat)
    requires 1 <= n < |d| && Increasing(d) && Progress(out, s, d, n)
    ensures Progress(out + Printed(s, d[n].addr), Step(s, d[n]), d, n + 1)
  {
    hide Sound, Increasing, GroupOpen, Writes, Bytes;
    InOrder(d, n - 1, n);
    GroupShape(s, d, n);
    GroupStep(s, d, n);
    if Joins(s, d[n].addr) {
      assert out + Printed(s, d[n].addr) == out;
    } else {
      GroupWrite(s, d, n, d[n].addr);
      Covered(out, s, d, n, d[n].addr);
      InOrder(d, n - s.size, n);
    }
  }

  lemma InOrder(d: seq<Record>, i: nat, j: nat)
    requires Increasing(d) && i < j < |d|
    ensures d[i].addr < d[j].addr
  {
  }

  /** Once the group is closed, all lines so far are covered. */
  lemma Covered(out: seq<Write>, s: State, d: seq<Record>, n: nat, next: int)
    requires 1 <= n <= |d| && Increasing(d) && Progress(out, s, d, n)
    requires !Joins(s, next) && s.addr < next && (n < |d| ==> d[n].addr == next)
    ensures forall m :: 0 <= m < n ==> Writes(out + Printed(s, next), d[m].addr)
  {
    hide Sound, Writes, Bytes, Printed, Increasing, GroupOpen;
    GroupWrite(s, d, n, next);
    GroupShape(s, d, n);
    var w := Printed(s, next);
    assert w == [w[0]];
    forall m | 0 <= m < n
      ensures Writes(out + w, d[m].addr)
    {
      if n - s.size <= m {
        Between(d, n - s.size, m, n - 1);
      }
      WritesMore(out, w[0], d[m].addr);
    }
  }

  lemma Between(d: seq<Record>, i: nat, m: nat, j: nat)
    requires Increasing(d) && i <= m <= j < |d|
    ensures d[i].addr <= d[m].addr <= d[j].addr
  {
  }

  lemma WritesMore(out: seq<Write>, w: Write, a: int)
    ensures Writes(out, a) || w.addr <= a < w.addr + Bytes(w) ==> Writes(out + [w], a)
  {
    var o := out + [w];
    assert o[|out|] == w;
    if Writes(out, a) {
      var k :| 0 <= k < |out| && out[k].addr <= a < out[k].addr + Bytes(out[k]);
      assert o[k] == out[k];
    }
  }

  lemma {:induction false} RunProgress(chipOffset: int, d: seq<Record>, n: nat)
    requires 1 <= n <= |d| && Increasing(d) && d[0].addr != chipOffset + 1
    ensures Progress(Output(chipOffset, d[..n]), After(chipOffset, d[..n]), d, n)
  {
    hide Progress, After, Output, Increasing;
    if n == 1 {
      FirstProgress(chipOffset, d);
    } else {
      RunProgress(chipOffset, d, n - 1);
      ProgressStep(Output(chipOffset, d[..n - 1]), After(chipOffset, d[..n - 1]), d, n - 1);
      NextLine(chipOffset, d, n - 1);
    }
  }

  lemma FirstProgress(chipOffset: int, d: seq<Record>)
    requires 1 <= |d| && d[0].addr != chipOffset + 1
    ensures Progress(Output(chipOffset, d[..1]), After(chipOffset, d[..1]), d, 1)
  {
    assert After(chipOffset, d[..1]) == Step(Initial(chipOffset), d[0]);
    assert Output(chipOffset, d[..1]) == [];
  }

  /** One more line, after any number of them. */
  lemma NextLine(chipOffset: int, d: seq<Record>, n: nat)
    requires n < |d|
    ensures var s := After(chipOffset, d[..n]);
            && |s.data + s.dataStr| <= 4 && After(chipOffset, d[..n + 1]) == Step(s, d[n])
            && Output(chipOffset, d[..n + 1]) == Output(chipOffset, d[..n]) + Printed(s, d[n].addr)
  {
    hide Step, Printed;
    AfterFits(chipOffset, d[..n]);
    assert d[..n + 1][..n] == d[..n];
  }

  /** The open group starts where its length says, and a line at the second byte of a word
      is alone in it exactly when the first byte is not in the dump. */
  ghost predicate GroupStart(s: State, d: seq<Record>, n: nat)
    requires 1 <= n <= |d|
  {
    && s.addr == d[n - 1].addr && 1 <= s.size <= s.sLength && s.sLength == AlignedLength(s.addr - s.size + 1)
    && (s.addr % 4 == 1 ==> (s.size == 1 <==> n == 1 || d[n - 2].addr != s.addr - 1))
  }

  /** A group that has come to the first byte of a word starts there. */
  lemma FirstOfWord(last: int, size: nat)
    requires last % 4 == 0 && 1 <= size <= AlignedLength(last - size + 1)
    ensures size == 1 && AlignedLength(last) == 4
  {
    assert size <= 4;
    assert size == 1 || size == 2 || size == 3 || size == 4;
  }

  lemma StartStep(s: State, d: seq<Record>, n: nat)
    requires 1 <= n < |d| && GroupStart(s, d, n)
    ensures GroupStart(Step(s, d[n]), d, n + 1)
  {
    hide AlignedLength;
    if d[n].addr % 4 == 1 && s.addr + 1 == d[n].addr {
      FirstOfWord(s.addr, s.size);
    }
  }

  lemma {:induction false} RunStart(chipOffset: int, d: seq<Record>, n: nat)
    requires 1 <= n <= |d| && d[0].addr != chipOffset + 1
    ensures GroupStart(After(chipOffset, d[..n]), d, n)
  {
    assert d[..n][..n - 1] == d[..n - 1];
    if n == 1 {
      assert After(chipOffset, d[..1]) == Step(Initial(chipOffset), d[0]);
    } else {
      RunStart(chipOffset, d, n - 1);
      StartStep(After(chipOffset, d[..n - 1]), d, n - 1);
    }
  }

  /** The line after the dump closes its last group: it does not follow on from the last
      address, or that is the last byte of a word, or a second byte without the first. */
  predicate Closes(addrs: seq<int>, sentinel: int)
    requires |addrs| > 0
  {
    var last := addrs[|addrs| - 1];
    sentinel != last + 1 || last % 4 == 3 || (last % 4 == 1 && last - 1 !in addrs)
  }

  /** The script closes the group in just these cases. */
  lemma JoinsUnlessCloses(chipOffset: int, d: seq<Record>, addrs: seq<int>, sentinel: int)
    requires |d| > 0 && Increasing(d) && d[0].addr != chipOffset + 1
    requires |addrs| == |d| && forall i :: 0 <= i < |d| ==> addrs[i] == d[i].addr
    ensures Joins(After(chipOffset, d), sentinel) <==> !Closes(addrs, sentinel)
  {
    hide AlignedLength;
    var n := |d|;
    assert d[..n] == d;
    RunStart(chipOffset, d, n);
    var s := After(chipOffset, d);
    BeforeLast(d, addrs);
    FullGroup(s.addr, s.size, n == 1 || d[n - 2].addr != s.addr - 1);
  }

  lemma BeforeLast(d: seq<Record>, addrs: seq<int>)
    requires |d| > 0 && Increasing(d) && |addrs| == |d| && forall i :: 0 <= i < |d| ==> addrs[i] == d[i].addr
    ensures addrs[|d| - 1] - 1 in addrs <==> |d| > 1 && d[|d| - 2].addr == addrs[|d| - 1] - 1
  {
    var n := |d|;
    if n > 1 {
      assert addrs[n - 2] == d[n - 2].addr;
    }
  }

  /** Lengths by the place of the start in its word. */
  lemma LengthAt(word: int, k: nat)
    requires k < 4
    ensures AlignedLength(4 * word + k) == if k == 0 then 4 else if k == 2 then 2 else 1
    ensures (4 * word + k) % 4 == k
  {
    DivModUnique(4 * word + k, 4, word, k);
    DivModUnique(4 * word + k, 2, 2 * word + k / 2, k % 2);
  }

  /** When the group that ends at an address is full. */
  lemma FullGroup(last: int, size: nat, alone: bool)
    requires 1 <= size <= AlignedLength(last - size + 1) && (last % 4 == 1 ==> (size == 1 <==> alone))
    ensures size == AlignedLength(last - size + 1) <==> last % 4 == 3 || (last % 4 == 1 && alone)
  {
    hide AlignedLength;
    var word, k := last / 4, last % 4;
    LengthAt(word, k);
    if size <= k + 1 {
      LengthAt(word, k + 1 - size);
    } else {
      LengthAt(word - 1, k + 5 - size);
    }
  }

  function Dump(addrs: seq<int>, data: seq<Byte>): (d: seq<Record>)
    requires |addrs| == |data|
    ensures |d| == |addrs|
  {
    seq(|addrs|, i requires 0 <= i < |addrs| => Record(addrs[i], data[i]))
  }

  /** The output reproduces every dump at these addresses exactly when the first address
      is not the one after the start offset and the final line closes the last group. */
  lemma CoalescingFaithful(chipOffset: int, addrs: seq<int>, sentinel: Record)
    requires |addrs| > 0 && (forall i, j :: 0 <= i < j < |addrs| ==> addrs[i] < addrs[j])
    requires addrs[|addrs| - 1] < sentinel.addr
    ensures (forall data: seq<Byte> :: |data| == |addrs| ==>
               Faithful(Output(chipOffset, Dump(addrs, data) + [sentinel]), Dump(addrs, data)))
            <==> addrs[0] != chipOffset + 1 && Closes(addrs, sentinel.addr)
  {
    hide Closes;
    var ones := seq(|addrs|, _ => 1 as Byte);
    if addrs[0] == chipOffset + 1 {
      OffsetClash(chipOffset, Dump(addrs, ones), sentinel);
    } else {
      forall data: seq<Byte> | |data| == |addrs|
        ensures Faithful(Output(chipOffset, Dump(addrs, data) + [sentinel]), Dump(addrs, data))
                <==> Closes(addrs, sentinel.addr)
      {
        JoinsUnlessCloses(chipOffset, Dump(addrs, data), addrs, sentinel.addr);
        FaithfulIffClosed(chipOffset, Dump(addrs, data), sentinel);
      }
      assert |ones| == |addrs|;
    }
  }

  lemma FaithfulIffClosed(chipOffset: int, d: seq<Record>, sentinel: Record)
    requires |d| > 0 && Increasing(d) && d[0].addr != chipOffset + 1
    requires d[|d| - 1].addr < sentinel.addr
    ensures Faithful(Output(chipOffset, d + [sentinel]), d) <==> !Joins(After(chipOffset, d), sentinel.addr)
  {
    hide Sound, Increasing, GroupOpen, Writes, Bytes;
    var n := |d|;
    var s, out := After(chipOffset, d), Output(chipOffset, d);
    assert (d + [sentinel])[..n] == d && d[..n] == d;
    RunProgress(chipOffset, d, n);
    GroupShape(s, d, n);
    if !Joins(s, sentinel.addr) {
      Covered(out, s, d, n, sentinel.addr);
      GroupWrite(s, d, n, sentinel.addr);
    } else {
      assert Output(chipOffset, d + [sentinel]) == out;
      OpenNotWritten(out, s, d, n);
    }
  }

  /** The open group has not been printed. */
  lemma OpenNotWritten(out: seq<Write>, s: State, d: seq<Record>, n: nat)
    requires 1 <= n <= |d| && Increasing(d) && Progress(out, s, d, n)
    ensures !Writes(out, d[n - 1].addr)
  {
    hide Sound;
    if s.size > 1 {
      InOrder(d, n - s.size, n - 1);
    }
  }

  /** When the first address follows the start offset, its byte, if printed, is stored
      one address too low. */
  lemma OffsetClash(chipOffset: int, d: seq<Record>, sentinel: Record)
    requires |d| > 0 && Increasing(d) && d[0].addr == chipOffset + 1 && d[0].data != 0
    requires d[|d| - 1].addr < sentinel.addr
    ensures !Faithful(Output(chipOffset, d + [sentinel]), d)
  {
    hide Increasing;
    var lines := d + [sentinel];
    ClashRun(chipOffset, lines, |lines|);
    assert lines[..|lines|] == lines;
    var out := Output(chipOffset, lines);
    if out == [] {
      assert !Writes(out, d[0].addr);
    } else {
      assert StoredByte(out[0], 0) != 0 && out[0].addr == chipOffset;
      forall m | 0 <= m < |d|
        ensures d[m].addr != chipOffset
      {
        if m > 0 {
          InOrder(d, 0, m);
        }
      }
      assert !Dumped(d, out[0].addr + 0, StoredByte(out[0], 0));
    }
  }

  /** Until something is printed the open group starts at the offset; the first write
      then stores the first byte there. */
  ghost predicate Clashing(out: seq<Write>, s: State, chipOffset: int, b: Byte, n: nat) {
    var str := s.data + s.dataStr;
    if out == [] then
      s.addr - s.size + 1 == chipOffset && |str| == n == s.size - 1 && 1 <= n && str[n - 1] == b
    else out[0].addr == chipOffset && StoredByte(out[0], 0) == b
  }

  lemma ClashStep(out: seq<Write>, s: State, r: Record, chipOffset: int, b: Byte, n: nat)
    requires |s.data + s.dataStr| <= 4 && Clashing(out, s, chipOffset, b, n)
    ensures Clashing(out + Printed(s, r.addr), Step(s, r), chipOffset, b, n + 1)
  {
    hide ByteOf, Text;
    if out == [] && !Joins(s, r.addr) {
      GroupBytes(s.data + s.dataStr, 0);
      assert LowByte(s.data + s.dataStr, 0) == b;
    }
  }

  lemma {:induction false} ClashRun(chipOffset: int, lines: seq<Record>, n: nat)
    requires 1 <= n <= |lines| && lines[0].addr == chipOffset + 1
    ensures Clashing(Output(chipOffset, lines[..n]), After(chipOffset, lines[..n]), chipOffset, lines[0].data, n)
  {
    hide Clashing;
    assert lines[..n][..n - 1] == lines[..n - 1];
    AfterFits(chipOffset, lines[..n - 1]);
    if n == 1 {
      ClashStart(chipOffset, lines[..1]);
    } else {
      ClashRun(chipOffset, lines, n - 1);
      ClashStep(Output(chipOffset, lines[..n - 1]), After(chipOffset, lines[..n - 1]), lines[n - 1],
                chipOffset, lines[0].data, n - 1);
    }
  }

  lemma ClashStart(chipOffset: int, one: seq<Record>)
    requires |one| == 1 && one[0].addr == chipOffset + 1
    ensures Clashing(Output(chipOffset, one), After(chipOffset, one), chipOffset, one[0].data, 1)
  {
    assert one[..0] == [];
  }

  // ----- replaying the writes

  /** Memory after the first n bytes of w are stored. */
  function Store(mem: map<int, Byte>, w: Write, n: nat): (r: map<int, Byte>)
    requires n <= Bytes(w)
    ensures forall a :: a in r <==> a in mem || w.addr <= a < w.addr + n
    ensures forall a :: a in r ==> r[a] == if w.addr <= a < w.addr + n then StoredByte(w, a - w.addr) else mem[a]
  {
    if n == 0 then mem else Store(mem, w, n - 1)[w.addr + n - 1 := StoredByte(w, n - 1)]
  }

  /** Memory after the driver has stored the writes, in order. */
  function Replay(out: seq<Write>, mem: map<int, Byte>): map<int, Byte> {
    if out == [] then mem
    else
      var w := out[|out| - 1];
      Store(Replay(out[..|out| - 1], mem), w, Bytes(w))
  }

  /** Replaying faithful output leaves every dumped byte at its address; elsewhere
      memory is as before or holds a zero. */
  lemma ReplayReproduces(out: seq<Write>, d: seq<Record>, mem: map<int, Byte>)
    requires Increasing(d) && Faithful(out, d)
    ensures forall m :: 0 <= m < |d| ==> d[m].addr in Replay(out, mem) && Replay(out, mem)[d[m].addr] == d[m].data
    ensures forall a :: Absent(d, a) && a in Replay(out, mem) ==>
              Replay(out, mem)[a] == 0 || (a in mem && Replay(out, mem)[a] == mem[a])
  {
    hide Sound;
    ReplaySound(out, d, mem);
    forall m | 0 <= m < |d|
      ensures d[m].addr in Replay(out, mem) && Replay(out, mem)[d[m].addr] == d[m].data
    {
      assert Writes(out, d[m].addr);
    }
  }

  lemma {:induction false} ReplaySound(out: seq<Write>, d: seq<Record>, mem: map<int, Byte>)
    requires Increasing(d) && forall k :: 0 <= k < |out| ==> Sound(out[k], d)
    ensures forall m :: 0 <= m < |d| && Writes(out, d[m].addr) ==>
              d[m].addr in Replay(out, mem) && Replay(out, mem)[d[m].addr] == d[m].data
    ensures forall a :: Absent(d, a) && a in Replay(out, mem) ==>
              Replay(out, mem)[a] == 0 || (a in mem && Replay(out, mem)[a] == mem[a])
  {
    hide Sound, Increasing, Bytes, Absent;
    if out != [] {
      var w, rest := out[|out| - 1], out[..|out| - 1];
      ReplaySound(rest, d, mem);
      forall m | 0 <= m < |d| && Writes(out, d[m].addr)
        ensures d[m].addr in Replay(out, mem) && Replay(out, mem)[d[m].addr] == d[m].data
      {
        var a := d[m].addr;
        if w.addr <= a < w.addr + Bytes(w) {
          StoredIsDumped(w, d, m);
        } else {
          var k :| 0 <= k < |out| && out[k].addr <= a < out[k].addr + Bytes(out[k]);
          assert rest[k] == out[k] && Writes(rest, a);
        }
      }
      forall a | Absent(d, a) && a in Replay(out, mem)
        ensures Replay(out, mem)[a] == 0 || (a in mem && Replay(out, mem)[a] == mem[a])
      {
        if w.addr <= a < w.addr + Bytes(w) {
          ExtraIsZero(w, d, a);
        }
      }
    }
  }

  lemma ExtraIsZero(w: Write, d: seq<Record>, a: int)
    requires Sound(w, d) && Absent(d, a) && w.addr <= a < w.addr + Bytes(w)
    ensures StoredByte(w, a - w.addr) == 0
  {
    assert a == w.addr + (a - w.addr) && !Dumped(d, a, StoredByte(w, a - w.addr));
  }

  lemma StoredIsDumped(w: Write, d: seq<Record>, m: nat)
    requires Sound(w, d) && Increasing(d) && m < |d| && w.addr <= d[m].addr < w.addr + Bytes(w)
    ensures StoredByte(w, d[m].addr - w.addr) == d[m].data
  {
    var i := d[m].addr - w.addr;
    assert w.addr + i == d[m].addr && !Absent(d, w.addr + i);
    var k :| 0 <= k < |d| && d[k].addr == w.addr + i && d[k].data == StoredByte(w, i);
    assert k == m;
  }
}
