/** One DMA descriptor: its buffers, the random 1D or 2D shape of the transfer, and the
    reference simulation (igen/dma.h). */
module DmaTransfer {
  import opened Accesses
  import opened Words
  import opened Ranges
  import MemManager

  const MAX_TRAN_SIZE: int := 1024

  /** First aligned address used in a range; for sizes above a byte, past its start. */
  function BufferStart(first: nat, z: Size): nat {
    if z == 0 then first else AlignDown(first, z) + BytesOf(z)
  }

  /** Length of the shorter of two ranges. */
  function Shorter(r: Range, q: Range): int {
    if q.second - q.first < r.second - r.first then q.second - q.first else r.second - r.first
  }

  /** Bytes a transfer between two ranges may use. */
  function BufferSize(r: Range, q: Range): int {
    var least := Shorter(r, q);
    if least - 8 > MAX_TRAN_SIZE then MAX_TRAN_SIZE else least - 8
  }

  /** A range of 32-bit addresses that passes the generator's size check. */
  predicate Free(r: Range) {
    0 <= r.first && r.first + 8 <= r.second < BASE
  }

  /** The buffer starts at the first multiple of the access size past the start of the
      range, for bytes at the start; its size is the largest, up to 1024, that leaves eight
      bytes at the end of both ranges. */
  lemma BufferLargest(r: Range, q: Range, z: Size, m: int)
    requires Free(r) && Free(q)
    ensures BufferStart(r.first, z) % BytesOf(z) == 0
    ensures if z == 0 then BufferStart(r.first, z) == r.first
            else r.first < BufferStart(r.first, z) <= r.first + BytesOf(z)
    ensures m <= BufferSize(r, q) <==> m <= 1024 && r.first + m + 8 <= r.second && q.first + m + 8 <= q.second
  {
    hide AlignDown, BytesOf;
    AlignDownMultiple(r.first, z);
    NextMultiple(AlignDown(r.first, z), BytesOf(z));
    if z == 0 {
      EachByte(r.first);
    }
  }

  lemma EachByte(a: int)
    ensures a % BytesOf(0) == 0
  {
  }

  lemma NextMultiple(a: int, n: int)
    requires n > 0 && a % n == 0
    ensures (a + n) % n == 0
  {
    DivModDef(a, n);
    MulDistrib(a / n, 1, n);
    DivModUnique(a + n, n, a / n + 1, 0);
  }

  /** The buffer lies in the range it is carved from. */
  lemma BufferInside(r: Range, q: Range, z: Size)
    requires Free(r) && Free(q)
    ensures r.first <= BufferStart(r.first, z)
    ensures BufferStart(r.first, z) + BufferSize(r, q) <= r.second
    ensures BufferStart(q.first, z) % BytesOf(z) == 0 && BufferSize(r, q) == BufferSize(q, r) >= 0
  {
    AlignDownMultiple(q.first, z);
  }

  // ----- the shape of a transfer

  /** Random numbers for one descriptor. */
  datatype Draw = Draw(x1: nat, outLoop: bool, y1: nat, strideIn: nat)

  /** Strides without their sign. */
  datatype Shape = Shape(strideIn: nat, countIn: nat, strideOut: nat, countOuter: nat)

  function Min(a: nat, b: nat): nat { if a < b then a else b }

  function Max(a: nat, b: nat): nat { if a < b then b else a }

  /** Offset of access i of row j, and the end of the last access of the last row. */
  function AccessOffset(s: Shape, j: nat, i: nat): int {
    j * ((s.countIn - 1) * s.strideIn + s.strideOut) + i * s.strideIn
  }

  ghost predicate StaysWithin(s: Shape, n: nat, m: int) {
    forall j, i :: 0 <= j < s.countOuter && 0 <= i < s.countIn ==> AccessOffset(s, j, i) + n <= m
  }

  /** Where the last access ends. */
  function Reach(s: Shape, n: nat): int
    requires s.countOuter > 0 && s.countIn > 0
  {
    (s.countOuter - 1) * ((s.countIn - 1) * s.strideIn + s.strideOut) + (s.countIn - 1) * s.strideIn + n
  }

  lemma OffsetReach(s: Shape, n: nat, j: nat, i: nat)
    requires j < s.countOuter && i < s.countIn
    ensures 0 <= AccessOffset(s, j, i) && AccessOffset(s, j, i) + n <= Reach(s, n)
  {
    MulLe(0, s.countIn - 1, s.strideIn);
    MulLe(j, s.countOuter - 1, (s.countIn - 1) * s.strideIn + s.strideOut);
    MulLe(0, j, (s.countIn - 1) * s.strideIn + s.strideOut);
    MulLe(i, s.countIn - 1, s.strideIn);
    MulLe(0, i, s.strideIn);
  }

  predicate DrawAllowed(d: Draw, m: nat) {
    d.x1 <= m / 2
  }

  /** First dimension: x1 * x2 stays below the buffer size. */
  function FirstSide(d: Draw): (x1: nat)
    ensures x1 >= 1
  {
    if d.x1 == 0 then 1 else d.x1
  }

  function ShapeOf(m: nat, z: Size, d: Draw, twoD: bool): Shape {
    var x1 := FirstSide(d);
    var x2 := m / x1;
    if twoD then
      var y := Max(x1, x2);
      var y1 := d.y1 % y;
      var (a, b) := (Min(y1, y - y1), Max(y1, y - y1));
      var strideIn := d.strideIn % b;
      var countIn := if strideIn == 0 then 0 else b / strideIn;
      Shape(AlignDown(strideIn, z), countIn, AlignDown(a, z), Min(x1, x2))
    else
      Shape(AlignDown(x2, z), x1, 0, 1)
  }

  /** Rows of one dimension: x1 accesses x2 bytes apart. */
  lemma OneDimension(m: int, n: int, x1: int, x2: int, strideIn: int)
    requires x1 >= 1 && x1 * x2 <= m && 1 <= n <= m && 0 <= strideIn <= x2
    requires x2 < n ==> strideIn == 0
    ensures (x1 - 1) * strideIn + n <= m
  {
    if x2 >= n {
      MulLe(strideIn, x2, x1 - 1);
      MulDistrib(x1, 1, x2);
    } else {
      assert (x1 - 1) * 0 == 0;
    }
  }

  /** Two dimensions: outer rows of y = a + b bytes; a row spans at most b bytes. */
  lemma TwoDimensions(m: int, n: int, outer: int, a: int, b: int, strideIn: int, aligned: int, countIn: int,
      strideOut: int)
    requires outer >= 1 && 0 <= a && outer * (a + b) <= m && 1 <= n <= m
    requires 0 < strideIn < b && countIn >= 1 && countIn * strideIn <= b
    requires 0 <= aligned <= strideIn && (strideIn < n ==> aligned == 0)
    requires 0 <= strideOut <= a && (a < n ==> strideOut == 0)
    ensures (outer - 1) * ((countIn - 1) * aligned + strideOut) + (countIn - 1) * aligned + n <= m
  {
    var inner := (countIn - 1) * aligned;
    MulLe(aligned, strideIn, countIn - 1);
    MulDistrib(countIn, 1, strideIn);
    assert inner <= b - strideIn;
    if strideIn >= n {
      MulLe(inner + strideOut, a + b - strideIn, outer - 1);
      MulDistrib(a + b, strideIn, outer - 1);
      MulLe(0, outer - 1, strideIn);
      MulDistrib(outer, 1, a + b);
    } else {
      assert inner == 0;
      if a >= n {
        MulLe(strideOut, a + b, outer - 1);
        MulDistrib(outer, 1, a + b);
      } else {
        assert (outer - 1) * 0 == 0;
      }
    }
  }

  /** The longer part of the row length that a two-dimensional transfer is split into. */
  function LongSide(m: nat, d: Draw): (b: nat)
    ensures b >= 1
  {
    var y := Max(FirstSide(d), m / FirstSide(d));
    Max(d.y1 % y, y - d.y1 % y)
  }

  /** Nothing is transferred: two dimensions, and no row or an inner stride drawn as zero. */
  predicate NoTransfer(m: nat, d: Draw, twoD: bool) {
    twoD && (m == 0 || d.strideIn % LongSide(m, d) == 0)
  }

  lemma NoTransferShape(m: nat, z: Size, d: Draw, twoD: bool)
    requires DrawAllowed(d, m)
    ensures var s := ShapeOf(m, z, d, twoD); s.countIn == 0 || s.countOuter == 0 <==> NoTransfer(m, d, twoD)
  {
    hide AlignDown;
    ShapeProduct(m, d);
    if twoD && d.strideIn % LongSide(m, d) != 0 {
      QuotientPositive(LongSide(m, d), d.strideIn % LongSide(m, d));
    }
  }

  lemma QuotientPositive(b: int, a: int)
    requires 0 < a <= b
    ensures b / a >= 1
  {
    DivModDef(b, a);
    if b / a <= 0 {
      MulLe(b / a, 0, a);
    }
  }

  /** Whatever is drawn, every access of the transfer ends within the buffer size,
      exactly when one access does or nothing is transferred. */
  lemma ShapeStaysWithin(m: nat, z: Size, d: Draw, twoD: bool)
    requires DrawAllowed(d, m)
    ensures StaysWithin(ShapeOf(m, z, d, twoD), BytesOf(z), m) <==> BytesOf(z) <= m || NoTransfer(m, d, twoD)
  {
    hide ShapeOf, AccessOffset, Reach, NoTransfer;
    var s, n := ShapeOf(m, z, d, twoD), BytesOf(z);
    NoTransferShape(m, z, d, twoD);
    if s.countIn > 0 && s.countOuter > 0 {
      if n <= m {
        ShapeReach(m, z, d, twoD);
        forall j, i | 0 <= j < s.countOuter && 0 <= i < s.countIn
          ensures AccessOffset(s, j, i) + n <= m
        {
          OffsetReach(s, n, j, i);
        }
      } else {
        OffsetZero(s);
        assert AccessOffset(s, 0, 0) + n > m;
      }
    }
  }

  lemma OffsetZero(s: Shape)
    ensures AccessOffset(s, 0, 0) == 0
  {
  }

  /** When one access is longer than the buffer, all accesses are at its start. */
  lemma SmallStrides(m: nat, z: Size, d: Draw, twoD: bool)
    requires DrawAllowed(d, m) && m < BytesOf(z)
    ensures ShapeOf(m, z, d, twoD).strideIn == ShapeOf(m, z, d, twoD).strideOut == 0
  {
    hide BytesOf, AlignDown;
    QuotientAtMost(m, FirstSide(d));
  }

  lemma QuotientAtMost(m: nat, x: nat)
    requires x >= 1
    ensures 0 <= m / x <= m
  {
    DivModDef(m, x);
    MulLe(1, x, m / x);
  }

  lemma NoStrides(s: Shape, j: nat, i: nat)
    requires s.strideIn == s.strideOut == 0
    ensures AccessOffset(s, j, i) == 0
  {
  }

  lemma ShapeProduct(m: nat, d: Draw)
    requires DrawAllowed(d, m)
    ensures FirstSide(d) * (m / FirstSide(d)) <= m && 0 <= m / FirstSide(d)
    ensures m > 0 ==> m / FirstSide(d) > 0
    ensures Min(FirstSide(d), m / FirstSide(d)) * Max(FirstSide(d), m / FirstSide(d))
         == FirstSide(d) * (m / FirstSide(d))
  {
    var x1, x2 := FirstSide(d), m / FirstSide(d);
    DivModDef(m, x1);
    if m > 0 && x2 <= 0 {
      MulLe(x2, 0, x1);
    }
  }

  lemma ShapeReach(m: nat, z: Size, d: Draw, twoD: bool)
    requires DrawAllowed(d, m) && BytesOf(z) <= m
    requires ShapeOf(m, z, d, twoD).countIn > 0 && ShapeOf(m, z, d, twoD).countOuter > 0
    ensures Reach(ShapeOf(m, z, d, twoD), BytesOf(z)) <= m
  {
    hide AlignDown;
    var s, n := ShapeOf(m, z, d, twoD), BytesOf(z);
    var x1 := FirstSide(d);
    var x2 := m / x1;
    ShapeProduct(m, d);
    if twoD {
      var y := Max(x1, x2);
      var y1 := d.y1 % y;
      var a, b := Min(y1, y - y1), Max(y1, y - y1);
      var strideIn := d.strideIn % b;
      DivModDef(b, strideIn);
      TwoDimensions(m, n, s.countOuter, a, b, strideIn, s.strideIn, s.countIn, s.strideOut);
    } else {
      OneDimension(m, n, x1, x2, s.strideIn);
    }
  }

  /** How much is moved. One dimension: as many accesses as drawn, as far apart as the
      buffer allows. Two: rows whose lengths fill the buffer but for less than one side of
      it; a row is split in two, its longer part walked in steps of the drawn stride until
      one more would leave it, its shorter part skipped. Strides are whole accesses. */
  lemma ShapeFills(m: nat, z: Size, d: Draw, twoD: bool)
    requires DrawAllowed(d, m)
    ensures var s, n, x1 := ShapeOf(m, z, d, twoD), BytesOf(z), if d.x1 == 0 then 1 else d.x1;
            && s.strideIn % n == 0 && s.strideOut % n == 0
            && (!twoD ==> s.countOuter == 1 && s.countIn == x1 && x1 * s.strideIn <= m < x1 * (s.strideIn + n))
            && (twoD && m > 0 ==>
                  exists y: nat, step: nat ::
                    && s.countOuter <= y && m - x1 < s.countOuter * y <= m
                    && s.strideOut <= y - LongSide(m, d) <= LongSide(m, d) && y - LongSide(m, d) < s.strideOut + n
                    && step == d.strideIn % LongSide(m, d) && s.strideIn <= step < s.strideIn + n
                    && (step > 0 ==> s.countIn * step <= LongSide(m, d) < (s.countIn + 1) * step)
                    && (step == 0 ==> s.countIn == 0))
  {
    hide AlignDown, BytesOf;
    var s, n, x1 := ShapeOf(m, z, d, twoD), BytesOf(z), FirstSide(d);
    var x2 := m / x1;
    StridesMultiple(m, z, d, twoD);
    ShapeProduct(m, d);
    DivModDef(m, x1);
    if !twoD {
      MulLe(s.strideIn, x2, x1);
      MulLe(x2 + 1, s.strideIn + n, x1);
      MulDistrib(x2, 1, x1);
    } else if m > 0 {
      var y, b := Max(x1, x2), LongSide(m, d);
      var step := d.strideIn % b;
      if step > 0 {
        DivModDef(b, step);
        MulDistrib(s.countIn, 1, step);
      }
      assert s.countOuter * y == x1 * x2;
    }
  }

  // ----- the transfer and its simulation

  /** A finished descriptor: start addresses, direction and shape. */
  datatype Transfer = Transfer(src: int, dst: int, z: Size, size: nat, forward: bool, auto: bool, shape: Shape)

  /** The descriptor of a buffer pair: backwards transfers start at the far end. */
  function TransferOf(src: int, dst: int, z: Size, m: nat, d: Draw, twoD: bool, forward: bool, auto: bool): Transfer {
    var far := if forward then 0 else AlignDown(m, z) - BytesOf(z);
    Transfer(Wrap32(src + far), Wrap32(dst + far), z, m, forward, auto, ShapeOf(m, z, d, twoD))
  }

  /** Address of access i of row j. */
  function AccessAt(start: int, t: Transfer, j: nat, i: nat): int {
    if t.forward then start + AccessOffset(t.shape, j, i) else start - AccessOffset(t.shape, j, i)
  }

  lemma OffsetMultiple(m: nat, z: Size, d: Draw, twoD: bool, j: nat, i: nat)
    ensures AccessOffset(ShapeOf(m, z, d, twoD), j, i) % BytesOf(z) == 0
  {
    hide AlignDown, BytesOf;
    var s, n := ShapeOf(m, z, d, twoD), BytesOf(z);
    StridesMultiple(m, z, d, twoD);
    var p, q := s.strideIn / n, s.strideOut / n;
    assert s.strideIn == p * n && s.strideOut == q * n;
    Combine(j, s.countIn - 1, i, p, q, n);
  }

  lemma StridesMultiple(m: nat, z: Size, d: Draw, twoD: bool)
    ensures ShapeOf(m, z, d, twoD).strideIn % BytesOf(z) == 0
    ensures ShapeOf(m, z, d, twoD).strideOut % BytesOf(z) == 0
  {
    hide AlignDown, BytesOf;
    var x1 := FirstSide(d);
    var y := Max(x1, m / x1);
    var y1 := d.y1 % y;
    AlignDownMultiple(m / x1, z);
    AlignDownMultiple(d.strideIn % Max(y1, y - y1), z);
    AlignDownMultiple(Min(y1, y - y1), z);
  }

  lemma Combine(j: int, k: int, i: int, p: int, q: int, n: int)
    requires n == 1 || n == 2 || n == 4 || n == 8
    ensures (j * (k * (p * n) + q * n) + i * (p * n)) % n == 0
  {
    MulAssoc(k, p, n);
    MulDistrib(k * p, q, n);
    MulAssoc(j, k * p + q, n);
    MulAssoc(i, p, n);
    MulDistrib(j * (k * p + q), i * p, n);
    MultipleOf(j * (k * p + q) + i * p, n);
  }

  lemma MultipleOf(x: int, n: int)
    requires n == 1 || n == 2 || n == 4 || n == 8
    ensures (x * n) % n == 0
  {
    DivModUnique(x * n, n, x, 0);
  }

  /** Multiples of the access size below m are below m aligned down. */
  lemma EndAligned(x: nat, m: nat, z: Size)
    requires x % BytesOf(z) == 0 && x + BytesOf(z) <= m
    ensures x + BytesOf(z) <= AlignDown(m, z)
  {
  }

  /** No access starts past the buffer. */
  lemma OffsetAtMost(m: nat, z: Size, d: Draw, twoD: bool, j: nat, i: nat)
    requires DrawAllowed(d, m)
    requires j < ShapeOf(m, z, d, twoD).countOuter && i < ShapeOf(m, z, d, twoD).countIn
    ensures var x := AccessOffset(ShapeOf(m, z, d, twoD), j, i);
            0 <= x <= m && if BytesOf(z) <= m then x + BytesOf(z) <= AlignDown(m, z) else x == 0
  {
    hide ShapeOf, AccessOffset;
    var s := ShapeOf(m, z, d, twoD);
    if BytesOf(z) <= m {
      OffsetReach(s, BytesOf(z), j, i);
      ShapeReach(m, z, d, twoD);
      OffsetMultiple(m, z, d, twoD, j, i);
      EndAligned(AccessOffset(s, j, i), m, z);
    } else {
      SmallStrides(m, z, d, twoD);
      NoStrides(s, j, i);
    }
  }

  /** Every byte of every access is inside the two buffers, in either direction. */
  lemma AccessInside(src: nat, dst: nat, z: Size, m: nat, d: Draw, twoD: bool, forward: bool, auto: bool, j: nat,
      i: nat)
    requires DrawAllowed(d, m) && BytesOf(z) <= m && src + m <= BASE && dst + m <= BASE
    requires var t := TransferOf(src, dst, z, m, d, twoD, forward, auto); j < t.shape.countOuter && i < t.shape.countIn
    ensures var t := TransferOf(src, dst, z, m, d, twoD, forward, auto);
            && src <= AccessAt(t.src, t, j, i) && AccessAt(t.src, t, j, i) + BytesOf(z) <= src + m
            && dst <= AccessAt(t.dst, t, j, i) && AccessAt(t.dst, t, j, i) + BytesOf(z) <= dst + m
            && AccessAt(t.src, t, j, i) - src == AccessAt(t.dst, t, j, i) - dst
  {
    hide ShapeOf, AccessOffset;
    OffsetAtMost(m, z, d, twoD, j, i);
  }

  /** Forwards or backwards, accesses have 32-bit addresses and no access is further from
      the first than the buffer is long. */
  lemma AccessNear(src: nat, dst: nat, z: Size, m: nat, d: Draw, twoD: bool, forward: bool, auto: bool, j: nat, i: nat)
    requires DrawAllowed(d, m) && src < BASE && dst < BASE && src + m <= BASE && dst + m <= BASE
    requires var t := TransferOf(src, dst, z, m, d, twoD, forward, auto); j < t.shape.countOuter && i < t.shape.countIn
    ensures var t := TransferOf(src, dst, z, m, d, twoD, forward, auto);
            && 0 <= AccessAt(t.src, t, j, i) < BASE && 0 <= AccessAt(t.dst, t, j, i) < BASE
            && (if forward then t.src <= AccessAt(t.src, t, j, i) <= t.src + m
                else t.src - m <= AccessAt(t.src, t, j, i) <= t.src)
            && (if forward then t.dst <= AccessAt(t.dst, t, j, i) <= t.dst + m
                else t.dst - m <= AccessAt(t.dst, t, j, i) <= t.dst)
  {
    hide ShapeOf, AccessOffset;
    OffsetAtMost(m, z, d, twoD, j, i);
  }

  /** Fills in strides, counts and direction of a descriptor; the generator's own
      assertions hold on the way. */
  method ShapeTransfer(src: int, dst: int, z: Size, m: nat, d: Draw, hasNext: bool, forward: bool, auto: bool)
    returns (t: Transfer)
    requires DrawAllowed(d, m)
    ensures t == TransferOf(src, dst, z, m, d, d.outLoop && hasNext, forward, auto)
  {
    hide AlignDown, BytesOf, Wrap32;
    var x1 := d.x1;
    if x1 == 0 {
      x1 := 1;
    }
    var x2 := m / x1;
    assert x1 * x2 <= m && x2 >= 0 by { ShapeProduct(m, d); }
    var strideIn: nat, strideOut: nat, countIn: nat, countOuter: nat := 0, 0, 0, 0;
    if d.outLoop && hasNext {
      countOuter := Min(x1, x2);
      var y := Max(x1, x2);
      assert y != 0;
      var y1 := d.y1 % y;
      var y2 := y - y1;
      strideOut := Min(y1, y2);
      assert Max(y1, y2) != 0;
      strideIn := d.strideIn % Max(y1, y2);
      if strideIn != 0 {
        QuotientAtMost(Max(y1, y2), strideIn);
        countIn := Max(y1, y2) / strideIn;
      }
    } else {
      countOuter, strideIn, countIn := 1, x2, x1;
    }
    strideIn := AlignDown(strideIn, z);
    strideOut := AlignDown(strideOut, z);
    var src', dst' := Wrap32(src), Wrap32(dst);
    if !forward {
      src' := Wrap32(src + AlignDown(m, z) - BytesOf(z));
      dst' := Wrap32(dst + AlignDown(m, z) - BytesOf(z));
    }
    t := Transfer(src', dst', z, m, forward, auto, Shape(strideIn, countIn, strideOut, countOuter));
  }

  // ----- the reference simulation

  /** Byte transfers of one access: source (the slave register for an auto DMA) and destination. */
  function CellBytes(t: Transfer, reg: int, j: nat, i: nat, n: nat): (r: seq<(int, int)>)
    ensures |r| == n
  {
    var from := if t.auto then reg else AccessAt(t.src, t, j, i);
    var to := AccessAt(t.dst, t, j, i);
    seq(n, b requires 0 <= b < n => (if t.auto then from else from + b, to + b))
  }

  /** All byte transfers of the rows before j and of the first i accesses of row j. */
  function Copied(t: Transfer, reg: int, j: nat, i: nat): seq<(int, int)>
    decreases j, i
  {
    if i > 0 then Copied(t, reg, j, i - 1) + CellBytes(t, reg, j, i - 1, BytesOf(t.z))
    else if j > 0 then Copied(t, reg, j - 1, t.shape.countIn)
    else []
  }

  /** Byte b of access i of row j goes from the one address to the other. */
  predicate Moves(t: Transfer, reg: int, j: nat, i: nat, b: nat, move: (int, int)) {
    && b < BytesOf(t.z) && move.1 == AccessAt(t.dst, t, j, i) + b
    && move.0 == if t.auto then reg else AccessAt(t.src, t, j, i) + b
  }

  /** Access i of row j is done when j rows and n accesses of the next one are. */
  predicate Before(t: Transfer, j: nat, i: nat, rows: nat, n: nat) {
    (j < rows && i < t.shape.countIn) || (j == rows && i < n)
  }

  /** The bytes moved are those of all accesses, and no others. */
  lemma {:induction false} CopiedAre(t: Transfer, reg: int, rows: nat, n: nat, move: (int, int))
    requires n <= t.shape.countIn
    ensures move in Copied(t, reg, rows, n) <==>
              exists j: nat, i: nat, b: nat :: Before(t, j, i, rows, n) && Moves(t, reg, j, i, b, move)
    decreases rows, n
  {
    hide AccessAt, BytesOf;
    if n > 0 {
      CopiedAre(t, reg, rows, n - 1, move);
      CellMoves(t, reg, rows, n - 1, move);
      if j: nat, i: nat, b: nat :| Before(t, j, i, rows, n) && Moves(t, reg, j, i, b, move) {
        assert Before(t, j, i, rows, n - 1) || (j == rows && i == n - 1);
      }
    } else if rows > 0 {
      CopiedAre(t, reg, rows - 1, t.shape.countIn, move);
      assert forall j: nat, i: nat :: Before(t, j, i, rows, 0) <==> Before(t, j, i, rows - 1, t.shape.countIn);
    }
  }

  lemma CellMoves(t: Transfer, reg: int, j: nat, i: nat, move: (int, int))
    ensures move in CellBytes(t, reg, j, i, BytesOf(t.z)) <==> exists b: nat :: Moves(t, reg, j, i, b, move)
  {
    hide AccessAt, BytesOf;
    var cell := CellBytes(t, reg, j, i, BytesOf(t.z));
    if move in cell {
      var b: nat :| b < |cell| && cell[b] == move;
      assert Moves(t, reg, j, i, b, move);
    }
    if b: nat :| Moves(t, reg, j, i, b, move) {
      assert cell[b] == move;
    }
  }

  lemma WrapAdd(a: int, b: int)
    ensures Wrap32(Wrap32(a) + b) == Wrap32(a + b)
  {
  }

  lemma NextAccess(t: Transfer, start: int, j: nat, i: nat)
    ensures AccessAt(start, t, j, i + 1)
         == AccessAt(start, t, j, i) + if t.forward then t.shape.strideIn else 0 - t.shape.strideIn
  {
    MulDistrib(i, 1, t.shape.strideIn);
  }

  lemma NextRow(t: Transfer, start: int, j: nat)
    ensures AccessAt(start, t, j + 1, 0)
         == AccessAt(start, t, j, t.shape.countIn)
            + if t.forward then t.shape.strideOut - t.shape.strideIn else t.shape.strideIn - t.shape.strideOut
  {
    var s := t.shape;
    MulDistrib(j, 1, (s.countIn - 1) * s.strideIn + s.strideOut);
    MulDistrib(s.countIn, 1, s.strideIn);
  }

  lemma FirstAccess(t: Transfer, start: int)
    ensures AccessAt(start, t, 0, 0) == start
  {
  }

  /** The bytes of one access. */
  method MoveBytes(t: Transfer, reg: int, ghost j: nat, ghost i: nat, srcAddr: int, dstAddr: int)
    returns (out: seq<(int, int)>)
    requires srcAddr == AccessAt(t.src, t, j, i) && dstAddr == AccessAt(t.dst, t, j, i)
    ensures out == CellBytes(t, reg, j, i, BytesOf(t.z))
  {
    hide AccessAt, BytesOf;
    out := [];
    var n := 0;
    while n < BytesOf(t.z)
      invariant 0 <= n <= BytesOf(t.z)
      invariant out == CellBytes(t, reg, j, i, n)
    {
      out := out + [(if t.auto then reg else srcAddr + n, dstAddr + n)];
      n := n + 1;
    }
  }

  lemma Advance(t: Transfer, start: int, j: nat, i: nat)
    ensures var a := Wrap32(AccessAt(start, t, j, i));
            Wrap32(AccessAt(start, t, j, i + 1))
            == if t.forward then Wrap32(a + t.shape.strideIn) else Wrap32(a - t.shape.strideIn)
  {
    hide AccessAt, Wrap32;
    NextAccess(t, start, j, i);
    WrapAdd(AccessAt(start, t, j, i), t.shape.strideIn);
    WrapAdd(AccessAt(start, t, j, i), 0 - t.shape.strideIn);
  }

  lemma AdvanceRow(t: Transfer, start: int, j: nat)
    ensures var a := Wrap32(AccessAt(start, t, j, t.shape.countIn));
            Wrap32(AccessAt(start, t, j + 1, 0)) ==
            if t.forward then Wrap32(Wrap32(a + t.shape.strideOut) - t.shape.strideIn)
            else Wrap32(Wrap32(a - t.shape.strideOut) + t.shape.strideIn)
  {
    hide AccessAt, Wrap32;
    var x := AccessAt(start, t, j, t.shape.countIn);
    NextRow(t, start, j);
    WrapAdd(x, t.shape.strideOut);
    WrapAdd(x, 0 - t.shape.strideOut);
    WrapAdd(x + t.shape.strideOut, 0 - t.shape.strideIn);
    WrapAdd(x - t.shape.strideOut, t.shape.strideIn);
  }

  /** The simulator's assertion on one address of an access. Sum and difference are 64-bit
      unsigned numbers, so the difference wraps below zero. */
  predicate BoundHolds(forward: bool, start: int, size: nat, a: int) {
    if forward then start <= a <= Wrap64(start + size) else a <= start && Wrap64(start - size) <= a
  }

  predicate RangeCheck(t: Transfer, srcAddr: int, dstAddr: int) {
    BoundHolds(t.forward, t.src, t.size, srcAddr) && BoundHolds(t.forward, t.dst, t.size, dstAddr)
  }

  /** The assertions hold at every access of the transfer. */
  ghost predicate ChecksHold(t: Transfer) {
    forall j: nat, i: nat :: j < t.shape.countOuter && i < t.shape.countIn ==>
      RangeCheck(t, AccessAt(t.src, t, j, i), AccessAt(t.dst, t, j, i))
  }

  /** The buffer is not longer than its start addresses are high. */
  predicate HighStarts(t: Transfer) {
    t.src >= t.size && t.dst >= t.size
  }

  /** The assertions hold at an access for the same reason at all of them. */
  lemma CheckAt(src: nat, dst: nat, t: Transfer, d: Draw, twoD: bool, j: nat, i: nat)
    requires DrawAllowed(d, t.size) && src < BASE && dst < BASE && src + t.size <= BASE && dst + t.size <= BASE
    requires t == TransferOf(src, dst, t.z, t.size, d, twoD, t.forward, t.auto)
    requires j < t.shape.countOuter && i < t.shape.countIn
    ensures 0 <= AccessAt(t.src, t, j, i) < BASE && 0 <= AccessAt(t.dst, t, j, i) < BASE
    ensures RangeCheck(t, AccessAt(t.src, t, j, i), AccessAt(t.dst, t, j, i)) <==> t.forward || HighStarts(t)
  {
    hide AccessAt, TransferOf, BoundHolds;
    AccessNear(src, dst, t.z, t.size, d, twoD, t.forward, t.auto, j, i);
    StartsInRange(src, dst, t, d, twoD);
    BoundDecided(t.forward, t.src, t.size, AccessAt(t.src, t, j, i));
    BoundDecided(t.forward, t.dst, t.size, AccessAt(t.dst, t, j, i));
  }

  lemma StartsInRange(src: nat, dst: nat, t: Transfer, d: Draw, twoD: bool)
    requires t == TransferOf(src, dst, t.z, t.size, d, twoD, t.forward, t.auto)
    ensures 0 <= t.src < BASE && 0 <= t.dst < BASE
  {
    hide ShapeOf, AlignDown, BytesOf;
  }

  /** Within the buffer's length of its start, an address fails only where the difference
      wraps. */
  lemma BoundDecided(forward: bool, start: int, size: nat, a: int)
    requires 0 <= start < BASE && 0 <= a < BASE && size <= BASE
    requires if forward then start <= a <= start + size else start - size <= a <= start
    ensures BoundHolds(forward, start, size, a) <==> forward || start >= size
  {
  }

  lemma ChecksDecided(src: nat, dst: nat, t: Transfer, d: Draw, twoD: bool)
    requires DrawAllowed(d, t.size) && src < BASE && dst < BASE && src + t.size <= BASE && dst + t.size <= BASE
    requires t == TransferOf(src, dst, t.z, t.size, d, twoD, t.forward, t.auto)
    ensures ChecksHold(t) <==> t.forward || HighStarts(t) || t.shape.countIn == 0 || t.shape.countOuter == 0
  {
    hide AccessAt, TransferOf, RangeCheck, HighStarts;
    forall j: nat, i: nat | j < t.shape.countOuter && i < t.shape.countIn
      ensures RangeCheck(t, AccessAt(t.src, t, j, i), AccessAt(t.dst, t, j, i)) <==> t.forward || HighStarts(t)
    {
      CheckAt(src, dst, t, d, twoD, j, i);
    }
    if t.shape.countIn > 0 && t.shape.countOuter > 0 {
      CheckAt(src, dst, t, d, twoD, 0, 0);
    }
  }

  /** The simulator's running addresses visit the accesses of the closed form one after
      another. It ends well exactly when its range assertions hold at all of them;
      otherwise the first access is as far as it gets. */
  method SimulateDMA(t: Transfer, reg: int, ghost src: nat, ghost dst: nat, ghost d: Draw, ghost twoD: bool)
    returns (ok: bool, out: seq<(int, int)>)
    requires DrawAllowed(d, t.size) && src < BASE && dst < BASE && src + t.size <= BASE && dst + t.size <= BASE
    requires t == TransferOf(src, dst, t.z, t.size, d, twoD, t.forward, t.auto)
    ensures ok <==> ChecksHold(t)
    ensures out == if ok then Copied(t, reg, t.shape.countOuter, 0) else CellBytes(t, reg, 0, 0, BytesOf(t.z))
  {
    hide AccessAt, TransferOf, Wrap32, BytesOf, ShapeOf, RangeCheck, HighStarts, ChecksHold, CellBytes;
    out := [];
    var modifyIn, modifyOut := t.shape.strideIn, t.shape.strideOut;
    FirstAccess(t, t.src);
    FirstAccess(t, t.dst);
    ChecksDecided(src, dst, t, d, twoD);
    var srcAddr, dstAddr := Wrap32(t.src), Wrap32(t.dst);
    var j := 0;
    while j < t.shape.countOuter
      invariant 0 <= j <= t.shape.countOuter
      invariant srcAddr == Wrap32(AccessAt(t.src, t, j, 0)) && dstAddr == Wrap32(AccessAt(t.dst, t, j, 0))
      invariant j > 0 && t.shape.countIn > 0 ==> ChecksHold(t)
      invariant out == Copied(t, reg, j, 0)
    {
      var i := 0;
      while i < t.shape.countIn
        invariant 0 <= i <= t.shape.countIn
        invariant srcAddr == Wrap32(AccessAt(t.src, t, j, i)) && dstAddr == Wrap32(AccessAt(t.dst, t, j, i))
        invariant (j > 0 && t.shape.countIn > 0) || i > 0 ==> ChecksHold(t)
        invariant out == Copied(t, reg, j, i)
      {
        CheckAt(src, dst, t, d, twoD, j, i);
        var bytes := MoveBytes(t, reg, j, i, srcAddr, dstAddr);
        if !RangeCheck(t, srcAddr, dstAddr) {
          assert i == j == 0;
          assert out == [];
          return false, out + bytes;
        }
        out := out + bytes;
        Advance(t, t.src, j, i);
        Advance(t, t.dst, j, i);
        if t.forward {
          srcAddr := Wrap32(srcAddr + modifyIn);
          dstAddr := Wrap32(dstAddr + modifyIn);
        } else {
          srcAddr := Wrap32(srcAddr - modifyIn);
          dstAddr := Wrap32(dstAddr - modifyIn);
        }
        i := i + 1;
      }
      AdvanceRow(t, t.src, j);
      AdvanceRow(t, t.dst, j);
      if t.forward {
        srcAddr := Wrap32(srcAddr + modifyOut);
        dstAddr := Wrap32(dstAddr + modifyOut);
        srcAddr := Wrap32(srcAddr - modifyIn);
        dstAddr := Wrap32(dstAddr - modifyIn);
      } else {
        srcAddr := Wrap32(srcAddr - modifyOut);
        dstAddr := Wrap32(dstAddr - modifyOut);
        srcAddr := Wrap32(srcAddr + modifyIn);
        dstAddr := Wrap32(dstAddr + modifyIn);
      }
      j := j + 1;
    }
    ok := true;
  }

  /** Every byte moved lies in the two buffers, at the same distance from their starts. */
  lemma {:induction false} CopiedInside(t: Transfer, reg: int, src: nat, dst: nat, d: Draw, twoD: bool, j: nat, i: nat)
    requires DrawAllowed(d, t.size) && BytesOf(t.z) <= t.size && src + t.size <= BASE && dst + t.size <= BASE
    requires t == TransferOf(src, dst, t.z, t.size, d, twoD, t.forward, t.auto)
    requires i <= t.shape.countIn && (j < t.shape.countOuter || (j == t.shape.countOuter && i == 0))
    ensures forall k :: 0 <= k < |Copied(t, reg, j, i)| ==>
              var (p, q) := Copied(t, reg, j, i)[k];
              dst <= q < dst + t.size && if t.auto then p == reg else src <= p < src + t.size && p - src == q - dst
    decreases j, i
  {
    hide AccessAt, TransferOf, BytesOf;
    if i > 0 {
      CopiedInside(t, reg, src, dst, d, twoD, j, i - 1);
      AccessInside(src, dst, t.z, t.size, d, twoD, t.forward, t.auto, j, i - 1);
    } else if j > 0 {
      CopiedInside(t, reg, src, dst, d, twoD, j - 1, t.shape.countIn);
    }
  }

  /** A transfer between two free ranges whose ends are at least 16 apart stays in both. */
  lemma TransferInsideRanges(r: Range, q: Range, z: Size, reg: int, d: Draw, twoD: bool, forward: bool, auto: bool)
    requires Free(r) && Free(q) && r.second - r.first >= 16 && q.second - q.first >= 16
    requires DrawAllowed(d, BufferSize(r, q))
    ensures var m := BufferSize(r, q);
            var t := TransferOf(BufferStart(r.first, z), BufferStart(q.first, z), z, m, d, twoD, forward, auto);
            forall k :: 0 <= k < |Copied(t, reg, t.shape.countOuter, 0)| ==>
              var (a, b) := Copied(t, reg, t.shape.countOuter, 0)[k];
              q.first <= b < q.second && if auto then a == reg else r.first <= a < r.second
  {
    hide BufferSize, BufferStart, BytesOf, TransferOf, Copied;
    var m := BufferSize(r, q);
    BufferInside(r, q, z);
    BufferInside(q, r, z);
    EnoughSpace(r, q);
    var src, dst := BufferStart(r.first, z), BufferStart(q.first, z);
    var t := TransferOf(src, dst, z, m, d, twoD, forward, auto);
    TransferFields(src, dst, z, m, d, twoD, forward, auto);
    CopiedInside(t, reg, src, dst, d, twoD, t.shape.countOuter, 0);
  }

  lemma EnoughSpace(r: Range, q: Range)
    requires r.second - r.first >= 16 && q.second - q.first >= 16
    ensures BufferSize(r, q) >= 8
  {
  }

  lemma TransferFields(src: int, dst: int, z: Size, m: nat, d: Draw, twoD: bool, forward: bool, auto: bool)
    ensures var t := TransferOf(src, dst, z, m, d, twoD, forward, auto);
            t.z == z && t.size == m && t.forward == forward && t.auto == auto
  {
  }

  // ----- transfers of any two ranges

  /** The transfer between two ranges the generator has chosen. */
  function RangeTransfer(r: Range, q: Range, z: Size, d: Draw, twoD: bool, forward: bool, auto: bool): Transfer
    requires Free(r) && Free(q)
  {
    TransferOf(BufferStart(r.first, z), BufferStart(q.first, z), z, BufferSize(r, q), d, twoD, forward, auto)
  }

  /** The range, both its ends included as in the allocator, holds the n bytes from a on. */
  predicate HoldsBytes(r: Range, a: int, n: nat) {
    n > 0 ==> MemManager.Holds(r, a) && MemManager.Holds(r, a + n - 1)
  }

  /** Every byte of every access from a start address is in the range. */
  ghost predicate StaysInRange(t: Transfer, start: int, r: Range) {
    forall j: nat, i: nat :: j < t.shape.countOuter && i < t.shape.countIn ==>
      HoldsBytes(r, AccessAt(start, t, j, i), BytesOf(t.z))
  }

  /** A range is long enough next to another one: its ends are eight and one access apart,
      or, when the accesses all fall on one place, that place lies in it. */
  predicate LongEnough(r: Range, q: Range, z: Size, forward: bool)
    requires Free(r)
  {
    || Shorter(r, q) >= 8 + BytesOf(z)
    || if forward then BufferStart(r.first, z) + BytesOf(z) <= r.second + 1
       else if z > 0 then AlignDown(r.first, z) == r.first
       else r == Range(0, BASE - 1)     // one byte below address zero is the last byte of memory
  }

  /** A transfer stays in the ranges it is generated for exactly when nothing is moved or
      they are long enough; for an auto DMA only the destination is a range. */
  lemma TransferInsideIff(r: Range, q: Range, z: Size, d: Draw, twoD: bool, forward: bool, auto: bool)
    requires Free(r) && Free(q) && DrawAllowed(d, BufferSize(r, q))
    ensures var t := RangeTransfer(r, q, z, d, twoD, forward, auto);
            StaysInRange(t, t.dst, q) && (auto || StaysInRange(t, t.src, r))
            <==> || NoTransfer(BufferSize(r, q), d, twoD)
                 || (LongEnough(q, r, z, forward) && (auto || LongEnough(r, q, z, forward)))
  {
    hide BufferSize, NoTransfer, AccessAt, StaysInRange, LongEnough, BufferStart, BytesOf, ShapeOf;
    var t, m := RangeTransfer(r, q, z, d, twoD, forward, auto), BufferSize(r, q);
    NoTransferShape(m, z, d, twoD);
    if NoTransfer(m, d, twoD) {
      NoAccesses(t, t.dst, q);
      NoAccesses(t, t.src, r);
    } else {
      BufferInside(r, q, z);
      StaysInRangeIff(r, q, z, d, twoD, forward, t, t.src, BufferStart(r.first, z));
      StaysInRangeIff(q, r, z, d, twoD, forward, t, t.dst, BufferStart(q.first, z));
    }
  }

  lemma NoAccesses(t: Transfer, start: int, r: Range)
    requires t.shape.countIn == 0 || t.shape.countOuter == 0
    ensures StaysInRange(t, start, r)
  {
  }

  lemma StaysInRangeIff(r: Range, q: Range, z: Size, d: Draw, twoD: bool, forward: bool, t: Transfer, start: int,
      buffer: int)
    requires Free(r) && Free(q) && DrawAllowed(d, BufferSize(r, q)) && BufferSize(r, q) == BufferSize(q, r)
    requires t.shape == ShapeOf(BufferSize(r, q), z, d, twoD) && t.z == z && t.forward == forward
    requires t.shape.countIn > 0 && t.shape.countOuter > 0 && buffer == BufferStart(r.first, z)
    requires start == Wrap32(buffer + if forward then 0 else AlignDown(BufferSize(r, q), z) - BytesOf(z))
    ensures StaysInRange(t, start, r) <==> LongEnough(r, q, z, forward)
  {
    hide AccessOffset, ShapeOf;
    var m := BufferSize(r, q);
    BufferInside(r, q, z);
    forall j: nat, i: nat | j < t.shape.countOuter && i < t.shape.countIn
      ensures HoldsBytes(r, AccessAt(start, t, j, i), BytesOf(z)) <==> LongEnough(r, q, z, forward)
    {
      OffsetAtMost(m, z, d, twoD, j, i);
    }
    if StaysInRange(t, start, r) {
      assert HoldsBytes(r, AccessAt(start, t, 0, 0), BytesOf(z));
    }
  }

  /** Where the ends are ten apart a double access runs past the last byte. */
  lemma SmallBufferCounterexample()
    ensures var r := Range(0x1000, 0x100a);
            var t := RangeTransfer(r, r, 3, Draw(0, false, 0, 0), false, true, false);
            t.shape.countOuter == t.shape.countIn == 1 && !HoldsBytes(r, AccessAt(t.dst, t, 0, 0), BytesOf(3))
  {
    hide AccessOffset, AccessAt;
    assert BufferStart(0x1000, 3) == 0x1008;
    SmallShape();
    var t := Transfer(0x1008, 0x1008, 3, 2, true, false, Shape(0, 1, 0, 1));
    FirstAccess(t, t.dst);
  }

  lemma SmallShape()
    ensures ShapeOf(2, 3, Draw(0, false, 0, 0), false) == Shape(0, 1, 0, 1)
  {
    assert 2 / 1 == 2;
    assert AlignDown(2, 3) == 0;
  }

  // ----- the simulator's assertions between any two ranges

  /** A range starts far enough above address zero for a backwards transfer of m bytes. */
  predicate HighEnough(first: nat, z: Size, m: nat) {
    if z == 0 then first >= 1 || m == 0 else AlignDown(first, z) >= m - AlignDown(m, z)
  }

  /** The simulator's assertions hold exactly when the transfer goes forwards or moves
      nothing, or both ranges start high enough. */
  lemma ChecksHoldIff(r: Range, q: Range, z: Size, d: Draw, twoD: bool, forward: bool, auto: bool)
    requires Free(r) && Free(q) && DrawAllowed(d, BufferSize(r, q))
    ensures var m := BufferSize(r, q);
            ChecksHold(RangeTransfer(r, q, z, d, twoD, forward, auto))
            <==> || forward || NoTransfer(m, d, twoD)
                 || (HighEnough(r.first, z, m) && HighEnough(q.first, z, m))
  {
    hide NoTransfer, ChecksHold, ShapeOf;
    var t, m := RangeTransfer(r, q, z, d, twoD, forward, auto), BufferSize(r, q);
    BufferInside(r, q, z);
    BufferInside(q, r, z);
    NoTransferShape(m, z, d, twoD);
    ChecksDecided(BufferStart(r.first, z), BufferStart(q.first, z), t, d, twoD);
  }

  /** At the bottom of memory they fail: a buffer of 249 bytes whose backwards transfer
      starts at address 248. */
  lemma LowRangeCounterexample()
    ensures var r := Range(0, 257);
            var d := Draw(1, false, 0, 0);
            var t := RangeTransfer(r, r, 3, d, false, false, false);
            && DrawAllowed(d, BufferSize(r, r)) && t.src == 248 && t.size == 249
            && t.shape.countOuter == t.shape.countIn == 1 && !RangeCheck(t, AccessAt(t.src, t, 0, 0), t.dst)
  {
    hide AccessOffset;
    var d := Draw(1, false, 0, 0);
    assert 249 / 1 == 249;
    OffsetZero(ShapeOf(249, 3, d, false));
  }
}
