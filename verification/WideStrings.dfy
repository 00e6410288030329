/** Character strings packed into wide numbers and back
    (epiphany_models/verilated.cpp:631-656). */
module WideStrings {
  import opened Accesses
  import opened Words

  /** Number of bytes that hold a value of some bits. */
  function BytesFor(obits: nat): nat {
    (obits + 7) / 8
  }

  /** Byte i of a number in 32-bit words, low word first. */
  function ByteAt(words: seq<Word>, i: nat): Byte
    requires i / 4 < |words|
  {
    ByteOf(0, words[i / 4], i % 4)
  }

  /** Byte i of the packed form of a string: its last character, as far as there is room
      for the string, is byte 0. */
  function PackedByte(src: seq<Byte>, bytes: nat, i: nat): Byte {
    var n := if |src| > bytes then bytes else |src|;
    if i < n then src[n - 1 - i] else 0
  }

  /** Packs a string into the bytes of a number. */
  method StringToVint(obits: nat, dest: array<Byte>, src: seq<Byte>)
    requires dest.Length >= BytesFor(obits)
    modifies dest
    ensures forall i :: 0 <= i < BytesFor(obits) ==> dest[i] == PackedByte(src, BytesFor(obits), i)
    ensures forall i :: BytesFor(obits) <= i < dest.Length ==> dest[i] == old(dest[i])
  {
    var bytes := BytesFor(obits);
    var srclen := |src|;
    if srclen > bytes {
      srclen := bytes;
    }
    var i := 0;
    while i < srclen
      invariant 0 <= i <= srclen
      invariant forall k :: 0 <= k < i ==> dest[k] == PackedByte(src, bytes, k)
      invariant forall k :: i <= k < dest.Length ==> dest[k] == old(dest[k])
    {
      dest[i] := src[srclen - 1 - i];
      i := i + 1;
    }
    while i < bytes
      invariant srclen <= i <= bytes
      invariant forall k :: 0 <= k < i ==> dest[k] == PackedByte(src, bytes, k)
      invariant forall k :: i <= k < dest.Length ==> dest[k] == old(dest[k])
    {
      dest[i] := 0;
      i := i + 1;
    }
  }

  const SPACE: Byte := 32

  /** What the bytes below n print, from the top: leading zeros are dropped, later zeros
      are spaces. */
  function Shown(words: seq<Word>, n: nat, start: bool): seq<Byte>
    requires n <= 4 * |words|
  {
    if n == 0 then []
    else
      var c := ByteAt(words, n - 1);
      if start && c == 0 then Shown(words, n - 1, true)
      else [if c == 0 then SPACE else c] + Shown(words, n - 1, false)
  }

  lemma ShownNone(words: seq<Word>)
    ensures Shown(words, 0, true) == Shown(words, 0, false) == []
  {
  }

  lemma ShownNext(words: seq<Word>, n: nat, start: bool)
    requires n < 4 * |words|
    ensures var c := ByteAt(words, n);
            Shown(words, n + 1, start)
            == if start && c == 0 then Shown(words, n, true) else [if c == 0 then SPACE else c] + Shown(words, n, false)
  {
  }

  /** From a bit position to the bytes still to come, before and after a step. */
  lemma BytePosition(lsb: nat)
    ensures (lsb + 8) / 8 == lsb / 8 + 1 && (lsb / 8 * 8 - 1 + 8) / 8 == lsb / 8 && lsb / 8 * 8 <= lsb
  {
  }

  lemma {:induction false} ShownLength(words: seq<Word>, n: nat, start: bool)
    requires n <= 4 * |words|
    ensures |Shown(words, n, start)| <= n
    ensures 0 !in Shown(words, n, start)
  {
    if n > 0 {
      ShownLength(words, n - 1, start && ByteAt(words, n - 1) == 0);
    }
  }

  // ----- the trailing-space loop

  /** White space of the C locale. */
  predicate IsSpace(b: Byte) {
    b == 32 || 9 <= b <= 13
  }

  /** A string without the white space at its end. */
  function Dropped(s: seq<Byte>): seq<Byte> {
    if s != [] && IsSpace(s[|s| - 1]) then Dropped(s[..|s| - 1]) else s
  }

  /** Clears the white space at the end of the first bytes of a buffer. */
  method DropTrailing(dest: array<Byte>, end: nat) returns (destp: nat)
    requires end <= dest.Length
    modifies dest
    ensures destp <= end && dest[..destp] == Dropped(old(dest[..end]))
    ensures forall k :: destp <= k < end ==> dest[k] == 0
    ensures forall k :: end <= k < dest.Length ==> dest[k] == old(dest[k])
  {
    destp := end;
    while destp > 0 && IsSpace(dest[destp - 1])
      invariant destp <= end && Dropped(dest[..destp]) == Dropped(old(dest[..end]))
      invariant forall k :: destp <= k < end ==> dest[k] == 0
      invariant forall k :: end <= k < dest.Length ==> dest[k] == old(dest[k])
    {
      assert dest[..destp][..destp - 1] == dest[..destp - 1];
      destp := destp - 1;
      dest[destp] := 0;
    }
  }

  /** Prints a number as a string with its terminator. The loop that drops trailing spaces
      starts at the terminator, so it drops nothing. */
  method VintToString(obits: nat, words: seq<Word>, dest: array<Byte>) returns (destp: nat)
    requires BytesFor(obits) <= 4 * |words| && dest.Length > BytesFor(obits)
    modifies dest
    ensures destp <= BytesFor(obits) + 1 && dest[..destp] == Shown(words, BytesFor(obits), true) + [0]
    ensures forall k :: destp <= k < dest.Length ==> dest[k] == old(dest[k])
  {
    hide ByteAt, Shown;
    ghost var shown := Shown(words, BytesFor(obits), true);
    ShownNone(words);
    var lsb := obits - 1;
    var start := true;
    destp := 0;
    while lsb >= 0
      invariant -1 <= lsb < 8 * BytesFor(obits)
      invariant destp + (lsb + 8) / 8 <= BytesFor(obits)
      invariant dest[..destp] + Shown(words, (lsb + 8) / 8, start) == shown
      invariant forall k :: destp <= k < dest.Length ==> dest[k] == old(dest[k])
      decreases lsb + 1
    {
      var n := lsb / 8;
      BytePosition(lsb);
      ShownNext(words, n, start);
      ShownNone(words);
      lsb := lsb / 8 * 8;
      var charval := ByteAt(words, n);
      if !start || charval != 0 {
        dest[destp] := if charval == 0 then SPACE else charval;
        destp := destp + 1;
        start := false;
      }
      lsb := lsb - 1;
    }
    ShownNone(words);
    dest[destp] := 0;
    destp := destp + 1;
    assert dest[..destp] == shown + [0];
    destp := DropTrailing(dest, destp);
  }

  /** What is printed has no white space at its end exactly when the number is zero or its
      lowest byte is a character other than white space. */
  lemma NoTrailingSpaceIff(words: seq<Word>, n: nat)
    requires n <= 4 * |words|
    ensures Dropped(Shown(words, n, true)) == Shown(words, n, true)
            <==> || (forall i :: 0 <= i < n ==> ByteAt(words, i) == 0)
                 || (ByteAt(words, 0) != 0 && !IsSpace(ByteAt(words, 0)))
  {
    hide ByteAt;
    DroppedSame(Shown(words, n, true));
    if forall i :: 0 <= i < n ==> ByteAt(words, i) == 0 {
      LeadingZeros(words, 0, n);
    } else {
      var i :| 0 <= i < n && ByteAt(words, i) != 0;
      LastShown(words, n, true, i);
    }
  }

  lemma {:induction false} DroppedSame(s: seq<Byte>)
    ensures |Dropped(s)| <= |s|
    ensures Dropped(s) == s <==> s == [] || !IsSpace(s[|s| - 1])
  {
    if s != [] && IsSpace(s[|s| - 1]) {
      DroppedSame(s[..|s| - 1]);
    }
  }

  /** Unless all bytes are zero the last one shown is the lowest. */
  lemma {:induction false} LastShown(words: seq<Word>, n: nat, start: bool, i: nat)
    requires i < n <= 4 * |words| && (start ==> ByteAt(words, i) != 0)
    ensures var s := Shown(words, n, start);
            s != [] && s[|s| - 1] == if ByteAt(words, 0) == 0 then SPACE else ByteAt(words, 0)
  {
    if n == 1 {
      ShownNone(words);
    } else if start && ByteAt(words, n - 1) == 0 {
      LastShown(words, n - 1, true, i);
    } else {
      LastShown(words, n - 1, false, 0);
    }
  }

  /** The letter a and a space, packed in 16 bits, keep the space. */
  lemma TrailingSpaceCounterexample()
    ensures BytesFor(16) == 2 && Shown([0x6120], 2, true) == [97, 32] && Dropped([97, 32]) == [97]
  {
    var words: seq<Word> := [0x6120];
    assert ByteAt(words, 1) == 97 && ByteAt(words, 0) == 32;
    ShownNone(words);
    ShownNext(words, 0, false);
    ShownNext(words, 1, true);
    var s: seq<Byte> := [97, 32];
    assert s[..1] == [97];
  }

  /** Bytes that are the characters of a string without zeros are shown as that string. */
  lemma {:induction false} ShownIs(words: seq<Word>, src: seq<Byte>, start: bool)
    requires |src| <= 4 * |words| && 0 !in src
    requires forall i :: 0 <= i < |src| ==> ByteAt(words, i) == src[|src| - 1 - i]
    ensures Shown(words, |src|, start) == src
  {
    if src != [] {
      var rest := src[1..];
      assert src == [src[0]] + rest && src[0] in src;
      assert forall i :: 0 <= i < |rest| ==> ByteAt(words, i) == rest[|rest| - 1 - i];
      ShownIs(words, rest, false);
    }
  }

  lemma {:induction false} LeadingZeros(words: seq<Word>, n: nat, m: nat)
    requires n <= m <= 4 * |words| && forall i :: n <= i < m ==> ByteAt(words, i) == 0
    ensures Shown(words, m, true) == Shown(words, n, true)
  {
    if n < m {
      assert ByteAt(words, m - 1) == 0;
      LeadingZeros(words, n, m - 1);
    }
  }

  /** A string packed and printed comes back exactly when it fits and has no zero byte. */
  lemma PackThenShow(words: seq<Word>, src: seq<Byte>, obits: nat)
    requires BytesFor(obits) <= 4 * |words|
    requires forall i :: 0 <= i < BytesFor(obits) ==> ByteAt(words, i) == PackedByte(src, BytesFor(obits), i)
    ensures Shown(words, BytesFor(obits), true) == src <==> |src| <= BytesFor(obits) && 0 !in src
  {
    hide ByteAt, Shown, BytesFor;
    ShownLength(words, BytesFor(obits), true);
    if |src| <= BytesFor(obits) && 0 !in src {
      LeadingZeros(words, |src|, BytesFor(obits));
      ShownIs(words, src, true);
    }
  }
}
