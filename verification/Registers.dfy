/** igen's register manager: the list of known values, the protected window of pointer
    registers and the registers changed so far (igen/regs.h). */
module Registers {
  import opened Words
  import opened Tracker

  datatype Pair = Pair(reg: nat, val: Word)

  /** The list as a table: no register twice. */
  ghost predicate Represents(list: seq<Pair>, known: map<nat, Word>) {
    && (forall i, j :: 0 <= i < j < |list| ==> list[i].reg != list[j].reg)
    && (forall i :: 0 <= i < |list| ==> list[i].reg in known && known[list[i].reg] == list[i].val)
    && (forall r :: r in known ==> exists i :: 0 <= i < |list| && list[i].reg == r)
  }

  lemma UpdatedRepresents(list: seq<Pair>, known: map<nat, Word>, i: nat, v: Word)
    requires Represents(list, known) && i < |list|
    ensures Represents(list[i := Pair(list[i].reg, v)], known[list[i].reg := v])
  {
    var t := list[i := Pair(list[i].reg, v)];
    forall r | r in known
      ensures exists j :: 0 <= j < |t| && t[j].reg == r
    {
      var j :| 0 <= j < |list| && list[j].reg == r;
      assert t[j].reg == r;
    }
  }

  lemma AddedRepresents(list: seq<Pair>, known: map<nat, Word>, r: nat, v: Word)
    requires Represents(list, known) && forall i :: 0 <= i < |list| ==> list[i].reg != r
    ensures Represents(list + [Pair(r, v)], known[r := v])
    ensures r !in known
  {
    var t, m := list + [Pair(r, v)], known[r := v];
    forall q | q in m
      ensures exists j :: 0 <= j < |t| && t[j].reg == q
    {
      if q == r {
        assert t[|list|].reg == q;
      } else {
        var j :| 0 <= j < |list| && list[j].reg == q;
        assert t[j].reg == q;
      }
    }
  }

  lemma ErasedRepresents(list: seq<Pair>, known: map<nat, Word>, i: nat)
    requires Represents(list, known) && i < |list|
    ensures Represents(list[..i] + list[i + 1..], known - {list[i].reg})
  {
    var t, r := list[..i] + list[i + 1..], list[i].reg;
    assert forall j :: 0 <= j < |t| ==> t[j] == list[if j < i then j else j + 1];
    forall q | q in known - {r}
      ensures exists j :: 0 <= j < |t| && t[j].reg == q
    {
      var j :| 0 <= j < |list| && list[j].reg == q;
      assert t[if j < i then j else j - 1].reg == q;
    }
  }

  lemma AbsentUnknown(list: seq<Pair>, known: map<nat, Word>, r: nat)
    requires Represents(list, known) && forall i :: 0 <= i < |list| ==> list[i].reg != r
    ensures r !in known && known - {r} == known
  {
  }

  lemma AbsentAll(list: seq<Pair>, known: map<nat, Word>)
    requires Represents(list, known) && list == []
    ensures known == map[]
  {
  }

  /** The table of a list of pairs, later entries first. */
  function TableOf(list: seq<Pair>): map<nat, Word> {
    if list == [] then map[] else TableOf(list[..|list| - 1])[list[|list| - 1].reg := list[|list| - 1].val]
  }

  lemma {:induction false} TableRepresents(list: seq<Pair>)
    requires forall i, j :: 0 <= i < j < |list| ==> list[i].reg != list[j].reg
    ensures Represents(list, TableOf(list))
  {
    if list != [] {
      var rest, last := list[..|list| - 1], list[|list| - 1];
      TableRepresents(rest);
      AddedRepresents(rest, TableOf(rest), last.reg, last.val);
      assert rest + [Pair(last.reg, last.val)] == list;
    }
  }

  ghost predicate AllBelow(list: seq<Pair>, nregs: nat) {
    forall i :: 0 <= i < |list| ==> list[i].reg < nregs
  }

  /** Recorded registers exist, are recorded once, and the frame register is not among them. */
  ghost predicate ChangedRegs(list: seq<nat>, nregs: nat, frame: nat) {
    && (forall i, j :: 0 <= i < j < |list| ==> list[i] != list[j])
    && (forall i :: 0 <= i < |list| ==> list[i] < nregs && list[i] != frame)
  }

  lemma NoneChanged(nregs: nat, frame: nat)
    ensures ChangedRegs([], nregs, frame)
  {
  }

  /** The protected registers first..second of nregs. */
  datatype Window = Window(nregs: nat, first: nat, second: nat)

  class RegManager {
    const nregs: nat
    var rf: seq<Pair>
    var constRegs: seq<Pair>
    var modifiedRegs: seq<nat>
    var memRegInd1: nat
    var memRegInd2: nat
    var loopCountReg: nat
    var intFrameReg: nat
    var az: (bool, bool)
    var an: (bool, bool)
    var ac: (bool, bool)
    var av: (bool, bool)
    var avs: (bool, bool)
    ghost var known: map<nat, Word>

    /** Loop and frame register at the start of the window, then the pointers, which
        later extend the window downwards. */
    ghost predicate Valid()
      reads `rf, `known, `modifiedRegs, `constRegs, `memRegInd1, `memRegInd2, `loopCountReg, `intFrameReg
    {
      && (nregs == 16 || nregs == 32 || nregs == 64)
      && Represents(rf, known)
      && AllBelow(rf, nregs)
      && Protected()
      && ChangedRegs(modifiedRegs, nregs, intFrameReg)
    }

    ghost predicate Protected()
      reads `constRegs, `memRegInd1, `memRegInd2, `loopCountReg, `intFrameReg
    {
      && 2 <= memRegInd1 <= loopCountReg && intFrameReg == loopCountReg + 1 < memRegInd2 <= nregs
      && (memRegInd1 < loopCountReg ==> memRegInd2 == nregs)
      && |constRegs| == (memRegInd2 - memRegInd1) - 2
      && (forall i :: 0 <= i < |constRegs| ==> memRegInd1 <= constRegs[i].reg < memRegInd2
                                               && constRegs[i].reg != loopCountReg && constRegs[i].reg != intFrameReg)
      && (forall i, j :: 0 <= i < j < |constRegs| ==> constRegs[i].reg != constRegs[j].reg)
    }

    ghost function Facts(): Known
      reads this
    {
      Known(known, Flag(az), Flag(an), Flag(ac), Flag(av), Flag(avs))
    }

    /** The registers recorded as changed. */
    ghost function Changed(): set<nat>
      reads `modifiedRegs
    {
      set r | r in modifiedRegs
    }

    static function Flag(f: (bool, bool)): Tri {
      if f.0 then Is(f.1) else Unknown
    }

    function PointerWindow(): Window
      reads `memRegInd1, `memRegInd2
    {
      Window(nregs, memRegInd1, memRegInd2)
    }

    /** A destination the constraints of the instruction generators allow. */
    predicate Free(r: nat)
      reads `memRegInd1, `memRegInd2
    {
      r < nregs && !(memRegInd1 <= r <= memRegInd2)
    }

    constructor (nregs: nat, ind1: nat)
      requires nregs == 16 || nregs == 32 || nregs == 64
      requires 2 <= ind1 <= nregs - 2
      ensures Valid() && Facts() == Known(map[], Unknown, Unknown, Unknown, Unknown, Unknown)
      ensures rf == [] && constRegs == [] && modifiedRegs == [] && this.nregs == nregs
    {
      this.nregs := nregs;
      rf, constRegs, modifiedRegs := [], [], [];
      memRegInd1, memRegInd2 := ind1, ind1 + 2;
      loopCountReg, intFrameReg := ind1, ind1 + 1;
      az, an, ac, av, avs := (false, false), (false, false), (false, false), (false, false), (false, false);
      known := map[];
    }

    /** The frame register is inside the window. */
    lemma FreeIsNotFrame(r: nat)
      requires Valid() && Free(r)
      ensures r != intFrameReg && r < nregs
    {
    }

    method InvalidateAllFlags()
      modifies `az, `an, `ac, `av, `avs
      ensures !az.0 && !an.0 && !ac.0 && !av.0 && !avs.0
    {
      az, an, ac, av, avs := (false, az.1), (false, an.1), (false, ac.1), (false, av.1), (false, avs.1);
    }

    method RecordChangedReg(ind: nat)
      requires ind < nregs && ind != intFrameReg && ChangedRegs(modifiedRegs, nregs, intFrameReg)
      modifies `modifiedRegs
      ensures ChangedRegs(modifiedRegs, nregs, intFrameReg) && Changed() == old(Changed()) + {ind}
      ensures modifiedRegs == if ind in old(modifiedRegs) then old(modifiedRegs) else old(modifiedRegs) + [ind]
    {
      if ind !in modifiedRegs {
        modifiedRegs := modifiedRegs + [ind];
      }
    }

    method GetReg(ind: nat) returns (found: bool, val: Word)
      requires Valid()
      ensures found <==> ind in known
      ensures found ==> val == known[ind]
    {
      var it := 0;
      while it < |rf|
        invariant 0 <= it <= |rf| && forall i :: 0 <= i < it ==> rf[i].reg != ind
      {
        if rf[it].reg == ind {
          return true, rf[it].val;
        }
        it := it + 1;
      }
      AbsentUnknown(rf, known, ind);
      return false, 0;
    }

    method SetReg(ind: nat, val: Word)
      requires Valid() && ind < nregs && ind != intFrameReg
      modifies `rf, `modifiedRegs, `known
      ensures Valid() && Facts() == Set(old(Facts()), ind, val) && Changed() == old(Changed()) + {ind}
      ensures modifiedRegs == if ind in old(modifiedRegs) then old(modifiedRegs) else old(modifiedRegs) + [ind]
    {
      hide Represents, ChangedRegs;
      var it := 0;
      while it < |rf| && rf[it].reg != ind
        invariant 0 <= it <= |rf| && forall i :: 0 <= i < it ==> rf[i].reg != ind
      {
        it := it + 1;
      }
      if it < |rf| {
        UpdatedRepresents(rf, known, it, val);
        rf := rf[it := Pair(ind, val)];
      } else {
        AddedRepresents(rf, known, ind, val);
        rf := rf + [Pair(ind, val)];
      }
      known := known[ind := val];
      RecordChangedReg(ind);
    }

    method InvalidateReg(ind: nat)
      requires Valid() && Free(ind)
      modifies `rf, `modifiedRegs, `known
      ensures Valid() && Facts() == Forget(old(Facts()), ind) && Changed() == old(Changed()) + {ind}
      ensures modifiedRegs == if ind in old(modifiedRegs) then old(modifiedRegs) else old(modifiedRegs) + [ind]
    {
      hide Represents, ChangedRegs;
      var it := 0;
      while it < |rf| && rf[it].reg != ind
        invariant 0 <= it <= |rf| && forall i :: 0 <= i < it ==> rf[i].reg != ind
      {
        it := it + 1;
      }
      if it < |rf| {
        ErasedRepresents(rf, known, it);
        rf := rf[..it] + rf[it + 1..];
      } else {
        AbsentUnknown(rf, known, ind);
      }
      known := known - {ind};
      RecordChangedReg(ind);
    }

    /** Random values for all registers but the loop and the frame register. */
    method Init(values: nat -> Word)
      requires Valid() && rf == []
      modifies `rf, `modifiedRegs, `known
      ensures Valid() && forall r: nat :: r in known <==> r < nregs && r != loopCountReg && r != intFrameReg
      ensures forall r :: r in known ==> known[r] == values(r)
    {
      hide Represents;
      AbsentAll(rf, known);
      var i := 0;
      while i < nregs
        invariant 0 <= i <= nregs && Valid()
        invariant forall r: nat :: r in known <==> r < i && r != loopCountReg && r != intFrameReg
        invariant forall r :: r in known ==> known[r] == values(r)
      {
        if i != loopCountReg && i != intFrameReg {
          SetReg(i, values(i));
        }
        i := i + 1;
      }
    }

    lemma PointersDistinct()
      requires Protected()
      ensures forall i, j :: 0 <= i < j < |constRegs| ==> constRegs[i].reg != constRegs[j].reg
    {
    }

    lemma PointersBelow()
      requires Protected()
      ensures AllBelow(constRegs, nregs)
    {
    }

    method CopyPointers() returns (list: seq<Pair>)
      ensures list == constRegs
    {
      list := [];
      var it := 0;
      while it < |constRegs|
        invariant 0 <= it <= |constRegs| && list == constRegs[..it]
      {
        list := list + [constRegs[it]];
        it := it + 1;
      }
    }

    /** At the start of a subroutine only the pointer registers are known. */
    method InvalidateAllRegs()
      requires Valid()
      modifies `rf, `modifiedRegs, `known, `az, `an, `ac, `av, `avs
      ensures Valid() && Facts() == Known(TableOf(constRegs), Unknown, Unknown, Unknown, Unknown, Unknown)
      ensures modifiedRegs == [] && Changed() == {}
    {
      hide Represents, TableOf, AllBelow, Protected, ChangedRegs;
      PointersBelow();
      PointersDistinct();
      NoneChanged(nregs, intFrameReg);
      rf := CopyPointers();
      TableRepresents(constRegs);
      known := TableOf(constRegs);
      modifiedRegs := [];
      InvalidateAllFlags();
    }

    /** Before an interrupt routine is printed r0, r1 and the loop register count as changed. */
    method RecordContext(loopCount: Word)
      requires Valid()
      modifies `rf, `modifiedRegs, `known
      ensures Valid() && ChangedRegs(modifiedRegs, nregs, intFrameReg)
      ensures Changed() == old(Changed()) + {0, 1, loopCountReg}
    {
      hide Valid, Changed;
      ContextRegs();
      SetReg(0, 0);
      SetReg(1, 0);
      SetReg(loopCountReg, loopCount);
      ContextRegs();
    }

    lemma ContextRegs()
      requires Valid()
      ensures 1 < loopCountReg < nregs && 1 < intFrameReg < nregs && loopCountReg != intFrameReg
      ensures ChangedRegs(modifiedRegs, nregs, intFrameReg)
    {
    }

    /** A new pointer register: above the window while there is room, then below it. */
    method CreateSetMemPointerReg(val: Word)
      requires Valid() && |constRegs| < nregs / 4
      modifies this
      ensures Valid() && |constRegs| == |old(constRegs)| + 1
      ensures constRegs[..|old(constRegs)|] == old(constRegs) && constRegs[|old(constRegs)|].val == val
      ensures Facts() == Set(old(Facts()), constRegs[|old(constRegs)|].reg, val)
      ensures loopCountReg == old(loopCountReg)
    {
      var ind := memRegInd2;
      if memRegInd2 == nregs {
        memRegInd1 := memRegInd1 - 1;
        ind := memRegInd1;
      } else {
        memRegInd2 := memRegInd2 + 1;
      }
      constRegs := constRegs + [Pair(ind, val)];
      SetReg(ind, val);
    }
  }
}
