/** The search for a function, stated on the attributes that the DIEs carry. */
module DieBounds {
  import opened Words
  import opened DieTree
  import opened DieSearch
  import opened DieSearchLaws
  import opened DieSearchExact

  /** A subprogram or inlined subroutine whose own DW_AT_low_pc and DW_AT_high_pc bound the pc: a high
      pc in the constant class counts from the low pc (section 2.17.2 of DWARF 4). */
  predicate BoundedBy(d: Die, pc: Word) {
    && d.tag in {Subprogram, InlinedSubroutine}
    && d.lowPc.Some? && d.highPc.Some?
    && d.lowPc.value <= pc
    && match d.highPc.value
       case AbsolutePc(h) => pc < h
       case OffsetPc(w) => pc < d.lowPc.value + w < TWO64
  }

  /** The search's test is this one: an offset that would wrap bounds nothing. */
  lemma ContainsIsBounded(d: Die, pc: Word)
    ensures Contains(d, pc) <==> BoundedBy(d, pc)
  {
    if d.lowPc.Some? && d.highPc.Some? && d.highPc.value.OffsetPc? {
      WrappedSum(d.lowPc.value, d.highPc.value.w);
    }
  }

  lemma WrappedSum(l: Word, w: Word)
    ensures ToWord(l + w) == if l + w < TWO64 then l + w else l + w - TWO64
  {
  }

  /** A function that is given up for lack of a range lacks one of the two attributes. */
  lemma RangelessLacks(d: Die)
    ensures Rangeless(d) <==> d.tag in {Subprogram, InlinedSubroutine} && (d.lowPc.None? || d.highPc.None?)
  {
  }

  /** The first DIE of a list whose attributes bound the pc, as the search's first match. */
  lemma FirstIsBounded(dies: seq<Die>, pc: Word)
    ensures match FirstMatch(dies, pc)
      case Some(d) => exists k :: 0 <= k < |dies| && dies[k] == d && BoundedBy(d, pc)
                                  && forall j :: 0 <= j < k ==> !BoundedBy(dies[j], pc)
      case None => forall k :: 0 <= k < |dies| ==> !BoundedBy(dies[k], pc)
  {
    FirstMatchMeaning(dies, pc);
    forall k | 0 <= k < |dies| ensures Contains(dies[k], pc) <==> BoundedBy(dies[k], pc) {
      ContainsIsBounded(dies[k], pc);
    }
  }

  /** Over units without errors that hide nothing that matters: a function found carries attributes
      that bound the pc, no DIE before it in its unit does, and no DIE of an admitted unit before
      that; nothing is found exactly when no DIE of any admitted unit carries such attributes. */
  lemma FoundFunctionIsBounded(cus: seq<Die>, pc: Word)
    requires forall k :: 0 <= k < |cus| ==>
      cus[k].tag.UnitTag? && (Admitted(cus[k]) || cus[k].verdict.NoEntry? || cus[k].verdict.NotThisCu?)
    requires forall k :: 0 <= k < |cus| && Admitted(cus[k]) ==> Honest(cus[k])
    ensures var r := FindFunction(cus, pc);
      if r.None? then forall k :: 0 <= k < |cus| && Admitted(cus[k]) ==> NoneBounded(Preorder([cus[k]]), pc)
      else
        && BoundedBy(r.value.1, pc)
        && FirstBounded(Preorder([r.value.0]), r.value.1, pc)
        && exists k :: 0 <= k < |cus| && cus[k] == r.value.0 && Admitted(cus[k])
                       && forall j :: 0 <= j < k && Admitted(cus[j]) ==> NoneBounded(Preorder([cus[j]]), pc)
  {
    FindFunctionIsFirst(cus, pc);
    forall k | 0 <= k < |cus| ensures Admitted(cus[k]) && !Hit(cus[k], pc) ==> NoneBounded(Preorder([cus[k]]), pc) {
      FirstIsBounded(Preorder([cus[k]]), pc);
    }
    var r := FindFunction(cus, pc);
    if r.Some? {
      FirstIsBounded(Preorder([r.value.0]), pc);
    }
  }

  predicate NoneBounded(dies: seq<Die>, pc: Word) {
    forall k :: 0 <= k < |dies| ==> !BoundedBy(dies[k], pc)
  }

  predicate FirstBounded(dies: seq<Die>, d: Die, pc: Word) {
    exists k :: 0 <= k < |dies| && dies[k] == d && BoundedBy(d, pc) && NoneBounded(dies[..k], pc)
  }

  /** Whatever the units and their trees, a function that is found carries attributes that bound the
      pc. */
  lemma {:induction false} AlwaysBounded(cus: seq<Die>, pc: Word)
    requires forall k :: 0 <= k < |cus| ==>
      cus[k].tag.UnitTag? && (Admitted(cus[k]) || cus[k].verdict.NoEntry? || cus[k].verdict.NotThisCu?)
    ensures FindFunction(cus, pc).Some? ==> BoundedBy(FindFunction(cus, pc).value.1, pc)
  {
    FindFunctionSees(cus, pc);
    var r := FindFunction(cus, pc);
    if r.Some? {
      FirstIsBounded(SeeKids(r.value.0).seen, pc);
    }
  }

  /** A unit whose verdict is an error ends the search with nothing found, whatever comes after it. */
  lemma {:induction false} ErrorEndsSearch(cus: seq<Die>, pc: Word, k: nat)
    requires k < |cus| && cus[k].tag.UnitTag? && cus[k].verdict.Err?
    requires forall j :: 0 <= j < k ==>
      cus[j].tag.UnitTag? && (Admitted(cus[j]) || cus[j].verdict.NoEntry? || cus[j].verdict.NotThisCu?)
      && !SeenHit(cus[j], pc)
    ensures FindFunction(cus, pc) == None
  {
    var cu := cus[0];
    if k > 0 {
      if Admitted(cu) {
        UnitSearch(cu, pc);
      }
      ErrorEndsSearch(cus[1..], pc, k - 1);
    }
  }

  /** A function at 0x1000 with a high pc of offset 0x20, the form that current compilers emit. */
  lemma OffsetExample(cu: Die, d: Die)
    requires d == Die(2, Subprogram, Some(0x1000), Some(OffsetPc(0x20)), Ok, [])
    requires cu == Die(1, UnitTag, None, None, Ok, [d])
    ensures FindFunction([cu], 0x1010) == Some((cu, d))
    ensures FindFunction([cu], 0x1020) == None
  {
    forall pc: Word | pc == 0x1010 || pc == 0x1020
      ensures FindFunction([cu], pc) == if pc == 0x1010 then Some((cu, d)) else None
    {
      ContainsIsBounded(d, pc);
      assert SeeRest([d]).seen == [] && [d] + [] == [d];
      assert SeeKids(cu).seen == See([d]).seen == [d];
      assert FirstMatch([d], pc) == if BoundedBy(d, pc) then Some(d) else None by { assert [d][1..] == []; }
      UnitSearch(cu, pc);
      assert [cu][1..] == [];
    }
  }
}
