/** Exactly which DIEs the search examines, by their place in the tree, and exactly when leaving the
    others out does no harm. */
module DieSearchExact {
  import opened Words
  import opened DieTree
  import opened DieSearch
  import opened DieSearchLaws

  // ----- which DIEs are examined -----

  /** The search of a nested list ends the whole search: the list starts with a unit, or, unless it is
      given up, a list below one of its DIEs ends the search. */
  ghost predicate Aborts(forest: seq<Die>)
    decreases forest
  {
    forest != [] &&
    (forest[0].tag.UnitTag? || (!Rangeless(forest[0]) && exists i :: 0 <= i < |forest| && Aborts(forest[i].children)))
  }

  /** No list below an earlier sibling ends the search. */
  ghost predicate ReachedAt(forest: seq<Die>, i: nat)
    requires i <= |forest|
  {
    forall j :: 0 <= j < i ==> !Aborts(forest[j].children)
  }

  /** A place where the search of a nested list examines d: no list on the way starts with a unit; only
      the first DIE of a list that starts with a function without a range; and before the place no
      list that ends the search. */
  ghost predicate Examined(forest: seq<Die>, d: Die)
    decreases forest
  {
    && forest != [] && !forest[0].tag.UnitTag?
    && (d == forest[0] || (!Rangeless(forest[0]) &&
          exists i :: 0 <= i < |forest| && ReachedAt(forest, i) && (d == forest[i] || Examined(forest[i].children, d))))
  }

  lemma {:induction false} AbortsIff(forest: seq<Die>)
    requires forest != []
    ensures See(forest).ending == Aborted <==> Aborts(forest)
    decreases forest, 1
  {
    if !Rangeless(forest[0]) && !forest[0].tag.UnitTag? {
      RestAbortsIff(forest);
    }
  }

  lemma {:induction false} KidsAbortIff(d: Die)
    ensures SeeKids(d).ending == Aborted <==> Aborts(d.children)
    decreases d
  {
    if d.children != [] {
      AbortsIff(d.children);
    }
  }

  lemma {:induction false} RestAbortsIff(forest: seq<Die>)
    requires forest != []
    ensures SeeRest(forest).ending == Aborted <==> exists i :: 0 <= i < |forest| && Aborts(forest[i].children)
    decreases forest, 0
  {
    KidsAbortIff(forest[0]);
    if |forest| > 1 && !Aborts(forest[0].children) {
      var more := forest[1..];
      RestAbortsIff(more);
      assert forall i :: 0 < i < |forest| ==> forest[i] == more[i - 1];
      if i :| 0 <= i < |more| && Aborts(more[i].children) {
        assert Aborts(forest[i + 1].children);
      }
    }
  }

  /** A place among the later siblings of a list, or below any of its DIEs. */
  ghost predicate ExaminedAt(forest: seq<Die>, d: Die, i: nat)
    requires i < |forest|
  {
    ReachedAt(forest, i) && ((i > 0 && d == forest[i]) || Examined(forest[i].children, d))
  }

  ghost predicate HasPlace(forest: seq<Die>, d: Die) {
    exists i: nat :: i < |forest| && ExaminedAt(forest, d, i)
  }

  lemma ReachedNext(forest: seq<Die>, i: nat)
    requires forest != [] && i < |forest|
    ensures ReachedAt(forest, i + 1) <==> !Aborts(forest[0].children) && ReachedAt(forest[1..], i)
  {
    var more := forest[1..];
    assert forall j :: 0 <= j < i ==> more[j] == forest[j + 1];
    if !Aborts(forest[0].children) && ReachedAt(more, i) {
      forall j | 0 <= j < i + 1 ensures !Aborts(forest[j].children) {
        assert j > 0 ==> !Aborts(more[j - 1].children);
      }
    }
    if ReachedAt(forest, i + 1) {
      forall j | 0 <= j < i ensures !Aborts(more[j].children) {
        assert !Aborts(forest[j + 1].children);
      }
    }
  }

  /** The DIEs that the search examines are those at an examined place, on every nested list. */
  lemma {:induction false} SeenIff(forest: seq<Die>, d: Die)
    requires forest != []
    ensures d in See(forest).seen <==> Examined(forest, d)
    decreases forest, 1
  {
    if !Rangeless(forest[0]) && !forest[0].tag.UnitTag? {
      RestSeenIff(forest, d);
      assert d in See(forest).seen <==> d == forest[0] || d in SeeRest(forest).seen;
      if HasPlace(forest, d) {
        var i: nat :| i < |forest| && ExaminedAt(forest, d, i);
        assert Examined(forest, d);
      }
      if d != forest[0] && Examined(forest, d) {
        var i: nat :| i < |forest| && ReachedAt(forest, i) && (d == forest[i] || Examined(forest[i].children, d));
        assert ExaminedAt(forest, d, i);
      }
    }
  }

  lemma {:induction false} KidsSeenIff(parent: Die, d: Die)
    ensures d in SeeKids(parent).seen <==> Examined(parent.children, d)
    decreases parent
  {
    if parent.children != [] {
      SeenIff(parent.children, d);
    }
  }

  lemma {:induction false} RestSeenIff(forest: seq<Die>, d: Die)
    requires forest != []
    ensures d in SeeRest(forest).seen <==> HasPlace(forest, d)
    decreases forest, 0
  {
    var below := SeeKids(forest[0]);
    KidsSeenIff(forest[0], d);
    KidsAbortIff(forest[0]);
    assert ExaminedAt(forest, d, 0) <==> d in below.seen;
    if below.ending == Aborted {
      forall i: nat | 0 < i < |forest| ensures !ExaminedAt(forest, d, i) {
        assert Aborts(forest[0].children);
      }
    } else if |forest| > 1 {
      var more := forest[1..];
      RestSeenIff(more, d);
      assert d in SeeRest(forest).seen <==> d in below.seen || d == more[0] || d in SeeRest(more).seen;
      PlaceNext(forest, d);
    }
  }

  lemma ExaminedNext(forest: seq<Die>, d: Die, i: nat)
    requires i + 1 < |forest| && !Aborts(forest[0].children)
    ensures ExaminedAt(forest, d, i + 1) <==> (i == 0 && d == forest[1]) || ExaminedAt(forest[1..], d, i)
  {
    ReachedNext(forest, i);
  }

  lemma PlaceNext(forest: seq<Die>, d: Die)
    requires |forest| > 1 && !Aborts(forest[0].children)
    ensures HasPlace(forest, d) <==> ExaminedAt(forest, d, 0) || d == forest[1] || HasPlace(forest[1..], d)
  {
    var more := forest[1..];
    forall i: nat | 0 < i < |forest| && ExaminedAt(forest, d, i)
      ensures d == forest[1] || ExaminedAt(more, d, i - 1)
    {
      ExaminedNext(forest, d, i - 1);
    }
    forall i: nat | i < |more| && ExaminedAt(more, d, i) ensures ExaminedAt(forest, d, i + 1) {
      ExaminedNext(forest, d, i);
    }
    ExaminedNext(forest, d, 0);
    if d == forest[1] {
      assert ReachedAt(more, 0);
      assert ExaminedAt(forest, d, 1);
    }
    if HasPlace(forest, d) {
      var i: nat :| i < |forest| && ExaminedAt(forest, d, i);
      assert i > 0 ==> d == forest[1] || ExaminedAt(more, d, i - 1);
    }
    if HasPlace(more, d) {
      var i: nat :| i < |more| && ExaminedAt(more, d, i);
      assert ExaminedAt(forest, d, i + 1);
    }
  }

  // ----- the examined DIEs in the pre-order -----

  /** a is b with some DIEs left out. */
  ghost predicate Within(a: seq<Die>, b: seq<Die>)
    decreases |b|
  {
    || a == []
    || (b != [] && ((a[0] == b[0] && Within(a[1..], b[1..])) || Within(a, b[1..])))
  }

  lemma {:induction false} WithinConcat(a: seq<Die>, b: seq<Die>, c: seq<Die>, d: seq<Die>)
    requires Within(a, b) && Within(c, d)
    ensures Within(a + c, b + d)
    decreases |b|
  {
    if b == [] {
      assert a + c == c && b + d == d;
    } else {
      assert (b + d)[1..] == b[1..] + d && (b + d)[0] == b[0];
      if a != [] && a[0] == b[0] && Within(a[1..], b[1..]) {
        assert (a + c)[1..] == a[1..] + c && (a + c)[0] == a[0];
        WithinConcat(a[1..], b[1..], c, d);
      } else {
        WithinConcat(a, b[1..], c, d);
      }
    }
  }

  lemma {:induction false} WithinItself(a: seq<Die>)
    ensures Within(a, a)
  {
    if a != [] {
      WithinItself(a[1..]);
    }
  }

  lemma {:induction false} WithinHas(a: seq<Die>, b: seq<Die>, d: Die)
    requires Within(a, b) && d in a
    ensures d in b
    decreases |b|
  {
    if a[0] == b[0] && Within(a[1..], b[1..]) {
      if d != a[0] {
        WithinHas(a[1..], b[1..], d);
      }
    } else {
      WithinHas(a, b[1..], d);
    }
  }

  /** What the search examines of a list lies in its pre-order, in the same order. */
  lemma {:induction false} SeenWithin(forest: seq<Die>)
    requires forest != []
    ensures Within(See(forest).seen, Preorder(forest))
    decreases forest, 2
  {
    var d, below := forest[0], Preorder(forest[0].children) + Preorder(forest[1..]);
    assert [d] + below == Preorder(forest);
    WithinItself([d]);
    if Rangeless(d) {
      assert Within([], below);
      WithinConcat([d], [d], [], below);
      assert [d] + [] == [d];
    } else if !d.tag.UnitTag? {
      RestWithin(forest);
      WithinConcat([d], [d], SeeRest(forest).seen, below);
    }
  }

  lemma {:induction false} KidsWithin(d: Die)
    ensures Within(SeeKids(d).seen, Preorder(d.children))
    decreases d, 0
  {
    if d.children != [] {
      SeenWithin(d.children);
    }
  }

  lemma {:induction false} RestWithin(forest: seq<Die>)
    requires forest != []
    ensures Within(SeeRest(forest).seen, Preorder(forest[0].children) + Preorder(forest[1..]))
    decreases forest, 1
  {
    var below, kids, more := SeeKids(forest[0]), Preorder(forest[0].children), forest[1..];
    KidsWithin(forest[0]);
    if below.ending == Aborted || |forest| == 1 {
      WithinConcat(below.seen, kids, [], Preorder(more));
      assert below.seen + [] == below.seen;
    } else {
      RestWithin(more);
      var d, after := more[0], Preorder(more[0].children) + Preorder(more[1..]);
      assert [d] + after == Preorder(more);
      JoinWithin(below.seen, kids, d, SeeRest(more).seen, after);
    }
  }

  lemma JoinWithin(a: seq<Die>, b: seq<Die>, x: Die, c: seq<Die>, d: seq<Die>)
    requires Within(a, b) && Within(c, d)
    ensures Within(a + [x] + c, b + ([x] + d))
  {
    WithinItself([x]);
    WithinConcat([x], [x], c, d);
    WithinConcat(a, b, [x] + c, [x] + d);
    assert a + ([x] + c) == a + [x] + c;
  }

  /** Some function of the list contains the pc. */
  predicate Covered(dies: seq<Die>, pc: Word) {
    exists k :: 0 <= k < |dies| && Contains(dies[k], pc)
  }

  lemma UnitFacts(cu: Die)
    requires Admitted(cu)
    ensures Preorder([cu]) == [cu] + Preorder(cu.children)
    ensures Within(SeeKids(cu).seen, Preorder([cu]))
  {
    assert [cu][1..] == [] && Preorder([cu]) == [cu] + Preorder(cu.children) + [];
    KidsWithin(cu);
    WithinConcat([], [cu], SeeKids(cu).seen, Preorder(cu.children));
    assert [] + SeeKids(cu).seen == SeeKids(cu).seen;
  }

  lemma FoundOne(cu: Die, pc: Word)
    requires Admitted(cu)
    ensures SearchForest([cu], pc, 0, None).code == FoundSubprog <==> Covered(SeeKids(cu).seen, pc)
    ensures Covered(SeeKids(cu).seen, pc) ==> Covered(Preorder([cu]), pc)
  {
    var seen := SeeKids(cu).seen;
    UnitSearch(cu, pc);
    FirstMatchMeaning(seen, pc);
    UnitFacts(cu);
    if Covered(seen, pc) {
      var k :| 0 <= k < |seen| && Contains(seen[k], pc);
      WithinHas(seen, Preorder([cu]), seen[k]);
      var j :| 0 <= j < |Preorder([cu])| && Preorder([cu])[j] == seen[k];
    }
  }

  /** Some function at an examined place of the unit contains the pc. */
  ghost predicate CoveredExamined(cu: Die, pc: Word) {
    exists k :: 0 <= k < |Preorder([cu])| && Contains(Preorder([cu])[k], pc) && Examined(cu.children, Preorder([cu])[k])
  }

  lemma CoveredByPlace(cu: Die, pc: Word)
    requires Admitted(cu)
    ensures Covered(SeeKids(cu).seen, pc) <==> CoveredExamined(cu, pc)
  {
    var seen, all := SeeKids(cu).seen, Preorder([cu]);
    UnitFacts(cu);
    if Covered(seen, pc) {
      var k :| 0 <= k < |seen| && Contains(seen[k], pc);
      WithinHas(seen, all, seen[k]);
      KidsSeenIff(cu, seen[k]);
      var j :| 0 <= j < |all| && all[j] == seen[k];
    }
    if CoveredExamined(cu, pc) {
      var k :| 0 <= k < |all| && Contains(all[k], pc) && Examined(cu.children, all[k]);
      KidsSeenIff(cu, all[k]);
    }
  }

  /** For every admitted unit: the search says FOUND for exactly the pcs that some function of the
      unit contains, if and only if each such pc is also in a function at an examined place. */
  lemma FoundIsRightIff(cu: Die)
    requires Admitted(cu)
    ensures (forall pc :: SearchForest([cu], pc, 0, None).code == FoundSubprog <==> Covered(Preorder([cu]), pc))
       <==> (forall pc :: Covered(Preorder([cu]), pc) ==> CoveredExamined(cu, pc))
  {
    forall pc: Word
      ensures SearchForest([cu], pc, 0, None).code == FoundSubprog <==> CoveredExamined(cu, pc)
      ensures CoveredExamined(cu, pc) ==> Covered(Preorder([cu]), pc)
    {
      FoundOne(cu, pc);
      CoveredByPlace(cu, pc);
    }
  }

  /** Every DIE has its own offset. */
  ghost predicate OwnIds(dies: seq<Die>) {
    forall j, k :: 0 <= j < k < |dies| ==> dies[j].id != dies[k].id
  }

  /** Leaving DIEs out keeps the first match exactly when it keeps that DIE. */
  lemma {:induction false} FirstMatchWithinIff(a: seq<Die>, b: seq<Die>, pc: Word)
    requires Within(a, b) && OwnIds(b)
    ensures FirstMatch(a, pc) == FirstMatch(b, pc) <==> FirstMatch(b, pc).None? || FirstMatch(b, pc).value in a
    decreases |b|
  {
    FirstMatchMeaning(a, pc);
    FirstMatchMeaning(b, pc);
    if FirstMatch(b, pc).None? {
      if FirstMatch(a, pc).Some? {
        WithinHas(a, b, FirstMatch(a, pc).value);
      }
    } else if a != [] && FirstMatch(b, pc).value in a {
      var d := FirstMatch(b, pc).value;
      if a[0] == b[0] && Within(a[1..], b[1..]) {
        if !Contains(b[0], pc) {
          FirstMatchWithinIff(a[1..], b[1..], pc);
        }
      } else {
        WithinHas(a, b[1..], d);
        var k :| 0 <= k < |b[1..]| && b[1..][k] == d;
        assert b[k + 1] == d && b[0] != d;
        FirstMatchWithinIff(a, b[1..], pc);
      }
    }
  }

  /** Every function that contains a pc, examined or not, has one at an examined place, itself or one
      before it in the pre-order, that contains the pc. */
  ghost predicate HidesNothing(cu: Die) {
    forall pc: Word, k: nat :: k < |Preorder([cu])| && Contains(Preorder([cu])[k], pc) ==> ExaminedBefore(cu, pc, k)
  }

  ghost predicate ExaminedBefore(cu: Die, pc: Word, k: nat)
    requires k < |Preorder([cu])|
  {
    exists j :: 0 <= j <= k && Contains(Preorder([cu])[j], pc) && Examined(cu.children, Preorder([cu])[j])
  }

  /** The first match in the pre-order, if any, is at an examined place. */
  ghost predicate KeepsFirst(cu: Die, pc: Word) {
    var first := FirstMatch(Preorder([cu]), pc);
    first.Some? ==> Examined(cu.children, first.value)
  }

  lemma FirstIsExamined(cu: Die)
    ensures HidesNothing(cu) <==> forall pc :: KeepsFirst(cu, pc)
  {
    var all := Preorder([cu]);
    if HidesNothing(cu) {
      forall pc: Word ensures KeepsFirst(cu, pc) {
        FirstMatchMeaning(all, pc);
        if FirstMatch(all, pc).Some? {
          var d := FirstMatch(all, pc).value;
          var k: nat :| k < |all| && all[k] == d && Contains(d, pc) && forall j :: 0 <= j < k ==> !Contains(all[j], pc);
          assert ExaminedBefore(cu, pc, k);
        }
      }
    }
    forall pc: Word, k: nat | KeepsFirst(cu, pc) && k < |all| && Contains(all[k], pc)
      ensures ExaminedBefore(cu, pc, k)
    {
      FirstMatchMeaning(all, pc);
      var d := FirstMatch(all, pc).value;
      var j :| 0 <= j < |all| && all[j] == d && Contains(d, pc) && forall i :: 0 <= i < j ==> !Contains(all[i], pc);
      assert j <= k;
    }
  }

  predicate FindsFirst(cu: Die, pc: Word) {
    SearchForest([cu], pc, 0, None).func == FirstMatch(Preorder([cu]), pc)
  }

  /** For every admitted unit: the search gives, for every pc, the first function in pre-order that
      contains it, if and only if it hides nothing. */
  lemma FirstFunctionIsRightIff(cu: Die)
    requires Admitted(cu) && OwnIds(Preorder([cu]))
    ensures (forall pc :: FindsFirst(cu, pc)) <==> HidesNothing(cu)
  {
    var all, seen := Preorder([cu]), SeeKids(cu).seen;
    UnitFacts(cu);
    FirstIsExamined(cu);
    forall pc: Word ensures FindsFirst(cu, pc) <==> KeepsFirst(cu, pc) {
      UnitSearch(cu, pc);
      FirstMatchWithinIff(seen, all, pc);
      if FirstMatch(all, pc).Some? {
        KidsSeenIff(cu, FirstMatch(all, pc).value);
      }
    }
  }

  // ----- all units -----

  /** The unit is looked into, and the search examines a function in it that contains the pc. */
  predicate SeenHit(cu: Die, pc: Word) {
    Admitted(cu) && FirstMatch(SeeKids(cu).seen, pc).Some?
  }

  /** Units without errors, whatever their trees: the answer is the first unit in which the search
      examines a function that contains the pc, and the first such function that it examines. */
  lemma {:induction false} FindFunctionSees(cus: seq<Die>, pc: Word)
    requires forall k :: 0 <= k < |cus| ==>
      cus[k].tag.UnitTag? && (Admitted(cus[k]) || cus[k].verdict.NoEntry? || cus[k].verdict.NotThisCu?)
    ensures var r := FindFunction(cus, pc);
      if r.None? then forall k :: 0 <= k < |cus| ==> !SeenHit(cus[k], pc)
      else
        && FirstMatch(SeeKids(r.value.0).seen, pc) == Some(r.value.1)
        && exists k :: 0 <= k < |cus| && cus[k] == r.value.0 && SeenHit(cus[k], pc)
                  && forall j :: 0 <= j < k ==> !SeenHit(cus[j], pc)
  {
    if cus != [] {
      var cu := cus[0];
      if Admitted(cu) {
        UnitSearch(cu, pc);
      }
      if !SeenHit(cu, pc) {
        FindFunctionSees(cus[1..], pc);
        assert forall k :: 0 < k < |cus| ==> cus[k] == cus[1..][k - 1];
        if FindFunction(cus, pc).Some? {
          var found := FindFunction(cus, pc).value;
          var k :| 0 <= k < |cus[1..]| && cus[1..][k] == found.0
                  && forall j :: 0 <= j < k ==> !SeenHit(cus[1..][j], pc);
          assert cus[k + 1] == found.0 && forall j :: 0 <= j < k + 1 ==> !SeenHit(cus[j], pc);
        }
      }
    }
  }

  predicate Hit(cu: Die, pc: Word) {
    Admitted(cu) && FirstMatch(Preorder([cu]), pc).Some?
  }

  /** Clean, or with something hidden that does not matter. */
  ghost predicate Honest(cu: Die) {
    Clean(cu.children) || (OwnIds(Preorder([cu])) && HidesNothing(cu))
  }

  lemma HonestFindsFirst(cu: Die, pc: Word)
    requires Admitted(cu) && Honest(cu)
    ensures FindsFirst(cu, pc)
  {
    if Clean(cu.children) {
      CleanUnitSearch(cu, pc);
    } else {
      FirstFunctionIsRightIff(cu);
    }
  }

  /** With units that hide nothing that matters, the answer is the first admitted unit in which some function
      contains the pc, and the first such function in it. */
  lemma FindFunctionIsFirst(cus: seq<Die>, pc: Word)
    requires forall k :: 0 <= k < |cus| ==>
      cus[k].tag.UnitTag? && (Admitted(cus[k]) || cus[k].verdict.NoEntry? || cus[k].verdict.NotThisCu?)
    requires forall k :: 0 <= k < |cus| && Admitted(cus[k]) ==> Honest(cus[k])
    ensures var r := FindFunction(cus, pc);
      if r.None? then forall k :: 0 <= k < |cus| ==> !Hit(cus[k], pc)
      else
        && FirstMatch(Preorder([r.value.0]), pc) == Some(r.value.1)
        && exists k :: 0 <= k < |cus| && cus[k] == r.value.0 && Hit(cus[k], pc)
                  && forall j :: 0 <= j < k ==> !Hit(cus[j], pc)
  {
    FindFunctionSees(cus, pc);
    forall k | 0 <= k < |cus| && Admitted(cus[k])
      ensures FirstMatch(SeeKids(cus[k]).seen, pc) == FirstMatch(Preorder([cus[k]]), pc)
    {
      HonestFindsFirst(cus[k], pc);
      UnitSearch(cus[k], pc);
    }
    assert forall k :: 0 <= k < |cus| ==> (Hit(cus[k], pc) <==> SeenHit(cus[k], pc));
  }
}
