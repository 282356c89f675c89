/** What the search of `DieSearch` sees of a tree, and when that is the whole tree in pre-order. */
module DieSearchLaws {
  import opened Words
  import opened DieTree
  import opened DieSearch

  // ----- what the search sees -----

  function FirstMatch(dies: seq<Die>, pc: Word): Option<Die> {
    if dies == [] then None
    else if Contains(dies[0], pc) then Some(dies[0])
    else FirstMatch(dies[1..], pc)
  }

  lemma {:induction false} FirstMatchMeaning(dies: seq<Die>, pc: Word)
    ensures match FirstMatch(dies, pc)
      case Some(d) => exists k :: 0 <= k < |dies| && dies[k] == d && Contains(d, pc)
                                  && forall j :: 0 <= j < k ==> !Contains(dies[j], pc)
      case None => forall k :: 0 <= k < |dies| ==> !Contains(dies[k], pc)
  {
    if dies != [] && !Contains(dies[0], pc) {
      FirstMatchMeaning(dies[1..], pc);
      assert forall k :: 0 < k < |dies| ==> dies[k] == dies[1..][k - 1];
      if FirstMatch(dies, pc).Some? {
        var d := FirstMatch(dies, pc).value;
        var k :| 0 <= k < |dies[1..]| && dies[1..][k] == d && Contains(d, pc)
                 && forall j :: 0 <= j < k ==> !Contains(dies[1..][j], pc);
        assert dies[k + 1] == d && forall j :: 0 <= j < k + 1 ==> !Contains(dies[j], pc);
      }
    }
  }

  lemma {:induction false} FirstMatchConcat(a: seq<Die>, b: seq<Die>, pc: Word)
    ensures FirstMatch(a + b, pc) == if FirstMatch(a, pc).Some? then FirstMatch(a, pc) else FirstMatch(b, pc)
  {
    if a == [] {
      assert a + b == b;
    } else {
      assert (a + b)[1..] == a[1..] + b;
      FirstMatchConcat(a[1..], b, pc);
    }
  }

  /** How the search of a nested sibling list ends when nothing is found. */
  datatype Ending = Finished | Abandoned | Aborted

  /** The DIEs examined, in order; how the list ends; how many lists in it were abandoned. */
  datatype View = View(seen: seq<Die>, ending: Ending, abandoned: nat)

  predicate Rangeless(d: Die) {
    IsFunction(d) && Range(d).None?
  }

  /** A nested list that starts with a function without a range is given up after that DIE; one that
      starts with a unit ends the whole search. */
  function See(forest: seq<Die>): (v: View)
    requires forest != []
    ensures v.ending == Abandoned ==> v.abandoned == 0
    decreases forest, 1
  {
    if Rangeless(forest[0]) then View([forest[0]], Abandoned, 0)
    else if forest[0].tag.UnitTag? then View([], Aborted, 0)
    else
      var v := SeeRest(forest);
      v.(seen := [forest[0]] + v.seen)
  }

  function SeeRest(forest: seq<Die>): (v: View)
    requires forest != []
    ensures v.ending != Abandoned
    decreases forest, 0
  {
    var below := SeeKids(forest[0]);
    var lost := below.abandoned + if below.ending == Abandoned then 1 else 0;
    if below.ending == Aborted then below.(abandoned := lost)
    else if |forest| == 1 then View(below.seen, Finished, lost)
    else
      var after := SeeRest(forest[1..]);
      View(below.seen + [forest[1]] + after.seen, after.ending, lost + after.abandoned)
  }

  function SeeKids(d: Die): View
    decreases d
  {
    if d.children == [] then View([], Finished, 0) else See(d.children)
  }

  /** The outcome that a view promises. */
  ghost predicate Promised(v: View, pc: Word, level: int, func: Option<Die>, a: Answer) {
    match FirstMatch(v.seen, pc)
    case Some(d) => a.code == FoundSubprog && a.func == Some(d)
    case None =>
      && a.func == func
      && match v.ending
         case Finished => a.code == Ok && a.level == level - 1 + v.abandoned
         case Abandoned => a.code == NoEntry && a.level == level
         case Aborted => a.code == NotThisCu
  }

  /** On every nested list, the search finds the first match among the DIEs of its view, and
      otherwise ends as the view does, the level back at the caller's plus one for every list that
      was abandoned. */
  lemma {:induction false} SearchSeesView(forest: seq<Die>, pc: Word, level: int, func: Option<Die>)
    requires forest != [] && level >= 1
    ensures Promised(See(forest), pc, level, func, SearchForest(forest, pc, level, func))
    decreases forest, 1
  {
    var d := forest[0];
    if Rangeless(d) {
      assert See(forest).seen == [] + [d] + [];
      FirstMatchThree([], d, [], pc);
    } else if !d.tag.UnitTag? {
      FirstMatchThree([], d, SeeRest(forest).seen, pc);
      assert [] + [d] + SeeRest(forest).seen == See(forest).seen;
      if !Contains(d, pc) {
        RestSeesView(forest, pc, level, func);
      }
    }
  }

  lemma {:induction false} KidsSeeView(d: Die, pc: Word, level: int, func: Option<Die>)
    requires level >= 0
    ensures PromisedBelow(SeeKids(d), pc, level, func, SearchKids(d, pc, level, func))
    decreases d
  {
    if d.children != [] {
      SearchSeesView(d.children, pc, level + 1, func);
    }
  }

  lemma {:induction false} RestSeesView(forest: seq<Die>, pc: Word, level: int, func: Option<Die>)
    requires forest != [] && level >= 1
    ensures Promised(SeeRest(forest), pc, level, func, SearchRest(forest, pc, level, func))
    decreases forest, 0
  {
    var view, below := SeeKids(forest[0]), SearchKids(forest[0], pc, level, func);
    KidsSeeView(forest[0], pc, level, func);
    if |forest| > 1 && view.ending != Aborted {
      var d, more := forest[1], forest[1..];
      if FirstMatch(view.seen, pc).None? && !Contains(d, pc) {
        RestSeesView(more, pc, below.level, below.func);
        JoinPromises(view, d, SeeRest(more), pc, level, func, below, SearchRest(more, pc, below.level, below.func));
      } else {
        JoinPromises(view, d, SeeRest(more), pc, level, func, below, below);
      }
    }
  }

  /** What is known after the children of a DIE; the loop goes on at the level it left. */
  ghost predicate PromisedBelow(v: View, pc: Word, level: int, func: Option<Die>, a: Answer) {
    match FirstMatch(v.seen, pc)
    case Some(d) => a.code == FoundSubprog && a.func == Some(d)
    case None =>
      && a.func == func
      && match v.ending
         case Finished => a.code == Ok && a.level == level + v.abandoned
         case Abandoned => a.code == NoEntry && a.level == level + 1 && v.abandoned == 0
         case Aborted => a.code == NotThisCu
  }

  lemma JoinPromises(
        view: View, d: Die, after: View, pc: Word, level: int, func: Option<Die>, below: Answer, rest: Answer)
    requires PromisedBelow(view, pc, level, func, below) && view.ending != Aborted && after.ending != Abandoned
    requires FirstMatch(view.seen, pc).None? && !Contains(d, pc) ==> Promised(after, pc, below.level, below.func, rest)
    ensures var lost := view.abandoned + if view.ending == Abandoned then 1 else 0;
      Promised(View(view.seen + [d] + after.seen, after.ending, lost + after.abandoned), pc, level, func,
               if FirstMatch(view.seen, pc).Some? then below
               else if Contains(d, pc) then Answer(FoundSubprog, below.level, Some(d))
               else rest)
  {
    FirstMatchThree(view.seen, d, after.seen, pc);
  }

  lemma FirstMatchThree(a: seq<Die>, d: Die, b: seq<Die>, pc: Word)
    ensures FirstMatch(a + [d] + b, pc) ==
      if FirstMatch(a, pc).Some? then FirstMatch(a, pc)
      else if Contains(d, pc) then Some(d)
      else FirstMatch(b, pc)
  {
    FirstMatchConcat(a + [d], b, pc);
    FirstMatchConcat(a, [d], pc);
  }

  // ----- one unit -----

  /** The unit is worth a look: its verdict lets the search fall through to its children. */
  predicate Admitted(cu: Die) {
    cu.tag.UnitTag? && (cu.verdict == Ok || cu.verdict == InThisCu)
  }

  /** searchInDieTree on an admitted unit, whatever its tree: it returns the first match among the
      DIEs of the view, and a miss says how the view ended. */
  lemma UnitSearch(cu: Die, pc: Word)
    requires Admitted(cu)
    ensures var a, v := SearchForest([cu], pc, 0, None), SeeKids(cu);
      && (a.code == FoundSubprog <==> FirstMatch(v.seen, pc).Some?)
      && a.func == FirstMatch(v.seen, pc)
      && (a.code != FoundSubprog ==>
            if v.ending == Aborted then a.code == NotThisCu
            else a.code == Ok && a.level == -1 + v.abandoned + if v.ending == Abandoned then 1 else 0)
  {
    KidsSeeView(cu, pc, 0, None);
    var below := SearchKids(cu, pc, 0, None);
    assert SearchForest([cu], pc, 0, None) == SearchRest([cu], pc, 0, None);
  }

  // ----- when the search is the pre-order search -----

  /** No unit below, and no list that starts with a function without a range. */
  ghost predicate Clean(forest: seq<Die>)
    decreases forest
  {
    (forest != [] ==> !Rangeless(forest[0])) && CleanBelow(forest)
  }

  ghost predicate CleanBelow(forest: seq<Die>)
    decreases forest, 0
  {
    forall k :: 0 <= k < |forest| ==> !forest[k].tag.UnitTag? && Clean(forest[k].children)
  }

  lemma {:induction false} CleanSeesAll(forest: seq<Die>)
    requires forest != [] && Clean(forest)
    ensures See(forest) == View(Preorder(forest), Finished, 0)
    decreases forest, 2
  {
    CleanRestSeesAll(forest);
    var d := forest[0];
    assert [d] + (Preorder(d.children) + Preorder(forest[1..])) == Preorder(forest);
  }

  lemma {:induction false} CleanKidsSeeAll(d: Die)
    requires Clean(d.children)
    ensures SeeKids(d) == View(Preorder(d.children), Finished, 0)
    decreases d, 0
  {
    if d.children != [] {
      CleanSeesAll(d.children);
    }
  }

  lemma {:induction false} CleanRestSeesAll(forest: seq<Die>)
    requires forest != [] && CleanBelow(forest)
    ensures SeeRest(forest) == View(Preorder(forest[0].children) + Preorder(forest[1..]), Finished, 0)
    decreases forest, 1
  {
    CleanKidsSeeAll(forest[0]);
    var kids := Preorder(forest[0].children);
    if |forest| > 1 {
      var more := forest[1..];
      CleanRestSeesAll(more);
      assert kids + [more[0]] + (Preorder(more[0].children) + Preorder(more[1..])) == kids + Preorder(more);
    } else {
      assert forest[1..] == [] && kids + [] == kids;
    }
  }

  /** On an admitted unit with a clean tree the search returns FOUND exactly when some function in
      the tree contains the pc, with the first such DIE in pre-order; otherwise the level is back
      below where it started. */
  lemma CleanUnitSearch(cu: Die, pc: Word)
    requires Admitted(cu) && Clean(cu.children)
    ensures var a, all := SearchForest([cu], pc, 0, None), Preorder([cu]);
      && (a.code == FoundSubprog <==> exists k :: 0 <= k < |all| && Contains(all[k], pc))
      && a.func == FirstMatch(all, pc)
      && (a.code != FoundSubprog ==> a.code == Ok && a.level == -1)
  {
    UnitSearch(cu, pc);
    CleanKidsSeeAll(cu);
    var kids := Preorder(cu.children);
    assert Preorder([cu]) == [] + [cu] + kids;
    FirstMatchThree([], cu, kids, pc);
    FirstMatchMeaning(Preorder([cu]), pc);
  }

  /** A class whose member list starts with a declared method: the defined method after it is never
      examined, so the search misses a pc that it contains. */
  function MissExample(): Die {
    var declared := Die(3, Subprogram, None, None, Ok, []);
    var defined := Die(4, Subprogram, Some(0), Some(OffsetPc(10)), Ok, []);
    Die(1, UnitTag, None, None, Ok, [Die(2, OtherTag, None, None, Ok, [declared, defined])])
  }

  lemma MissExampleMisses()
    ensures var cu := MissExample();
      FirstMatch(Preorder([cu]), 5).Some? && SearchForest([cu], 5, 0, None).code == Ok
  {
    var cu := MissExample();
    var class_ := cu.children[0];
    var declared, defined := class_.children[0], class_.children[1];
    assert Preorder([declared, defined]) == [declared, defined] by {
      assert Preorder([defined]) == [defined] by {
        assert [defined][1..] == [];
      }
      assert [declared, defined][1..] == [defined];
    }
    assert Preorder([cu]) == [cu, class_, declared, defined] by {
      assert [cu][1..] == [] && [class_][1..] == [];
    }
    FirstMatchMeaning(Preorder([cu]), 5);
    assert Contains(defined, 5) && Preorder([cu])[3] == defined;
    UnitSearch(cu, 5);
    var v := SeeKids(cu);
    assert See(class_.children) == View([declared], Abandoned, 0);
    assert SeeRest([class_]).seen == [declared];
    assert v.seen == [class_, declared];
    FirstMatchMeaning(v.seen, 5);
  }
}
