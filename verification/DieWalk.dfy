/** walkDIE: a callback on every DIE of a sibling list and, as far as the level allows, on the lists
    below. The level is a local that is raised for the first list below and stays raised. */
module DieWalk {
  import opened Words
  import opened DieTree

  /** One call of the walker: the parent it was given, and the DIE. */
  datatype Visit = Visit(parent: Option<Die>, die: Die)

  predicate Enters(d: Die, level: int, maxLevel: int) {
    d.children != [] && (maxLevel == -1 || level < maxLevel)
  }

  /** The visits to a list that is walked at a level. */
  function Walk(parent: Option<Die>, forest: seq<Die>, level: int, maxLevel: int): seq<Visit>
    decreases forest
  {
    if forest == [] then []
    else [Visit(parent, forest[0])] + WalkAfter(parent, forest, level, maxLevel)
  }

  /** From a DIE already visited: its children, then the siblings after it at the level it left. */
  function WalkAfter(parent: Option<Die>, forest: seq<Die>, level: int, maxLevel: int): seq<Visit>
    requires forest != []
    decreases forest, 0
  {
    KidVisits(forest[0], level, maxLevel) + Walk(parent, forest[1..], Raised(forest[0], level, maxLevel), maxLevel)
  }

  function Raised(d: Die, level: int, maxLevel: int): int {
    if Enters(d, level, maxLevel) then level + 1 else level
  }

  function KidVisits(d: Die, level: int, maxLevel: int): seq<Visit>
    decreases d
  {
    if Enters(d, level, maxLevel) then Walk(Some(d), d.children, level + 1, maxLevel) else []
  }

  class Walker {
    var visits: seq<Visit>

    constructor ()
      ensures visits == []
    {
      visits := [];
    }

    method Call(parent: Option<Die>, die: Die)
      modifies this
      ensures visits == old(visits) + [Visit(parent, die)]
    {
      visits := visits + [Visit(parent, die)];
    }

    method WalkDie(parent: Option<Die>, forest: seq<Die>, curLevel: int, maxLevel: int)
      requires forest != []
      modifies this
      ensures visits == old(visits) + Walk(parent, forest, curLevel, maxLevel)
      decreases forest
    {
      var level, cur := curLevel, 0;
      ghost var all := old(visits) + Walk(parent, forest, curLevel, maxLevel);
      Call(parent, forest[0]);
      Assoc(old(visits), [Visit(parent, forest[0])], WalkAfter(parent, forest, level, maxLevel));
      while true
        invariant cur < |forest|
        invariant visits + WalkAfter(parent, forest[cur..], level, maxLevel) == all
        decreases |forest| - cur
      {
        ghost var before, entry := visits, level;
        var d := forest[cur];
        if d.children != [] {
          if maxLevel == -1 || level < maxLevel {
            level := level + 1;
            WalkDie(Some(d), d.children, level, maxLevel);
          }
        }
        ghost var kids, after := KidVisits(d, entry, maxLevel), Walk(parent, forest[cur + 1..], level, maxLevel);
        assert visits == before + kids;
        assert forest[cur..][1..] == forest[cur + 1..];
        Assoc(before, kids, after);
        assert visits + after == all;
        if cur + 1 == |forest| {
          assert after == [];
          break;
        }
        cur := cur + 1;
        Assoc(visits, [Visit(parent, forest[cur])], WalkAfter(parent, forest[cur..], level, maxLevel));
        Call(parent, forest[cur]);
      }
    }

    static lemma Assoc(a: seq<Visit>, b: seq<Visit>, c: seq<Visit>)
      ensures (a + b) + c == a + (b + c)
    {
    }
  }

  // ----- unlimited walks -----

  /** Pre-order, each DIE with its parent. */
  function PreorderVisits(parent: Option<Die>, forest: seq<Die>): seq<Visit>
    decreases forest
  {
    if forest == [] then []
    else [Visit(parent, forest[0])] + PreorderVisits(Some(forest[0]), forest[0].children)
         + PreorderVisits(parent, forest[1..])
  }

  lemma {:induction false} WalkIsPreorder(parent: Option<Die>, forest: seq<Die>, level: int)
    ensures Walk(parent, forest, level, -1) == PreorderVisits(parent, forest)
    decreases forest
  {
    if forest != [] {
      var d := forest[0];
      WalkIsPreorder(Some(d), d.children, level + 1);
      WalkIsPreorder(parent, forest[1..], Raised(d, level, -1));
      assert KidVisits(d, level, -1) == PreorderVisits(Some(d), d.children);
      Walker.Assoc([Visit(parent, d)], KidVisits(d, level, -1), PreorderVisits(parent, forest[1..]));
    }
  }

  /** With max_lv -1, from any level, the walk is the pre-order: one call for every DIE, with its
      parent. */
  lemma FullWalkIsPreorder(parent: Option<Die>, forest: seq<Die>, level: int)
    ensures Walk(parent, forest, level, -1) == PreorderVisits(parent, forest)
    ensures |Walk(parent, forest, level, -1)| == |Preorder(forest)|
    ensures forall k :: 0 <= k < |Preorder(forest)| ==> Walk(parent, forest, level, -1)[k].die == Preorder(forest)[k]
  {
    WalkIsPreorder(parent, forest, level);
    VisitsArePreorder(parent, forest);
  }

  lemma {:induction false} VisitsArePreorder(parent: Option<Die>, forest: seq<Die>)
    ensures var v := PreorderVisits(parent, forest);
      |v| == |Preorder(forest)| && forall k :: 0 <= k < |v| ==> v[k].die == Preorder(forest)[k]
    decreases forest
  {
    if forest != [] {
      VisitsArePreorder(Some(forest[0]), forest[0].children);
      VisitsArePreorder(parent, forest[1..]);
    }
  }

  // ----- bounded walks -----

  /** How many DIEs among the first i of a list have children. */
  function Parents(forest: seq<Die>, i: nat): nat
    requires i <= |forest|
  {
    if i == 0 then 0 else Parents(forest, i - 1) + if forest[i - 1].children != [] then 1 else 0
  }

  /** Each DIE of the list from the i-th on, with the children of those that are entered: the level at a
      DIE is the list's plus one for every earlier sibling with children. */
  function Segments(parent: Option<Die>, forest: seq<Die>, level: int, maxLevel: int, i: nat): seq<Visit>
    requires i <= |forest|
    decreases |forest| - i
  {
    if i == |forest| then []
    else
      var d, at := forest[i], level + Parents(forest, i);
      [Visit(parent, d)]
      + (if d.children != [] && at < maxLevel then Walk(Some(d), d.children, at + 1, maxLevel) else [])
      + Segments(parent, forest, level, maxLevel, i + 1)
  }

  lemma {:induction false} WalkFrom(
      parent: Option<Die>, forest: seq<Die>, level: int, maxLevel: int, i: nat, now: int)
    requires i <= |forest| && maxLevel != -1
    requires now == level + Parents(forest, i) || (now >= maxLevel && level + Parents(forest, i) >= maxLevel)
    ensures Walk(parent, forest[i..], now, maxLevel) == Segments(parent, forest, level, maxLevel, i)
    decreases |forest| - i
  {
    if i < |forest| {
      var d, rest := forest[i], forest[i..];
      assert rest[0] == d && rest[1..] == forest[i + 1..];
      WalkFrom(parent, forest, level, maxLevel, i + 1, Raised(d, now, maxLevel));
      var kids := KidVisits(d, now, maxLevel);
      Walker.Assoc([Visit(parent, d)], kids, Segments(parent, forest, level, maxLevel, i + 1));
    }
  }

  /** The drift of the level, exactly: a walk with a limit visits every DIE of its list, and enters the
      children of one exactly when its level plus the number of earlier siblings with children is
      below the limit, at that sum plus one. */
  lemma BoundedWalk(parent: Option<Die>, forest: seq<Die>, level: int, maxLevel: int)
    requires maxLevel != -1
    ensures Walk(parent, forest, level, maxLevel) == Segments(parent, forest, level, maxLevel, 0)
  {
    WalkFrom(parent, forest, level, maxLevel, 0, level);
    assert forest[0..] == forest;
  }

  // ----- the walk that dwarf2line makes -----

  function Roots(parent: Option<Die>, forest: seq<Die>): (r: seq<Visit>)
    ensures |r| == |forest| && forall k :: 0 <= k < |r| ==> r[k] == Visit(parent, forest[k])
  {
    if forest == [] then [] else [Visit(parent, forest[0])] + Roots(parent, forest[1..])
  }

  /** The first DIE of the list that has children, or its length. */
  function FirstParent(forest: seq<Die>): (k: nat)
    ensures k <= |forest| && (k < |forest| ==> forest[k].children != [])
    ensures forall j :: 0 <= j < k ==> forest[j].children == []
  {
    if forest == [] || forest[0].children != [] then 0 else 1 + FirstParent(forest[1..])
  }

  /** At its limit a walk visits a list and nothing below it. */
  lemma {:induction false} WalkAtLimit(parent: Option<Die>, forest: seq<Die>, level: int, maxLevel: int)
    requires level >= maxLevel && maxLevel != -1
    ensures Walk(parent, forest, level, maxLevel) == Roots(parent, forest)
    decreases forest
  {
    if forest != [] {
      WalkAtLimit(parent, forest[1..], level, maxLevel);
      assert WalkAfter(parent, forest, level, maxLevel) == Roots(parent, forest[1..]);
    }
  }

  /** The list, with the children of its k-th DIE right after that DIE. */
  function RootsWithKids(parent: Option<Die>, forest: seq<Die>, k: nat): seq<Visit> {
    if forest == [] then []
    else [Visit(parent, forest[0])] +
         if k == 0 then Roots(Some(forest[0]), forest[0].children) + Roots(parent, forest[1..])
         else RootsWithKids(parent, forest[1..], k - 1)
  }

  lemma LeafFirst(parent: Option<Die>, forest: seq<Die>)
    requires forest != [] && forest[0].children == []
    ensures Walk(parent, forest, 0, 1) == [Visit(parent, forest[0])] + Walk(parent, forest[1..], 0, 1)
  {
    assert Raised(forest[0], 0, 1) == 0 && KidVisits(forest[0], 0, 1) == [];
    assert WalkAfter(parent, forest, 0, 1) == Walk(parent, forest[1..], 0, 1);
  }

  lemma ParentFirst(parent: Option<Die>, forest: seq<Die>)
    requires forest != [] && forest[0].children != []
    ensures Walk(parent, forest, 0, 1) == RootsWithKids(parent, forest, 0)
  {
    var d, more := forest[0], forest[1..];
    WalkAtLimit(Some(d), d.children, 1, 1);
    WalkAtLimit(parent, more, 1, 1);
    assert Raised(d, 0, 1) == 1 && KidVisits(d, 0, 1) == Roots(Some(d), d.children);
    assert WalkAfter(parent, forest, 0, 1) == Roots(Some(d), d.children) + Roots(parent, more);
  }

  /** From level 0 to level 1 the walk visits the list and the children of one DIE of it: the first
      that has any. */
  lemma {:induction false} OneLevelWalk(parent: Option<Die>, forest: seq<Die>)
    ensures Walk(parent, forest, 0, 1) == RootsWithKids(parent, forest, FirstParent(forest))
    decreases |forest|
  {
    if forest != [] {
      if forest[0].children == [] {
        LeafFirst(parent, forest);
        OneLevelWalk(parent, forest[1..]);
      } else {
        ParentFirst(parent, forest);
      }
    }
  }

  // ----- the variables that dwarf2line lists -----

  predicate IsVariable(d: Die) {
    d.tag.VariableTag? || d.tag.ParameterTag?
  }

  /** The variables among some DIEs, in order. */
  function Variables(dies: seq<Die>): seq<Die> {
    if dies == [] then []
    else if IsVariable(dies[0]) then [dies[0]] + Variables(dies[1..])
    else Variables(dies[1..])
  }

  predicate NoVariable(dies: seq<Die>) {
    forall k :: 0 <= k < |dies| ==> !IsVariable(dies[k])
  }

  lemma {:induction false} NoneToList(dies: seq<Die>)
    ensures Variables(dies) == [] <==> NoVariable(dies)
  {
    if dies != [] {
      NoneToList(dies[1..]);
      assert NoVariable(dies) <==> !IsVariable(dies[0]) && NoVariable(dies[1..]);
    }
  }

  lemma {:induction false} VariablesConcat(a: seq<Die>, b: seq<Die>)
    ensures Variables(a + b) == Variables(a) + Variables(b)
  {
    if a == [] {
      assert a + b == b;
    } else {
      assert (a + b)[1..] == a[1..] + b;
      VariablesConcat(a[1..], b);
    }
  }

  /** The variables among the DIEs visited. */
  function VisitedVariables(visits: seq<Visit>): seq<Die> {
    if visits == [] then [] else Variables([visits[0].die]) + VisitedVariables(visits[1..])
  }

  lemma Regroup(a: seq<Die>, b: seq<Die>, c: seq<Die>)
    ensures a + (b + c) == a + b + c
  {
  }

  lemma {:induction false} VisitedConcat(a: seq<Visit>, b: seq<Visit>)
    ensures VisitedVariables(a + b) == VisitedVariables(a) + VisitedVariables(b)
  {
    if a == [] {
      assert a + b == b;
    } else {
      assert (a + b)[1..] == a[1..] + b;
      VisitedConcat(a[1..], b);
      Regroup(Variables([a[0].die]), VisitedVariables(a[1..]), VisitedVariables(b));
    }
  }

  lemma {:induction false} RootVariables(parent: Option<Die>, forest: seq<Die>)
    ensures VisitedVariables(Roots(parent, forest)) == Variables(forest)
  {
    if forest != [] {
      RootVariables(parent, forest[1..]);
      VariablesConcat([forest[0]], forest[1..]);
      assert forest == [forest[0]] + forest[1..];
      assert Roots(parent, forest)[1..] == Roots(parent, forest[1..]);
    }
  }

  /** What the callback of dwarf2line collects for a function and the siblings after it. */
  function Collected(parent: Option<Die>, forest: seq<Die>): seq<Die> {
    VisitedVariables(Walk(parent, forest, 0, 1))
  }

  /** The variables of a list, those among the children of its k-th DIE right after that DIE. */
  function ListedWith(forest: seq<Die>, k: nat): seq<Die> {
    if k < |forest| then Variables(forest[..k + 1]) + Variables(forest[k].children) + Variables(forest[k + 1..])
    else Variables(forest)
  }

  lemma VisitedFirst(v: Visit, after: seq<Visit>)
    ensures VisitedVariables([v] + after) == Variables([v.die]) + VisitedVariables(after)
  {
    assert ([v] + after)[1..] == after;
  }

  lemma CollectedAtFirst(parent: Option<Die>, forest: seq<Die>)
    requires forest != []
    ensures VisitedVariables(RootsWithKids(parent, forest, 0)) == ListedWith(forest, 0)
  {
    var d, more := forest[0], forest[1..];
    var kids, rest := Roots(Some(d), d.children), Roots(parent, more);
    VisitedFirst(Visit(parent, d), kids + rest);
    VisitedConcat(kids, rest);
    RootVariables(Some(d), d.children);
    RootVariables(parent, more);
    assert forest[..1] == [d];
    Regroup(Variables([d]), Variables(d.children), Variables(more));
  }

  lemma {:induction false} CollectedWith(parent: Option<Die>, forest: seq<Die>, k: nat)
    ensures VisitedVariables(RootsWithKids(parent, forest, k)) == ListedWith(forest, k)
  {
    if forest != [] {
      if k == 0 {
        CollectedAtFirst(parent, forest);
      } else {
        VisitedFirst(Visit(parent, forest[0]), RootsWithKids(parent, forest[1..], k - 1));
        CollectedWith(parent, forest[1..], k - 1);
        ListedStep(forest, k);
      }
    }
  }

  lemma ListedStep(forest: seq<Die>, k: nat)
    requires forest != [] && k > 0
    ensures ListedWith(forest, k) == Variables([forest[0]]) + ListedWith(forest[1..], k - 1)
  {
    var d, more := forest[0], forest[1..];
    if k < |forest| {
      assert forest[..k + 1] == [d] + more[..k] && more[k..] == forest[k + 1..];
      VariablesConcat([d], more[..k]);
    } else {
      assert forest == [d] + more;
      VariablesConcat([d], more);
    }
  }

  /** What the walk collects: the variables among the siblings up to the first DIE with children,
      that DIE's children and the siblings after it. */
  lemma {:induction false} CollectedAre(parent: Option<Die>, forest: seq<Die>)
    ensures Collected(parent, forest) == ListedWith(forest, FirstParent(forest))
  {
    OneLevelWalk(parent, forest);
    CollectedWith(parent, forest, FirstParent(forest));
  }

  /** The list of a function that is no variable itself, when it has children and when not. */
  lemma {:induction false} ListedForFunction(forest: seq<Die>, k: nat)
    requires forest != [] && !IsVariable(forest[0]) && k <= |forest|
    ensures k == 0 ==> ListedWith(forest, k) == Variables(forest[0].children) + Variables(forest[1..])
    ensures k > 0 ==> (ListedWith(forest, k) == [] <==>
      Variables(forest[1..]) == [] && (k == |forest| || Variables(forest[k].children) == []))
  {
    var more := forest[1..];
    if k == 0 {
      assert forest[..1][1..] == [];
      assert Variables(forest[..1]) == [];
    } else if k < |forest| {
      assert forest[..k + 1][0] == forest[0] && forest[..k + 1][1..] == more[..k];
      assert more == more[..k] + more[k..] && more[k..] == forest[k + 1..];
      VariablesConcat(more[..k], more[k..]);
    }
  }

  /** The variables collected for a function are those among its own children exactly when no later
      sibling is a variable and the children that are visited are its own, or there are none, or
      they hold no variable. */
  lemma {:induction false} CollectedAreOwnIff(parent: Option<Die>, forest: seq<Die>)
    requires forest != [] && !IsVariable(forest[0])
    ensures Collected(parent, forest) == Variables(forest[0].children) <==>
      && NoVariable(forest[1..])
      && var k := FirstParent(forest);
      (k == 0 || k == |forest| || NoVariable(forest[k].children))
  {
    var k, kids := FirstParent(forest), forest[0].children;
    CollectedAre(parent, forest);
    ListedForFunction(forest, k);
    NoneToList(forest[1..]);
    if k == 0 {
      assert |Variables(kids) + Variables(forest[1..])| == |Variables(kids)| + |Variables(forest[1..])|;
    } else {
      assert kids == [];
      if k < |forest| {
        NoneToList(forest[k].children);
      }
    }
  }

  function Leaf(id: nat, tag: Tag): Die {
    Die(id, tag, None, None, Ok, [])
  }

  /** A function with a parameter, a local and a nested block, followed by a global variable of its
      unit, which is listed as well. */
  lemma GlobalListedExample(parent: Option<Die>, param: Die, own: Die, block: Die, global: Die)
    requires param.tag == ParameterTag && own.tag == VariableTag && block.tag == OtherTag && global.tag == VariableTag
    ensures var forest := [Leaf(1, Subprogram).(children := [param, own, block]), global];
      Collected(parent, forest) == [param, own, global] && Variables(forest[0].children) == [param, own]
  {
    var forest := [Leaf(1, Subprogram).(children := [param, own, block]), global];
    CollectedAre(parent, forest);
    ListedForFunction(forest, 0);
    assert Variables([block]) == [] by { assert [block][1..] == []; }
    assert [own, block][1..] == [block] && [param, own, block][1..] == [own, block];
    assert [global][1..] == [] && forest[1..] == [global];
    assert [param, own] + [global] == [param, own, global];
  }

  /** A function without children, before one that has a local: the other's local is listed as its. */
  lemma OtherLocalExample(parent: Option<Die>)
    ensures var local := Leaf(3, VariableTag);
      var forest := [Leaf(1, Subprogram), Leaf(2, Subprogram).(children := [local])];
      Collected(parent, forest) != [] && Variables(forest[0].children) == []
  {
    var local := Leaf(3, VariableTag);
    var forest := [Leaf(1, Subprogram), Leaf(2, Subprogram).(children := [local])];
    assert FirstParent(forest) == 1;
    CollectedAreOwnIff(parent, forest);
    assert forest[1].children[0] == local;
  }
}
