/** The search for the function that contains a pc: a walk over the DIE tree by first child and
    next sibling, with a level counter and the result kept in a shared context. */
module DieSearch {
  import opened Words
  import opened DieTree

  /** matchFuncDie and searchInDie: a function without a range is no entry. */
  function SearchDie(d: Die, pc: Word, level: int): Code {
    match d.tag
    case Subprogram | InlinedSubroutine =>
      if Range(d).None? then NoEntry else if Contains(d, pc) then FoundSubprog else Ok
    case UnitTag => if level != 0 then NotThisCu else d.verdict
    case VariableTag | ParameterTag | OtherTag => Ok
  }

  /** The code, and the context's level and result after the call. */
  datatype Answer = Answer(code: Code, level: int, func: Option<Die>)

  /** searchInDieTree on a DIE and the siblings after it. */
  function SearchForest(forest: seq<Die>, pc: Word, level: int, func: Option<Die>): Answer
    requires forest != []
    decreases forest, 1
  {
    match SearchDie(forest[0], pc, level)
    case FoundSubprog => Answer(FoundSubprog, level, Some(forest[0]))
    case Err => Answer(Err, level, func)
    case NoEntry => Answer(NoEntry, level, func)
    case NotThisCu => Answer(NotThisCu, level, func)
    case _ => SearchRest(forest, pc, level, func)
  }

  /** The loop from a DIE already examined: its children, then the next sibling. */
  function SearchRest(forest: seq<Die>, pc: Word, level: int, func: Option<Die>): Answer
    requires forest != []
    decreases forest, 0
  {
    var below := SearchKids(forest[0], pc, level, func);
    if below.code.FoundSubprog? || below.code.NotThisCu? || below.code.Err? then below
    else if |forest| == 1 then Answer(Ok, below.level - 1, below.func)
    else match SearchDie(forest[1], pc, below.level)
      case FoundSubprog => Answer(FoundSubprog, below.level, Some(forest[1]))
      case Err => Answer(Err, below.level, below.func)
      case _ => SearchRest(forest[1..], pc, below.level, below.func)
  }

  /** What the children of a DIE contribute: they are searched one level down. */
  function SearchKids(d: Die, pc: Word, level: int, func: Option<Die>): Answer
    decreases d
  {
    if d.children == [] then Answer(Ok, level, func) else SearchForest(d.children, pc, level + 1, func)
  }

  // ----- the search as it runs -----

  class CuContext {
    const pc: Word
    var inLevel: int
    var funcDie: Option<Die>

    constructor (pc: Word)
      ensures this.pc == pc && inLevel == 0 && funcDie == None
    {
      this.pc := pc;
      inLevel, funcDie := 0, None;
    }

    method MatchFuncDie(d: Die) returns (res: Code)
      requires IsFunction(d)
      modifies this`funcDie
      ensures res == SearchDie(d, pc, inLevel)
      ensures funcDie == if res == FoundSubprog then Some(d) else old(funcDie)
    {
      var range := Range(d);
      if range.None? {
        return NoEntry;
      }
      if pc < range.value.0 || pc >= range.value.1 {
        return Ok;
      }
      funcDie := Some(d);
      res := FoundSubprog;
    }

    method SearchInDie(d: Die) returns (res: Code)
      modifies this`funcDie
      ensures res == SearchDie(d, pc, inLevel)
      ensures res == FoundSubprog && IsFunction(d) ==> funcDie == Some(d)
      ensures !(res == FoundSubprog && IsFunction(d)) ==> funcDie == old(funcDie)
    {
      if d.tag.Subprogram? || d.tag.InlinedSubroutine? {
        res := MatchFuncDie(d);
      } else if d.tag.UnitTag? {
        if inLevel != 0 {
          return NotThisCu;
        }
        res := d.verdict;
      } else {
        res := Ok;
      }
    }

    /** The recursion over first children inside the loop over siblings. */
    method SearchInDieTree(forest: seq<Die>) returns (res: Code)
      requires forest != [] && UnitsDoNotFind(forest)
      modifies this
      ensures Answer(res, inLevel, funcDie) == SearchForest(forest, pc, old(inLevel), old(funcDie))
      decreases forest
    {
      UnitsBelow(forest);
      res := SearchInDie(forest[0]);
      if res == Err || res == NoEntry || res == NotThisCu || res == FoundSubprog {
        return;
      }
      ghost var answer := SearchForest(forest, pc, inLevel, funcDie);
      var cur := 0;
      while true
        invariant cur < |forest|
        invariant answer == SearchRest(forest[cur..], pc, inLevel, funcDie)
        decreases |forest| - cur
      {
        var kids := forest[cur].children;
        if kids != [] {
          inLevel := inLevel + 1;
          var res2 := SearchInDieTree(kids);
          if res2 == FoundSubprog || res2 == NotThisCu || res2 == Err {
            return res2;
          }
        }
        if cur + 1 == |forest| {
          inLevel := inLevel - 1;
          break;
        }
        assert forest[cur..][1..] == forest[cur + 1..];
        cur := cur + 1;
        res := SearchInDie(forest[cur]);
        if res == Err || res == FoundSubprog {
          return;
        }
      }
      res := Ok;
    }
  }

  /** matchCUDie never says that it found a subprogram. */
  ghost predicate UnitsDoNotFind(forest: seq<Die>)
    decreases forest
  {
    forall k :: 0 <= k < |forest| ==> forest[k].verdict != FoundSubprog && UnitsDoNotFind(forest[k].children)
  }

  lemma UnitsBelow(forest: seq<Die>)
    requires UnitsDoNotFind(forest)
    ensures forall k :: 0 <= k < |forest| ==> UnitsDoNotFind(forest[k].children)
  {
  }

  // ----- all units -----

  /** searchFunction: one unit after the other, a fresh context for each; an error ends it. */
  function FindFunction(cus: seq<Die>, pc: Word): Option<(Die, Die)> {
    if cus == [] then None
    else
      var a := SearchForest([cus[0]], pc, 0, None);
      match a.code
      case FoundSubprog => if a.func.Some? then Some((cus[0], a.func.value)) else None
      case InThisCu | Err => None
      case _ => FindFunction(cus[1..], pc)
  }

  method SearchFunction(cus: seq<Die>, pc: Word) returns (r: Option<(Die, Die)>)
    requires forall k :: 0 <= k < |cus| ==> UnitsDoNotFind([cus[k]])
    ensures r == FindFunction(cus, pc)
  {
    for k := 0 to |cus|
      invariant FindFunction(cus, pc) == FindFunction(cus[k..], pc)
    {
      assert cus[k..][1..] == cus[k + 1..];
      var ctx := new CuContext(pc);
      var res := ctx.SearchInDieTree([cus[k]]);
      if res == FoundSubprog {
        return if ctx.funcDie.Some? then Some((cus[k], ctx.funcDie.value)) else None;
      } else if res == InThisCu || res == Err {
        return None;
      }
    }
    r := None;
  }
}
