/** The row walk of GetCfa against the walk it abbreviates, and two places where ranges are not
    what section 6.4 and section 2.6.2 of the DWARF 4 standard ask for. */
module FrameRows {
  import opened Words
  import opened Expression
  import opened Unwinding

  /** One address of the walk that jumps nowhere and prints no other columns. */
  function StepAddress(p: Program, cfaOn: bool, f: Fde, at: Word, cfa: Word, fuel: nat): RowStep
    requires at < f.high
  {
    match f.cfaInfo(at)
    case None => Onward(at + 1, cfa)
    case Some(info) =>
      match GetReg(p, cfaOn, true, at, info, 0, fuel)
      case Stuck => Ended(Stuck)
      case Undefined(h) => Ended(Undefined(h))
      case Returned(v) => Onward(at + 1, v)
  }

  /** The walk that tests every address of the range: its result, and the addresses at which it
      asks for the CFA rule. */
  function EveryAddress(p: Program, cfaOn: bool, f: Fde, at: Word, cfa: Word, fuel: nat): (Reply<Word>, seq<Word>)
    decreases f.high - at
  {
    if at >= f.high then (Returned(cfa), [])
    else match StepAddress(p, cfaOn, f, at, cfa, fuel)
      case Ended(r) => (r, [at])
      case Onward(_, v) =>
        var rest := EveryAddress(p, cfaOn, f, at + 1, v, fuel);
        (rest.0, [at] + rest.1)
  }

  function RowLimit(f: Fde, starts: seq<Word>, k: nat): Word {
    if k + 1 < |starts| then starts[k + 1] else f.high
  }

  ghost predicate InRow(f: Fde, starts: seq<Word>, k: nat, at: Word) {
    k < |starts| && starts[k] <= at < RowLimit(f, starts, k)
  }

  /** Rows that start at the given addresses cover the whole range, and each knows the next. */
  ghost predicate RowTable(f: Fde, starts: seq<Word>) {
    && starts != [] && starts[0] == f.low
    && (forall k {:trigger RowLimit(f, starts, k)} :: 0 <= k < |starts| ==> starts[k] < RowLimit(f, starts, k))
    && forall k: nat, at: Word :: InRow(f, starts, k, at) ==>
         && f.cfaInfo(at).Some?
         && f.cfaInfo(at).value.hasMoreRows == (k + 1 < |starts|)
         && (k + 1 < |starts| ==> f.cfaInfo(at).value.subsequentPc == starts[k + 1])
  }

  /** Row k gives the CFA vals[k] at each of its addresses. */
  ghost predicate RowValues(p: Program, cfaOn: bool, f: Fde, starts: seq<Word>, vals: seq<Word>, fuel: nat) {
    && RowTable(f, starts) && |vals| == |starts|
    && forall k: nat, at: Word :: InRow(f, starts, k, at) ==>
         GetReg(p, cfaOn, true, at, f.cfaInfo(at).value, 0, fuel) == Returned(vals[k])
  }

  /** The columns that are only printed can be evaluated where the walk looks at them: at the end of
      each row, from any of its addresses, with the row's value. */
  ghost predicate ColumnsPrint(p: Program, cfaOn: bool, f: Fde, starts: seq<Word>, vals: seq<Word>, fuel: nat)
    requires RowValues(p, cfaOn, f, starts, vals, fuel)
  {
    forall k: nat, at: Word :: InRow(f, starts, k, at) && vals[k] != MAX_ADDR ==>
      OtherColumns(p, cfaOn, f, RowEnd(f.cfaInfo(at).value, at), vals[k], 0, fuel).Returned?
  }

  lemma {:induction false} StartsBelowHigh(f: Fde, starts: seq<Word>, k: nat)
    requires k < |starts|
    requires forall j {:trigger RowLimit(f, starts, j)} :: 0 <= j < |starts| ==> starts[j] < RowLimit(f, starts, j)
    ensures RowLimit(f, starts, k) <= f.high
    decreases |starts| - k
  {
    if k + 1 < |starts| {
      assert starts[k + 1] < RowLimit(f, starts, k + 1);
      StartsBelowHigh(f, starts, k + 1);
    }
  }

  /** Where the next address is, and where the next row starts. */
  lemma RowFacts(f: Fde, starts: seq<Word>, k: nat, at: Word)
    requires RowTable(f, starts) && InRow(f, starts, k, at)
    ensures at < f.high
    ensures at + 1 < RowLimit(f, starts, k) ==> InRow(f, starts, k, at + 1)
    ensures k + 1 < |starts| ==> InRow(f, starts, k + 1, RowLimit(f, starts, k))
    ensures k + 1 == |starts| ==> RowLimit(f, starts, k) == f.high
  {
    StartsBelowHigh(f, starts, k);
    if k + 1 < |starts| {
      assert starts[k + 1] < RowLimit(f, starts, k + 1);
    }
  }

  /** What row k says at one of its addresses. */
  ghost predicate RowSays(p: Program, cfaOn: bool, f: Fde, starts: seq<Word>, k: nat, at: Word, v: Word, fuel: nat) {
    && at < f.high && f.cfaInfo(at).Some?
    && f.cfaInfo(at).value.hasMoreRows == (k + 1 < |starts|)
    && (k + 1 < |starts| ==> f.cfaInfo(at).value.subsequentPc == starts[k + 1] > at)
    && GetReg(p, cfaOn, true, at, f.cfaInfo(at).value, 0, fuel) == Returned(v)
  }

  /** One address of either walk: the walk of the source goes to the next row, to the next address
      if the row has no value, or ends. */
  lemma WalkStep(p: Program, cfaOn: bool, f: Fde, starts: seq<Word>, k: nat, at: Word, v: Word, cfa: Word, fuel: nat)
    requires RowSays(p, cfaOn, f, starts, k, at, v, fuel)
    requires v != MAX_ADDR ==> OtherColumns(p, cfaOn, f, RowEnd(f.cfaInfo(at).value, at), v, 0, fuel).Returned?
    ensures StepRow(p, cfaOn, f, at, cfa, fuel) ==
      if v == MAX_ADDR then Onward(at + 1, v)
      else if k + 1 < |starts| then Onward(starts[k + 1], v)
      else Ended(Returned(v))
    ensures StepAddress(p, cfaOn, f, at, cfa, fuel) == Onward(at + 1, v)
  {
  }

  /** Everything known at an address of row k. */
  lemma AtRow(
        p: Program, cfaOn: bool, f: Fde, starts: seq<Word>, vals: seq<Word>, k: nat, at: Word, cfa: Word, fuel: nat)
    requires RowValues(p, cfaOn, f, starts, vals, fuel) && ColumnsPrint(p, cfaOn, f, starts, vals, fuel)
    requires InRow(f, starts, k, at)
    ensures at < f.high && RowOf(starts, at) == k
    ensures at + 1 < RowLimit(f, starts, k) ==> InRow(f, starts, k, at + 1)
    ensures if k + 1 < |starts| then RowLimit(f, starts, k) == starts[k + 1] && InRow(f, starts, k + 1, starts[k + 1])
            else RowLimit(f, starts, k) == f.high
    ensures StepRow(p, cfaOn, f, at, cfa, fuel) ==
      if vals[k] == MAX_ADDR then Onward(at + 1, vals[k])
      else if k + 1 < |starts| then Onward(starts[k + 1], vals[k])
      else Ended(Returned(vals[k]))
    ensures StepAddress(p, cfaOn, f, at, cfa, fuel) == Onward(at + 1, vals[k])
  {
    RowFacts(f, starts, k, at);
    RowOfInRow(f, starts, k, at);
    WalkStep(p, cfaOn, f, starts, k, at, vals[k], cfa, fuel);
  }

  /** Both walks, from any address of any row, end with the last row's value. */
  lemma {:induction false} WalksFromRow(
        p: Program, cfaOn: bool, f: Fde, starts: seq<Word>, vals: seq<Word>, k: nat, at: Word, cfa: Word, fuel: nat)
    requires RowValues(p, cfaOn, f, starts, vals, fuel) && ColumnsPrint(p, cfaOn, f, starts, vals, fuel)
    requires InRow(f, starts, k, at)
    ensures Walk(p, cfaOn, f, at, cfa, fuel) == Returned(vals[|vals| - 1])
    ensures EveryAddress(p, cfaOn, f, at, cfa, fuel).0 == Returned(vals[|vals| - 1])
    decreases f.high - at
  {
    AtRow(p, cfaOn, f, starts, vals, k, at, cfa, fuel);
    var v, limit := vals[k], RowLimit(f, starts, k);
    if at + 1 < limit {
      WalksFromRow(p, cfaOn, f, starts, vals, k, at + 1, v, fuel);
    }
    if k + 1 < |starts| {
      WalksFromRow(p, cfaOn, f, starts, vals, k + 1, limit, v, fuel);
    }
  }

  /** The walk that jumps row by row, and stops at the last, returns what testing every address
      returns. */
  lemma JumpingRefinesEveryAddress(p: Program, cfaOn: bool, f: Fde, starts: seq<Word>, vals: seq<Word>, fuel: nat)
    requires RowValues(p, cfaOn, f, starts, vals, fuel) && ColumnsPrint(p, cfaOn, f, starts, vals, fuel)
    ensures Walk(p, cfaOn, f, f.low, MAX_ADDR, fuel) == EveryAddress(p, cfaOn, f, f.low, MAX_ADDR, fuel).0
  {
    assert InRow(f, starts, 0, f.low);
    WalksFromRow(p, cfaOn, f, starts, vals, 0, f.low, MAX_ADDR, fuel);
  }

  // ----- the rows visited -----

  /** Consecutive repeats removed. */
  function Distinct(s: seq<nat>): seq<nat> {
    if |s| <= 1 then s
    else if s[0] == s[1] then Distinct(s[1..])
    else [s[0]] + Distinct(s[1..])
  }

  function Upto(k: nat, n: nat): seq<nat>
    decreases n - k
  {
    if k >= n then [] else [k] + Upto(k + 1, n)
  }

  /** The row of an address: how many rows start at or before it, without the first. */
  function RowOf(starts: seq<Word>, at: Word): nat {
    if |starts| <= 1 || at < starts[1] then 0 else 1 + RowOf(starts[1..], at)
  }

  function RowsOf(starts: seq<Word>, addresses: seq<Word>): (rows: seq<nat>)
    ensures |rows| == |addresses| && forall i :: 0 <= i < |rows| ==> rows[i] == RowOf(starts, addresses[i])
  {
    if addresses == [] then [] else [RowOf(starts, addresses[0])] + RowsOf(starts, addresses[1..])
  }

  lemma {:induction false} RowOfInRow(f: Fde, starts: seq<Word>, k: nat, at: Word)
    requires forall j {:trigger RowLimit(f, starts, j)} :: 0 <= j < |starts| ==> starts[j] < RowLimit(f, starts, j)
    requires InRow(f, starts, k, at)
    ensures RowOf(starts, at) == k
    decreases |starts|
  {
    if k > 0 {
      var rest := starts[1..];
      forall j | 0 <= j < |rest| ensures rest[j] < RowLimit(f, rest, j) {
        assert starts[j + 1] < RowLimit(f, starts, j + 1);
      }
      assert RowLimit(f, rest, k - 1) == RowLimit(f, starts, k);
      RowOfInRow(f, rest, k - 1, at);
      StartsAscend(f, starts, 1, k);
    } else if |starts| > 1 {
      assert at < RowLimit(f, starts, 0);
    }
  }

  lemma {:induction false} StartsAscend(f: Fde, starts: seq<Word>, j: nat, k: nat)
    requires forall i {:trigger RowLimit(f, starts, i)} :: 0 <= i < |starts| ==> starts[i] < RowLimit(f, starts, i)
    requires j <= k < |starts|
    ensures starts[j] <= starts[k]
    decreases k - j
  {
    if j < k {
      assert starts[j] < RowLimit(f, starts, j);
      StartsAscend(f, starts, j + 1, k);
    }
  }

  /** Row k, then the rows of a list that stays in row k or starts at row k + 1. */
  lemma DistinctStep(k: nat, rows: seq<nat>, n: nat)
    requires k < n
    requires if rows == [] then k + 1 == n else Distinct(rows) == Upto(k, n) || Distinct(rows) == Upto(k + 1, n)
    ensures Distinct([k] + rows) == Upto(k, n)
  {
    if rows != [] {
      DistinctFirst(rows);
      assert ([k] + rows)[1..] == rows;
    }
  }

  lemma {:induction false} DistinctFirst(s: seq<nat>)
    requires s != []
    ensures Distinct(s) != [] && Distinct(s)[0] == s[0]
  {
    if |s| > 1 && s[0] == s[1] {
      DistinctFirst(s[1..]);
    }
  }

  lemma RowsJoin(starts: seq<Word>, k: nat, at: Word, after: seq<Word>)
    requires RowOf(starts, at) == k < |starts|
    requires var rows, n := RowsOf(starts, after), |starts|;
      if after == [] then k + 1 == n else Distinct(rows) == Upto(k, n) || Distinct(rows) == Upto(k + 1, n)
    ensures Distinct(RowsOf(starts, [at] + after)) == Upto(k, |starts|)
  {
    assert ([at] + after)[1..] == after;
    DistinctStep(k, RowsOf(starts, after), |starts|);
  }

  /** From any address of row k on, the walk of the source meets the rows k, k + 1, ... in order. */
  lemma {:induction false} JumpingRows(
        p: Program, cfaOn: bool, f: Fde, starts: seq<Word>, vals: seq<Word>, k: nat, at: Word, cfa: Word, fuel: nat)
    requires RowValues(p, cfaOn, f, starts, vals, fuel) && ColumnsPrint(p, cfaOn, f, starts, vals, fuel)
    requires InRow(f, starts, k, at)
    ensures Visited(p, cfaOn, f, at, cfa, fuel) != []
    ensures Distinct(RowsOf(starts, Visited(p, cfaOn, f, at, cfa, fuel))) == Upto(k, |starts|)
    decreases f.high - at
  {
    AtRow(p, cfaOn, f, starts, vals, k, at, cfa, fuel);
    var v, limit := vals[k], RowLimit(f, starts, k);
    var after := [];
    if v == MAX_ADDR && at + 1 < limit {
      JumpingRows(p, cfaOn, f, starts, vals, k, at + 1, v, fuel);
      after := Visited(p, cfaOn, f, at + 1, v, fuel);
    } else if k + 1 < |starts| {
      JumpingRows(p, cfaOn, f, starts, vals, k + 1, limit, v, fuel);
      after := Visited(p, cfaOn, f, limit, v, fuel);
    }
    VisitedUnfolds(p, cfaOn, f, at, cfa, fuel, []);
    assert [] + Visited(p, cfaOn, f, at, cfa, fuel) == [] + [at] + after;
    RowsJoin(starts, k, at, after);
  }

  lemma EveryUnfolds(p: Program, cfaOn: bool, f: Fde, at: Word, cfa: Word, v: Word, fuel: nat)
    requires at < f.high && StepAddress(p, cfaOn, f, at, cfa, fuel) == Onward(at + 1, v)
    ensures EveryAddress(p, cfaOn, f, at, cfa, fuel).1 == [at] + EveryAddress(p, cfaOn, f, at + 1, v, fuel).1
    ensures at + 1 == f.high ==> EveryAddress(p, cfaOn, f, at + 1, v, fuel).1 == []
  {
  }

  /** So does the walk that tests every address. */
  lemma {:induction false} EveryRows(
        p: Program, cfaOn: bool, f: Fde, starts: seq<Word>, vals: seq<Word>, k: nat, at: Word, cfa: Word, fuel: nat)
    requires RowValues(p, cfaOn, f, starts, vals, fuel) && ColumnsPrint(p, cfaOn, f, starts, vals, fuel)
    requires InRow(f, starts, k, at)
    ensures EveryAddress(p, cfaOn, f, at, cfa, fuel).1 != []
    ensures Distinct(RowsOf(starts, EveryAddress(p, cfaOn, f, at, cfa, fuel).1)) == Upto(k, |starts|)
    decreases f.high - at
  {
    AtRow(p, cfaOn, f, starts, vals, k, at, cfa, fuel);
    var v, limit := vals[k], RowLimit(f, starts, k);
    var after := EveryAddress(p, cfaOn, f, at + 1, v, fuel).1;
    if at + 1 < limit {
      EveryRows(p, cfaOn, f, starts, vals, k, at + 1, v, fuel);
    } else if k + 1 < |starts| {
      EveryRows(p, cfaOn, f, starts, vals, k + 1, limit, v, fuel);
    }
    EveryUnfolds(p, cfaOn, f, at, cfa, vals[k], fuel);
    RowsJoin(starts, k, at, after);
  }

  /** GetCfa and the walk that tests every address ask for the rules of the same rows in the same
      order, repeats ignored: all rows of the range, from the first to the last. */
  lemma BothVisitEveryRow(p: Program, cfaOn: bool, f: Fde, starts: seq<Word>, vals: seq<Word>, fuel: nat)
    requires RowValues(p, cfaOn, f, starts, vals, fuel) && ColumnsPrint(p, cfaOn, f, starts, vals, fuel)
    ensures var jumping := Visited(p, cfaOn, f, f.low, MAX_ADDR, fuel);
      var every := EveryAddress(p, cfaOn, f, f.low, MAX_ADDR, fuel).1;
      && Distinct(RowsOf(starts, jumping)) == Upto(0, |starts|) == Distinct(RowsOf(starts, every))
      && forall k: nat, at: Word :: InRow(f, starts, k, at) ==> RowOf(starts, at) == k
  {
    assert InRow(f, starts, 0, f.low);
    JumpingRows(p, cfaOn, f, starts, vals, 0, f.low, MAX_ADDR, fuel);
    EveryRows(p, cfaOn, f, starts, vals, 0, f.low, MAX_ADDR, fuel);
    forall k: nat, at: Word | InRow(f, starts, k, at) ensures RowOf(starts, at) == k {
      RowOfInRow(f, starts, k, at);
    }
  }

  /** Where every row has a value the walk of the source asks once for each row, at its start. */
  lemma {:induction false} JumpsFromStartToStart(
        p: Program, cfaOn: bool, f: Fde, starts: seq<Word>, vals: seq<Word>, k: nat, cfa: Word, fuel: nat)
    requires RowValues(p, cfaOn, f, starts, vals, fuel) && ColumnsPrint(p, cfaOn, f, starts, vals, fuel)
    requires k < |starts| && MAX_ADDR !in vals
    ensures Visited(p, cfaOn, f, starts[k], cfa, fuel) == starts[k..]
    decreases |starts| - k
  {
    var at, v := starts[k], vals[k];
    assert at < RowLimit(f, starts, k) && InRow(f, starts, k, at);
    AtRow(p, cfaOn, f, starts, vals, k, at, cfa, fuel);
    if k + 1 < |starts| {
      JumpsFromStartToStart(p, cfaOn, f, starts, vals, k + 1, v, fuel);
      assert starts[k..] == [at] + starts[k + 1..];
    }
  }

  // ----- the row of the pc -----

  /** Section 6.4 wants the CFA of the row that contains the pc. GetCfa returns the last row's,
      whatever the pc, so it is right exactly when the two rows agree. */
  lemma CfaIsLastRows(p: Program, cfaOn: bool, pc: Word, f: Fde, starts: seq<Word>, vals: seq<Word>, k: nat, fuel: nat)
    requires p.fdeAt(pc) == Some(f) && InRow(f, starts, k, pc)
    requires RowValues(p, cfaOn, f, starts, vals, fuel) && ColumnsPrint(p, cfaOn, f, starts, vals, fuel)
    ensures GetCfa(p, cfaOn, pc, fuel) == Returned(vals[|vals| - 1])
    ensures GetCfa(p, cfaOn, pc, fuel) == Returned(vals[k]) <==> vals[k] == vals[|vals| - 1]
  {
    assert InRow(f, starts, 0, f.low);
    WalksFromRow(p, cfaOn, f, starts, vals, 0, f.low, MAX_ADDR, fuel);
  }

  /** A function whose CFA is register 7 plus 16 in its first ten bytes and plus 32 after. */
  function PushExample(): Program {
    var f := Fde(0, 20,
                 at => Some(FdeInfo(OffsetRule, false, Numbered(7), if at < 10 then 16 else 32, None, 0, at < 10, 10)),
                 (x, at) => None);
    Program(0, 20, None, n => Some(1000), (a, n) => Denied, pc => Some(f))
  }

  /** At pc 5 the row says 1016; GetCfa says 1032. */
  lemma PushExampleIsWrong(fuel: nat)
    ensures var p := PushExample(); var f := p.fdeAt(5).value;
      && GetReg(p, false, true, 5, f.cfaInfo(5).value, 0, fuel) == Returned(1016)
      && GetCfa(p, false, 5, fuel) == Returned(1032)
  {
    var p := PushExample();
    var f := p.fdeAt(5).value;
    forall at, v ensures OtherColumns(p, false, f, at, v, 0, fuel).Returned? {
      NoColumns(p, f, at, v, 0, fuel);
    }
    var starts, vals := [0, 10], [1016, 1032];
    forall k: nat, at: Word | InRow(f, starts, k, at)
      ensures f.cfaInfo(at).Some? && f.cfaInfo(at).value.hasMoreRows == (k + 1 < |starts|)
      ensures k + 1 < |starts| ==> f.cfaInfo(at).value.subsequentPc == starts[k + 1]
      ensures GetReg(p, false, true, at, f.cfaInfo(at).value, 0, fuel) == Returned(vals[k])
    {
      assert k == 0 || k == 1;
    }
    CfaIsLastRows(p, false, 5, f, starts, vals, 0, fuel);
  }

  lemma {:induction false} NoColumns(p: Program, f: Fde, at: Word, v: Word, x: nat, fuel: nat)
    requires forall y, a :: f.regInfo(y, a) == None
    ensures OtherColumns(p, false, f, at, v, x, fuel).Returned?
    decreases REGISTER_COLUMNS - x
  {
    if x < REGISTER_COLUMNS {
      NoColumns(p, f, at, v, x + 1, fuel);
    }
  }

  // ----- register rules -----

  /** An offset rule of the CFA column, and of another column whose offset does not count from the CFA,
      is a register plus a signed offset, modulo 2^64; what val_offset finds is the signed offset
      away from the CFA. */
  lemma OffsetsAreSigned(p: Program, cfaOn: bool, isCfa: bool, pc: Word, info: FdeInfo, cfa: Word, fuel: nat)
    requires info.reg.Numbered? && info.reg.n < 0x8000_0000
    ensures info.rule.OffsetRule? && (isCfa || !info.offsetRelevant) && p.registers(info.reg.n).Some? ==>
      GetReg(p, cfaOn, isCfa, pc, info, cfa, fuel)
      == Returned(ToWord(p.registers(info.reg.n).value + ToSigned(info.offset)))
    ensures info.rule.ValOffsetRule? ==>
      GetReg(p, cfaOn, isCfa, pc, info, cfa, fuel) == Returned(ToWord(cfa + ToSigned(info.offset)))
  {
    SignedOffset(cfa, info.offset);
    if p.registers(info.reg.n).Some? {
      SignedOffset(p.registers(info.reg.n).value, info.offset);
    }
  }

  lemma SignedOffset(v: Word, off: Word)
    ensures ToWord(v + off) == ToWord(v + ToSigned(off))
  {
    SignedIsCongruent(off);
    CongruentAdd(v, v, off, ToSigned(off));
  }

  // ----- location-list ranges -----

  // The bounds of an entry come from libdwarf. They are read in two ways: as offsets from the unit's
  // base address, which is how evalValue treats them, and as addresses that libdwarf has already
  // resolved, which is what the header of DwarfLocation calls them.

  /** Section 2.6.2, bounds as offsets: both ends count from the unit's base address. A location that
      is no list has bounds of zero, or zero and the largest word, and holds everywhere. */
  predicate StandardCovers(p: Program, e: RangedExpr, pc: Word) {
    (e.low == 0 && e.high in {0, MAX_ADDR}) || ToWord(e.low + p.cuLow) <= pc < ToWord(e.high + p.cuLow)
  }

  /** Bounds as addresses: nothing is added. */
  predicate ResolvedCovers(e: RangedExpr, pc: Word) {
    (e.low == 0 && e.high in {0, MAX_ADDR}) || e.low <= pc < e.high
  }

  /** The source adds the unit's high pc to the end of the range. With offsets, an entry covers a pc
      exactly when the standard says so, except from the range's start on in the window between the
      true end and the end the source computes. */
  lemma EntryCoversIff(p: Program, e: RangedExpr, pc: Word)
    ensures var low, end, computed := ToWord(e.low + p.cuLow), ToWord(e.high + p.cuLow), ToWord(e.high + p.cuHigh);
      (Covers(p, e, pc) <==> StandardCovers(p, e, pc))
      <==> (e.low == 0 && e.high in {0, MAX_ADDR}) || pc < low || !(end <= pc < computed || computed <= pc < end)
  {
  }

  /** An entry that covers the first word alone, if both its ends count from the low pc. */
  lemma FirstWordEntry(p: Program) returns (e: RangedExpr)
    ensures ToWord(e.low + p.cuLow) == 0 && ToWord(e.high + p.cuLow) == 1 && !Unlimited(e)
    ensures ToWord(e.high + p.cuHigh) == ToWord(1 + p.cuHigh - p.cuLow)
  {
    e := RangedExpr(ToWord(0 - p.cuLow), ToWord(1 - p.cuLow), []);
    WordShift(0 - p.cuLow, p.cuLow);
    WordShift(1 - p.cuLow, p.cuLow);
    WordShift(1 - p.cuLow, p.cuHigh);
  }

  /** With offsets, all entries cover what they should exactly when the unit is empty: its high pc
      is its low pc. */
  lemma OffsetRangesRightIff(p: Program)
    ensures (forall e, pc :: Covers(p, e, pc) <==> StandardCovers(p, e, pc)) <==> p.cuLow == p.cuHigh
  {
    if p.cuLow != p.cuHigh {
      var e := FirstWordEntry(p);
      var end := ToWord(e.high + p.cuHigh);
      assert end != 1;
      var pc := if end == 0 then 0 else 1;
      assert Covers(p, e, pc) != StandardCovers(p, e, pc);
    }
  }

  /** With addresses, all entries cover what they should exactly when the unit's bounds are zero. */
  lemma ResolvedRangesRightIff(p: Program)
    ensures (forall e, pc :: Covers(p, e, pc) <==> ResolvedCovers(e, pc)) <==> p.cuLow == 0 && p.cuHigh == 0
  {
    var e := RangedExpr(0, 1, []);
    var pc := if p.cuLow != 0 || ToWord(1 + p.cuHigh) == 0 then 0 else 1;
    if p.cuLow != 0 || p.cuHigh != 0 {
      assert Covers(p, e, pc) != ResolvedCovers(e, pc);
    }
  }

  /** A unit at [0x1000, 0x2000) and a variable that lives in its first sixteen bytes: with either
      reading the source finds it at 0x2008, where it is not. */
  lemma RangeExample(p: Program)
    requires p.cuLow == 0x1000 && p.cuHigh == 0x2000
    ensures var offsets, addresses, pc := RangedExpr(0, 0x10, []), RangedExpr(0x1000, 0x1010, []), 0x2008;
      && Covers(p, offsets, pc) && !StandardCovers(p, offsets, pc)
      && Covers(p, addresses, pc) && !ResolvedCovers(addresses, pc)
  {
  }
}
