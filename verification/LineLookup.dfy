/** The search of a unit's line table for the source position of a pc. */
module LineLookup {
  import opened Words

  /** One row as libdwarf loads it. A row is unreadable when one of its getters fails; the source
      never asks whether a row ends a sequence. */
  datatype Line = Line(addr: Word, file: string, number: Word, endsSequence: bool, readable: bool)

  /** The row whose position is given, by its index; none when there is no row to give, and the
      source then copies a string from a null pointer. */
  function Lookup(table: seq<Line>, pc: Word, i: nat): Option<nat>
    requires i <= |table|
    decreases |table| - i
  {
    if i < |table| && table[i].readable && !(i > 0 && table[i].addr > pc) then Lookup(table, pc, i + 1)
    else if i == 0 then None
    else Some(i - 1)
  }

  /** getFileNameAndLineNumber, once the table is loaded. */
  method GetFileNameAndLineNumber(table: seq<Line>, pc: Word) returns (r: Option<(string, Word)>)
    ensures match Lookup(table, pc, 0)
      case None => r == None
      case Some(k) => k < |table| && r == Some((table[k].file, table[k].number))
  {
    var prevFile: Option<string>, prevNumber: Word := None, 0;
    for i := 0 to |table|
      invariant Lookup(table, pc, 0) == Lookup(table, pc, i)
      invariant prevFile == if i == 0 then None else Some(table[i - 1].file)
      invariant i > 0 ==> prevNumber == table[i - 1].number
    {
      var line := table[i];
      if !line.readable {
        break;
      }
      if prevFile.Some? && line.addr > pc {
        return Some((prevFile.value, prevNumber));
      }
      prevFile, prevNumber := Some(line.file), line.number;
    }
    r := if prevFile.None? then None else Some((prevFile.value, prevNumber));
  }

  /** Section 6.2.2 of DWARF 4: a row describes the addresses from its own up to the next row's,
      unless it ends a sequence. */
  predicate Describes(table: seq<Line>, k: nat, pc: Word) {
    k + 1 < |table| && !table[k].endsSequence && table[k].addr <= pc < table[k + 1].addr
  }

  ghost predicate AllReadable(table: seq<Line>) {
    forall k :: 0 <= k < |table| ==> table[k].readable
  }

  ghost predicate NoneBeyond(table: seq<Line>, pc: Word, i: nat, k: nat)
    requires k <= |table|
  {
    forall j :: i <= j < k && j > 0 ==> table[j].addr <= pc
  }

  lemma {:induction false} LookupStops(table: seq<Line>, pc: Word, i: nat)
    requires i <= |table| && AllReadable(table)
    ensures match Lookup(table, pc, i)
      case None => table == []
      case Some(k) => i <= k + 1 <= |table| && NoneBeyond(table, pc, i, k + 1)
                      && (k + 1 < |table| ==> table[k + 1].addr > pc && k + 1 > 0)
    decreases |table| - i
  {
    if i < |table| && !(i > 0 && table[i].addr > pc) {
      LookupStops(table, pc, i + 1);
    }
  }

  /** A row that describes the pc is the answer if and only if no row between the first and it
      starts beyond the pc: tables whose sequences are out of order break this. */
  lemma DescribingRowFoundIff(table: seq<Line>, pc: Word, k: nat)
    requires AllReadable(table) && Describes(table, k, pc)
    ensures Lookup(table, pc, 0) == Some(k) <==> NoneBeyond(table, pc, 0, k)
  {
    LookupStops(table, pc, 0);
  }

  /** Whatever the table, there is an answer, and it describes the pc if and only if some row does and
      no row between the first and that one starts beyond the pc. */
  lemma AnswerDescribesIff(table: seq<Line>, pc: Word)
    requires AllReadable(table) && table != []
    ensures var r := Lookup(table, pc, 0);
      && r.Some? && r.value < |table|
      && (Describes(table, r.value, pc) <==>
            exists k :: 0 <= k < |table| && Describes(table, k, pc) && NoneBeyond(table, pc, 0, k))
  {
    LookupStops(table, pc, 0);
    forall k | 0 <= k < |table| && Describes(table, k, pc) && NoneBeyond(table, pc, 0, k)
      ensures Lookup(table, pc, 0) == Some(k)
    {
      DescribingRowFoundIff(table, pc, k);
    }
  }

  /** Read off the answer alone: it is wrong only as the last row, as the end of a sequence, or as a
      first row that starts beyond the pc. */
  lemma WrongAnswers(table: seq<Line>, pc: Word)
    requires AllReadable(table) && table != []
    ensures match Lookup(table, pc, 0)
      case None => false
      case Some(k) =>
        && k < |table|
        && (!Describes(table, k, pc) <==> k + 1 == |table| || table[k].endsSequence || (k == 0 && table[0].addr > pc))
  {
    LookupStops(table, pc, 0);
  }

  /** A row that cannot be read ends the table. */
  lemma {:induction false} UnreadableEnds(table: seq<Line>, pc: Word, m: nat, i: nat)
    requires i <= m < |table| && !table[m].readable
    ensures Lookup(table, pc, i) == Lookup(table[..m], pc, i)
    decreases m - i
  {
    if i < m {
      UnreadableEnds(table, pc, m, i + 1);
    }
  }

  /** In a table with ascending addresses the answer is right whenever some row is. */
  lemma AscendingIsRight(table: seq<Line>, pc: Word, k: nat)
    requires AllReadable(table) && Describes(table, k, pc)
    requires forall i, j :: 0 <= i <= j < |table| ==> table[i].addr <= table[j].addr
    ensures Lookup(table, pc, 0) == Some(k)
  {
    DescribingRowFoundIff(table, pc, k);
  }

  /** Two sequences, the later one at lower addresses: a pc in it is given the first row. */
  lemma OutOfOrderExample()
    ensures var table := [Line(100, "a.c", 1, false, true), Line(110, "a.c", 2, true, true),
                          Line(20, "b.c", 7, false, true), Line(30, "b.c", 8, true, true)];
      Describes(table, 2, 25) && Lookup(table, 25, 0) == Some(0)
  {
  }
}
