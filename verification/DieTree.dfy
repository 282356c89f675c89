/** The tree of debugging information entries, as libdwarf presents it: each DIE with its tag, its
    pc attributes and its children. A list of siblings is a sequence. */
module DieTree {
  import opened Words

  /** `VariableTag` stands for variables and constants, which dwarf2line lists as locals. */
  datatype Tag = Subprogram | InlinedSubroutine | UnitTag | VariableTag | ParameterTag | OtherTag

  /** DW_AT_high_pc is an address or, in the constant class, an offset from the low pc. */
  datatype HighPc = AbsolutePc(w: Word) | OffsetPc(w: Word)

  /** The codes a search step returns. */
  datatype Code = Ok | NoEntry | Err | NotThisCu | InThisCu | FoundSubprog

  /** `verdict` is what matchCUDie says of a unit DIE for the pc at hand. */
  datatype Die = Die(id: nat, tag: Tag, lowPc: Option<Word>, highPc: Option<HighPc>, verdict: Code, children: seq<Die>)

  /** getLowAndHighPc. */
  function Range(d: Die): Option<(Word, Word)> {
    if d.lowPc.None? || d.highPc.None? then None
    else match d.highPc.value
      case AbsolutePc(w) => Some((d.lowPc.value, w))
      case OffsetPc(w) => Some((d.lowPc.value, ToWord(d.lowPc.value + w)))
  }

  predicate IsFunction(d: Die) {
    d.tag.Subprogram? || d.tag.InlinedSubroutine?
  }

  predicate Contains(d: Die, pc: Word) {
    IsFunction(d) && Range(d).Some? && Range(d).value.0 <= pc < Range(d).value.1
  }

  /** Every DIE before its children, children before the next sibling. */
  function Preorder(forest: seq<Die>): seq<Die>
    decreases forest
  {
    if forest == [] then [] else [forest[0]] + Preorder(forest[0].children) + Preorder(forest[1..])
  }
}
