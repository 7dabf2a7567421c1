/** Cursor positions and the outcome flag of an edit (src/storage/editing.rs). */
module Editing {

  /** `Dirty` means the text changed and must be written back; `Noop` means nothing changed. */
  datatype EditResult = Noop | Dirty

  /**
   * A cursor address. `column` counts characters (Unicode scalar values)
   * within the addressed line, not bytes. `Pos` is a plain value: the
   * builders below return a new position and leave the receiver alone.
   */
  datatype Pos = Pos(line: nat, column: nat)
  {
    /** Same column, on line `l`. */
    function WithLine(l: nat): (p: Pos)
      ensures p.line == l && p.column == column
      ensures p == this <==> l == line
    {
      Pos(l, column)
    }

    /** Same line, at column `c`. */
    function WithColumn(c: nat): (p: Pos)
      ensures p.line == line && p.column == c
      ensures p == this <==> c == column
    {
      Pos(line, c)
    }
  }

  /** The `(line, column)` tuple conversion. */
  function FromPair(lc: (nat, nat)): (p: Pos)
    ensures p.line == lc.0 && p.column == lc.1
  {
    Pos(lc.0, lc.1)
  }

  /** Setting both coordinates with the builders, in either order, is the tuple conversion. */
  lemma BuildersCompose(p: Pos, l: nat, c: nat)
    ensures p.WithLine(l).WithColumn(c) == FromPair((l, c))
    ensures p.WithColumn(c).WithLine(l) == FromPair((l, c))
    ensures FromPair((p.line, p.column)) == p
  {
  }
}
