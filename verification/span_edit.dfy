/**
 * A rope addressed by `Pos{line, column}`: the mapping between positions and
 * byte offsets, the "simulated final newline" slot, and `apply_edit`, which
 * resolves every position before it changes the buffer and hands back the
 * edit together with the edit that undoes it.
 */
module SpanEdit {
  import opened Wrappers
  import opened Rope
  import opened Editing

  datatype EditOp = Insert(pos: Pos, text: Text) | Delete(start: Pos, end: Pos)

  datatype EditErr = OutOfBounds

  /** An applied edit and the edit that reverts it. */
  datatype LogEntry = LogEntry(edit: EditOp, undo: EditOp)

  // ----- Positions as character indices -----

  /**
   * The positions the cursor may take: a column up to the length of an
   * existing line, or column 0 of the empty line after a trailing newline.
   */
  predicate ValidPos(t: Text, p: Pos) {
    p.line <= Newlines(t) && p.column <= LineLen(t, p.line)
  }

  /** Index of the character in front of which `p` sits. */
  function CharIndex(t: Text, p: Pos): (k: nat)
    requires ValidPos(t, p)
    ensures k <= |t|
  {
    LineStart(t, p.line) + p.column
  }

  /** The position in front of character `k`; it depends only on `t[..k]`. */
  function PosOfCharIndex(t: Text, k: nat): (p: Pos)
    requires k <= |t|
    ensures ValidPos(t, p) && CharIndex(t, p) == k
  {
    PrefixLineStart(t, k);
    Pos(Newlines(t[..k]), k - LastLineStart(t[..k]))
  }

  /** The line holding character index `k` starts at the last line start of `t[..k]`. */
  lemma PrefixLineStart(t: Text, k: nat)
    requires k <= |t|
    ensures Newlines(t[..k]) <= Newlines(t)
    ensures LineStart(t, Newlines(t[..k])) == LastLineStart(t[..k])
    ensures k - LastLineStart(t[..k]) <= LineLen(t, Newlines(t[..k]))
  {
    var u := t[..k];
    var l, j := Newlines(u), LastLineStart(u);
    LastLineStartOfPrefix(u);
    assert u[..j] == t[..j];
    LineStartUnique(t, l, j);
    PrefixLineRun(t, k, j);
  }

  /** Between the last line start of `t[..k]` and `k` the line has no newline. */
  lemma PrefixLineRun(t: Text, k: nat, j: nat)
    requires k <= |t| && j == LastLineStart(t[..k])
    ensures k - j <= RunToNewline(t[j..])
  {
    AfterLastLineStart(t[..k]);
    assert t[..k][j..] == t[j..][..k - j];
    RunToNewlineBound(t[j..], k - j);
  }

  /** Positions and character indices are in one-to-one correspondence. */
  lemma PosOfCharIndexOfCharIndex(t: Text, p: Pos)
    requires ValidPos(t, p)
    ensures PosOfCharIndex(t, CharIndex(t, p)) == p
  {
    WithinLine(t, p.line, p.column);
  }

  /** Up to `c` characters into line `l`, no newline has been passed since the line start. */
  lemma WithinLine(t: Text, l: nat, c: nat)
    requires l <= Newlines(t) && c <= LineLen(t, l)
    ensures Newlines(t[..LineStart(t, l) + c]) == l
    ensures LastLineStart(t[..LineStart(t, l) + c]) == LineStart(t, l)
  {
    var j := LineStart(t, l);
    var k := j + c;
    LineStartFacts(t, l);
    RunToNewlineBound(t[j..], c);
    var u, v := t[..j], t[j..k];
    assert t[j..][..c] == v;
    assert t[..k] == u + v;
    NewlinesAppend(u, v);
    LastLineStartAppend(u, v);
  }

  lemma PosOfCharIndexPrefix(t: Text, u: Text, k: nat)
    requires k <= |t| && k <= |u| && t[..k] == u[..k]
    ensures PosOfCharIndex(t, k) == PosOfCharIndex(u, k)
  {
  }

  /** A position stays put, at the same character index, in any text that shares the characters before it. */
  lemma PrefixKeepsPos(t: Text, u: Text, p: Pos)
    requires ValidPos(t, p) && CharIndex(t, p) <= |u| && u[..CharIndex(t, p)] == t[..CharIndex(t, p)]
    ensures ValidPos(u, p) && CharIndex(u, p) == CharIndex(t, p)
  {
    PosOfCharIndexOfCharIndex(t, p);
    PosOfCharIndexPrefix(t, u, CharIndex(t, p));
  }

  // ----- Queries -----

  /**
   * `is_simulated_final_newline`: column 0 of line `line_len`, when the
   * buffer is empty or its last character is a newline.
   */
  function IsSimulatedFinalNewline(t: Text, p: Pos): (r: bool)
    ensures r ==> ValidPos(t, p) && CharIndex(t, p) == |t|
  {
    if HasSimulatedLine(t) then
      SimulatedLine(t);
      p.line == LineCount(t) && p.column == 0
    else false
  }

  /** The simulated slot is the valid position at the very end of the buffer, and only exists after a newline or in the empty buffer. */
  lemma SimulatedSlot(t: Text, p: Pos)
    ensures IsSimulatedFinalNewline(t, p) <==>
      ValidPos(t, p) && CharIndex(t, p) == |t| && p.line == Newlines(t) && HasSimulatedLine(t)
  {
    if HasSimulatedLine(t) {
      SimulatedLine(t);
    }
  }

  /** `get_line_char_len`: the character count of a line, 0 for the simulated line. */
  function GetLineCharLen(t: Text, l: nat): (r: Result<nat, EditErr>)
    ensures r.Ok? <==> l <= Newlines(t)
    ensures r.Ok? ==> r.value == LineLen(t, l)
  {
    if l == LineCount(t) && HasSimulatedLine(t) then
      SimulatedLine(t);
      Ok(0)
    else if l >= LineCount(t) then Err(OutOfBounds)
    else Ok(|LineText(t, l)|)
  }

  /**
   * `get_byte`: the byte offset of a position. It never clamps: any position
   * outside the buffer is `OutOfBounds`.
   */
  function GetByte(t: Text, p: Pos): (r: Result<nat, EditErr>)
    ensures r.Ok? <==> ValidPos(t, p)
    ensures r.Ok? ==> r.value == Bytes(t[..CharIndex(t, p)]) <= ByteLen(t)
    ensures r.Ok? ==> IsCharBoundary(t, r.value) && CharIndexOfByte(t, r.value) == CharIndex(t, p)
  {
    if IsSimulatedFinalNewline(t, p) then
      SimulatedSlot(t, p);
      LineByte(t, p.line, p.column);
      assert t[..|t|] == t;
      Ok(ByteLen(t))
    else if p.line >= LineCount(t) then
      PastLastLine(t, p);
      Err(OutOfBounds)
    else
      var lineStart := ByteOfLine(t, p.line);
      var len := |LineText(t, p.line)|;
      if p.column > len then Err(OutOfBounds)
      else
        LineByte(t, p.line, p.column);
        Ok(lineStart + Bytes(LineText(t, p.line)[..p.column]))
  }

  /** Below the last line only the simulated slot is a position. */
  lemma PastLastLine(t: Text, p: Pos)
    requires p.line >= LineCount(t) && !IsSimulatedFinalNewline(t, p)
    ensures !ValidPos(t, p)
  {
    if HasSimulatedLine(t) {
      SimulatedLine(t);
    }
  }

  /** The byte offset of column `c` of line `l`: the line's first byte plus the bytes of the columns before. */
  lemma LineByte(t: Text, l: nat, c: nat)
    requires l <= Newlines(t) && c <= LineLen(t, l)
    ensures var k := LineStart(t, l) + c;
      && ByteOfLine(t, l) + Bytes(LineText(t, l)[..c]) == Bytes(t[..k]) <= ByteLen(t)
      && IsCharBoundary(t, Bytes(t[..k])) && CharIndexOfByte(t, Bytes(t[..k])) == k
  {
    var j := LineStart(t, l);
    var k := j + c;
    assert LineText(t, l)[..c] == t[j..k];
    BytesSplit(t, j, k);
    assert t[..|t|] == t;
    BytesSplit(t, k, |t|);
    CharIndexOfPrefixBytes(t, k);
  }

  /** The byte range `b1..b2` of `t` read as characters; used for `byte_slice(..).chars()`. */
  function CharsBefore(t: Text, b: nat): Text
    requires IsCharBoundary(t, b)
  {
    t[..CharIndexOfByte(t, b)]
  }

  function CharsFrom(t: Text, b: nat): Text
    requires IsCharBoundary(t, b)
  {
    t[CharIndexOfByte(t, b)..]
  }

  /** A byte strictly inside the buffer: the facts `pos_from_byte` relies on. */
  lemma InteriorByte(t: Text, b: nat)
    requires IsCharBoundary(t, b) && b < ByteLen(t)
    ensures CharIndexOfByte(t, b) < |t|
    ensures LineOfByte(t, b) <= Newlines(t)
    ensures ByteOfLine(t, LineOfByte(t, b)) <= b
    ensures IsCharBoundary(LineText(t, LineOfByte(t, b)), b - ByteOfLine(t, LineOfByte(t, b)))
    ensures CharIndexOfByte(LineText(t, LineOfByte(t, b)), b - ByteOfLine(t, LineOfByte(t, b)))
      == CharIndexOfByte(t, b) - LastLineStart(t[..CharIndexOfByte(t, b)])
  {
    var k := CharIndexOfByte(t, b);
    assert k < |t| by {
      assert t[..|t|] == t;
      BytesPrefixMonotone(t, |t|, k);
    }
    var l := Newlines(t[..k]);
    var c := k - LastLineStart(t[..k]);
    assert l <= Newlines(t) && c <= LineLen(t, l) && LineStart(t, l) + c == k by {
      PrefixLineStart(t, k);
    }
    var line := LineText(t, l);
    assert ByteOfLine(t, l) + Bytes(line[..c]) == b by {
      LineByte(t, l, c);
    }
    CharIndexOfPrefixBytes(line, c);
  }

  /**
   * `pos_from_byte`: the position of a char boundary. Offsets past the end
   * are `OutOfBounds`; the end itself is the simulated slot after a trailing
   * newline and otherwise the end of the last line.
   */
  function PosFromByte(t: Text, b: nat): (r: Result<Pos, EditErr>)
    requires b <= ByteLen(t) ==> IsCharBoundary(t, b)
    ensures r.Err? <==> b > ByteLen(t)
    ensures r.Ok? ==> r.value == PosOfCharIndex(t, CharIndexOfByte(t, b))
  {
    if b > ByteLen(t) then Err(OutOfBounds)
    else if b == ByteLen(t) then
      assert t[..|t|] == t;
      CharIndexOfPrefixBytes(t, |t|);
      if t == [] || IsNewline(t[|t| - 1]) then
        Ok(Pos(LineCount(t), 0))
      else
        OpenLastLine(t);
        Ok(Pos(LineCount(t) - 1, LastLineChars(t)))
    else
      InteriorByte(t, b);
      var line := LineOfByte(t, b);
      var lineByteOffset := b - ByteOfLine(t, line);
      Ok(Pos(line, CharIndexOfByte(LineText(t, line), lineByteOffset)))
  }

  /** `get_byte` then `pos_from_byte` gives back every valid position. */
  lemma PosFromGetByte(t: Text, p: Pos)
    requires ValidPos(t, p)
    ensures GetByte(t, p).Ok?
    ensures PosFromByte(t, GetByte(t, p).value) == Ok(p)
  {
    PosOfCharIndexOfCharIndex(t, p);
  }

  /** `pos_from_byte` then `get_byte` gives back every char boundary of the buffer. */
  lemma GetBytePosFrom(t: Text, b: nat)
    requires b <= ByteLen(t) && IsCharBoundary(t, b)
    ensures PosFromByte(t, b).Ok?
    ensures GetByte(t, PosFromByte(t, b).value) == Ok(b)
  {
  }

  // ----- Cursor after an edit -----

  /**
   * `calc_cursor_pos`: the end of inserted text, or the start of a deleted
   * range. An insert holding newlines moves down by their count and lands
   * after the characters of the text's last line.
   */
  function CalcCursorPos(op: EditOp): (p: Pos)
    ensures op.Delete? ==> p == op.start
    ensures op.Insert? && Newlines(op.text) == 0 ==> p == op.pos.WithColumn(op.pos.column + |op.text|)
    ensures op.Insert? ==> p.line == op.pos.line + Newlines(op.text)
  {
    match op
    case Insert(cursor, s) =>
      var newLines := Newlines(s);
      var newColumn := if newLines == 0 then cursor.column + |s| else |s| - LastLineStart(s);
      Pos(cursor.line + newLines, newColumn)
    case Delete(start, _) => start
  }

  /** Characters of the last item of Rust's `str::lines()`: one trailing newline is not a line break. */
  function LastOfStrLines(s: Text): nat {
    var body := if s != [] && IsNewline(s[|s| - 1]) then s[..|s| - 1] else s;
    |body| - LastLineStart(body)
  }

  /** `calc_cursor_pos` exactly as written, with the column from `str::lines().last()`. */
  function CalcCursorPosAsWritten(op: EditOp): (p: Pos)
    ensures op.Delete? ==> p == op.start
    ensures op.Insert? ==> p.line == op.pos.line + Newlines(op.text)
  {
    match op
    case Insert(cursor, s) =>
      var newLines := Newlines(s);
      var newColumn := if newLines == 0 then cursor.column + |s| else LastOfStrLines(s);
      Pos(cursor.line + newLines, newColumn)
    case Delete(start, _) => start
  }

  /**
   * Undoing the deletion of "ab\n" from the start of the buffer re-inserts it,
   * and the cursor computed as written lands on column 2 of the simulated
   * line, which is not a position of the buffer; the corrected rule gives
   * the simulated slot itself.
   */
  lemma CalcCursorPosAsWrittenLeavesBuffer(t: Text, s: Text)
    requires t == [] && s == "ab\n"
    ensures Apply(t, Insert(Pos(0, 0), s)).Ok?
    ensures Apply(t, Insert(Pos(0, 0), s)).value.0 == s
    ensures CalcCursorPosAsWritten(Insert(Pos(0, 0), s)) == Pos(1, 2)
    ensures !ValidPos(s, CalcCursorPosAsWritten(Insert(Pos(0, 0), s)))
    ensures CalcCursorPos(Insert(Pos(0, 0), s)) == Pos(1, 0)
    ensures ValidPos(s, CalcCursorPos(Insert(Pos(0, 0), s)))
  {
    ReinsertAb();
    AsWrittenColumnAb();
    SlotAfterAb();
  }

  lemma ReinsertAb()
    ensures Apply([], Insert(Pos(0, 0), "ab\n")).Ok?
    ensures Apply([], Insert(Pos(0, 0), "ab\n")).value.0 == "ab\n"
  {
    SimulatedLine([]);
    var t: Text := [];
    assert t[..0] + "ab\n" + t[0..] == "ab\n";
  }

  lemma AsWrittenColumnAb()
    ensures CalcCursorPosAsWritten(Insert(Pos(0, 0), "ab\n")) == Pos(1, 2)
    ensures CalcCursorPos(Insert(Pos(0, 0), "ab\n")) == Pos(1, 0)
  {
    AbNewlineLines();
    var s: Text := "ab\n";
    assert s[..|s| - 1] == "ab";
  }

  lemma SlotAfterAb()
    ensures !ValidPos("ab\n", Pos(1, 2)) && ValidPos("ab\n", Pos(1, 0))
  {
    AbNewlineLines();
    SimulatedLine("ab\n");
  }

  /** In "ab\n", (0, 0) and (1, 0) are the positions before the first character and after the last. */
  lemma WholeOfAb()
    ensures ValidPos("ab\n", Pos(0, 0)) && CharIndex("ab\n", Pos(0, 0)) == 0
    ensures ValidPos("ab\n", Pos(1, 0)) && CharIndex("ab\n", Pos(1, 0)) == 3
  {
    var t: Text := "ab\n";
    AbNewlineLines();
    SimulatedLine(t);
    assert LineStart(t, 1) == |t| == 3;
    assert CharIndex(t, Pos(1, 0)) == LineStart(t, 1);
    assert t[..|t| - 1] == "ab";
    assert LineStart(t, 0) == LineStart("ab", 0) == 0;
  }

  lemma AbNewlineLines()
    ensures Newlines("ab\n") == 1 && LastLineStart("ab\n") == 3
    ensures Newlines("ab") == 0 && LastLineStart("ab") == 0
  {
    var s: Text := "ab\n";
    assert s[..2] == "ab";
    var ab: Text := "ab";
    assert ab[..1] == "a";
    var a: Text := "a";
    assert a[..0] == [];
  }

  /** `s` ends in a newline preceded by a character other than a newline: `str::lines()` drops its final line break. */
  predicate ClosesLine(s: Text) {
    |s| >= 2 && IsNewline(s[|s| - 1]) && !IsNewline(s[|s| - 2])
  }

  /** The two rules agree unless the inserted text ends in a newline preceded by a character other than a newline. */
  lemma CalcCursorPosAgreement(op: EditOp)
    requires op.Insert? ==> !ClosesLine(op.text)
    ensures CalcCursorPosAsWritten(op) == CalcCursorPos(op)
  {
    if op.Insert? && Newlines(op.text) > 0 {
      var s := op.text;
      if s != [] && IsNewline(s[|s| - 1]) {
        if |s| >= 2 {
          var body := s[..|s| - 1];
          assert body[..|body| - 1] == s[..|s| - 2];
        }
      } else {
        assert LastOfStrLines(s) == |s| - LastLineStart(s);
      }
    }
  }

  /** Which column rule `calc_cursor_pos` follows: the program's, or the corrected one. */
  datatype CursorRule = AsWritten | Corrected

  /** The cursor after an edit under `rule`. */
  function CursorAfter(rule: CursorRule, op: EditOp): Pos {
    if rule.AsWritten? then CalcCursorPosAsWritten(op) else CalcCursorPos(op)
  }

  /** An insert lands the cursor right after the inserted characters. */
  lemma {:induction false} InsertCursor(t: Text, pos: Pos, s: Text)
    requires ValidPos(t, pos)
    ensures var k := CharIndex(t, pos);
      var t' := t[..k] + s + t[k..];
      CalcCursorPos(Insert(pos, s)) == PosOfCharIndex(t', k + |s|)
  {
    var k := CharIndex(t, pos);
    var t' := t[..k] + s + t[k..];
    PosOfCharIndexOfCharIndex(t, pos);
    assert t'[..k + |s|] == t[..k] + s;
    NewlinesAppend(t[..k], s);
    LastLineStartAppend(t[..k], s);
  }

  // ----- Applying an edit -----

  /** crop's `delete(start..end)` panics unless `start <= end`. */
  predicate DeleteOrdered(t: Text, op: EditOp) {
    op.Delete? && ValidPos(t, op.start) && ValidPos(t, op.end) ==>
      CharIndex(t, op.start) <= CharIndex(t, op.end)
  }

  /** Every position the edit names lies in the buffer. */
  predicate Applicable(t: Text, op: EditOp) {
    match op
    case Insert(pos, _) => ValidPos(t, pos)
    case Delete(start, end) => ValidPos(t, start) && ValidPos(t, end)
  }

  /** The buffer after an edit, on characters: the text spliced in, or the range cut out. */
  function Edited(t: Text, op: EditOp): Text
    requires DeleteOrdered(t, op) && Applicable(t, op)
  {
    match op
    case Insert(pos, s) =>
      var k := CharIndex(t, pos);
      t[..k] + s + t[k..]
    case Delete(start, end) =>
      t[..CharIndex(t, start)] + t[CharIndex(t, end)..]
  }

  /**
   * The inverse logged with an edit: delete the inserted range, or insert
   * the removed text at the start of the removed range.
   */
  function Inverse(t: Text, op: EditOp): EditOp
    requires DeleteOrdered(t, op) && Applicable(t, op)
  {
    match op
    case Insert(pos, _) => Delete(pos, CalcCursorPos(op))
    case Delete(start, end) => Insert(start, t[CharIndex(t, start)..CharIndex(t, end)])
  }

  /**
   * `apply_edit`: resolve every position to a byte offset, then change the
   * rope. It fails exactly when a position lies outside the buffer, and the
   * byte-level edit does to the characters what `Edited` says.
   */
  function Apply(t: Text, op: EditOp): (r: Result<(Text, LogEntry), EditErr>)
    requires DeleteOrdered(t, op)
    ensures r.Ok? <==> Applicable(t, op)
    ensures r.Ok? ==> r.value == (Edited(t, op), LogEntry(op, Inverse(t, op)))
  {
    match op
    case Insert(pos, s) =>
      var b :- GetByte(t, pos);
      Ok((RopeInsert(t, b, s), LogEntry(op, Delete(pos, CalcCursorPos(op)))))
    case Delete(start, end) =>
      var b1 :- GetByte(t, start);
      var b2 :- GetByte(t, end);
      BytesPrefixMonotone(t, CharIndex(t, start), CharIndex(t, end));
      Ok((RopeDelete(t, b1, b2), LogEntry(op, Insert(start, RopeSlice(t, b1, b2)))))
  }

  /** Applying the inverse to the edited buffer succeeds and gives the buffer back. */
  lemma InverseRestores(t: Text, op: EditOp)
    requires DeleteOrdered(t, op) && Applicable(t, op)
    ensures var t', u := Edited(t, op), Inverse(t, op);
      DeleteOrdered(t', u) && Applicable(t', u) && Edited(t', u) == t
  {
    if op.Insert? {
      InsertInverse(t, op.pos, op.text);
    } else {
      DeleteInverse(t, op.start, op.end);
    }
  }

  lemma InsertInverse(t: Text, pos: Pos, s: Text)
    requires ValidPos(t, pos)
    ensures var t', u := Edited(t, Insert(pos, s)), Inverse(t, Insert(pos, s));
      DeleteOrdered(t', u) && Applicable(t', u) && Edited(t', u) == t
  {
    var k := CharIndex(t, pos);
    var t' := t[..k] + s + t[k..];
    assert t' == Edited(t, Insert(pos, s));
    SpliceOut(t, k, s);
    PrefixKeepsPos(t, t', pos);
    InsertCursor(t, pos, s);
    var u := Delete(pos, CalcCursorPos(Insert(pos, s)));
    assert u == Inverse(t, Insert(pos, s));
    assert Edited(t', u) == t'[..k] + t'[k + |s|..];
  }

  /** Splicing `s` into `t` at `k` keeps the first `k` characters, and cutting it out again gives `t`. */
  lemma SpliceOut(t: Text, k: nat, s: Text)
    requires k <= |t|
    ensures var t' := t[..k] + s + t[k..];
      t'[..k] == t[..k] && t'[..k] + t'[k + |s|..] == t
  {
    var t' := t[..k] + s + t[k..];
    assert t'[..k] == t[..k] && t'[k + |s|..] == t[k..];
    assert t[..k] + t[k..] == t;
  }

  lemma DeleteInverse(t: Text, start: Pos, end: Pos)
    requires ValidPos(t, start) && ValidPos(t, end) && CharIndex(t, start) <= CharIndex(t, end)
    ensures var t', u := Edited(t, Delete(start, end)), Inverse(t, Delete(start, end));
      DeleteOrdered(t', u) && Applicable(t', u) && Edited(t', u) == t
  {
    var k1, k2 := CharIndex(t, start), CharIndex(t, end);
    var t' := t[..k1] + t[k2..];
    assert t' == Edited(t, Delete(start, end));
    DeleteStartKept(t, start, end);
    var u := Insert(start, t[k1..k2]);
    assert u == Inverse(t, Delete(start, end));
    SpliceBack(t, k1, k2);
    assert Edited(t', u) == t'[..k1] + t[k1..k2] + t'[k1..];
  }

  /** Cutting `k1..k2` out of `t` and putting it back at `k1` gives `t`. */
  lemma SpliceBack(t: Text, k1: nat, k2: nat)
    requires k1 <= k2 <= |t|
    ensures var t' := t[..k1] + t[k2..];
      t'[..k1] + t[k1..k2] + t'[k1..] == t
  {
    var t' := t[..k1] + t[k2..];
    assert t'[..k1] == t[..k1] && t'[k1..] == t[k2..];
    assert t[..k1] + t[k1..k2] + t[k2..] == t;
  }

  /** Cutting a range out leaves its start where it was. */
  lemma DeleteStartKept(t: Text, start: Pos, end: Pos)
    requires ValidPos(t, start) && ValidPos(t, end) && CharIndex(t, start) <= CharIndex(t, end)
    ensures var t' := Edited(t, Delete(start, end));
      ValidPos(t', start) && CharIndex(t', start) == CharIndex(t, start)
  {
    var k1 := CharIndex(t, start);
    var t' := t[..k1] + t[CharIndex(t, end)..];
    assert t'[..k1] == t[..k1];
    PrefixKeepsPos(t, t', start);
  }

  /** After an edit the cursor `calc_cursor_pos` gives is a valid position of the new buffer. */
  lemma ApplyCursorValid(t: Text, op: EditOp)
    requires DeleteOrdered(t, op) && Applicable(t, op)
    ensures ValidPos(Edited(t, op), CalcCursorPos(op))
    ensures op.Insert? ==> CharIndex(Edited(t, op), CalcCursorPos(op)) == CharIndex(t, op.pos) + |op.text|
    ensures op.Delete? ==> CharIndex(Edited(t, op), CalcCursorPos(op)) == CharIndex(t, op.start)
  {
    match op
    case Insert(pos, s) =>
      InsertCursor(t, pos, s);
    case Delete(start, end) =>
      DeleteStartKept(t, start, end);
  }

  /** Undoing a deletion puts the cursor at the end of the range that was removed. */
  lemma DeleteUndoCursor(t: Text, start: Pos, end: Pos)
    requires ValidPos(t, start) && ValidPos(t, end) && CharIndex(t, start) <= CharIndex(t, end)
    ensures var t', u := Edited(t, Delete(start, end)), Inverse(t, Delete(start, end));
      DeleteOrdered(t', u) && Applicable(t', u) && CalcCursorPos(u) == end
  {
    var k1, k2 := CharIndex(t, start), CharIndex(t, end);
    var t', u := Edited(t, Delete(start, end)), Inverse(t, Delete(start, end));
    DeleteInverse(t, start, end);
    DeleteStartKept(t, start, end);
    assert u == Insert(start, t[k1..k2]);
    ApplyCursorValid(t', u);
    var c := CalcCursorPos(u);
    assert Edited(t', u) == t;
    assert CharIndex(t, c) == k1 + (k2 - k1);
    PosOfCharIndexOfCharIndex(t, c);
    PosOfCharIndexOfCharIndex(t, end);
  }

  /** `SpanEditable`: the rope the editor owns. */
  class SpanEditable {
    var text: Text

    constructor (r: Text)
      ensures text == r
    {
      text := r;
    }

    /** `apply_edit`: on `OutOfBounds` the rope is left as it was. */
    method ApplyEdit(op: EditOp) returns (r: Result<LogEntry, EditErr>)
      requires DeleteOrdered(text, op)
      modifies this
      ensures r.Ok? <==> Applicable(old(text), op)
      ensures r.Ok? ==> text == Edited(old(text), op) && r.value == LogEntry(op, Inverse(old(text), op))
      ensures r.Err? ==> text == old(text)
    {
      var a := Apply(text, op);
      if a.Err? {
        return Err(a.error);
      }
      text := a.value.0;
      r := Ok(a.value.1);
    }
  }
}
