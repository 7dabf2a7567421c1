/** The parts of a terminal key event the editors read (crossterm's `KeyEvent`). */
module Terminal {
  /** Key codes; `Other` stands for every code the editors do not single out (Tab, F-keys, ...). */
  datatype KeyCode = Up | Down | Left | Right | Enter | Backspace | Delete | Esc | Char(c: char) | Other

  /** A key press with the two modifiers the editors test; any other modifier is ignored. */
  datatype KeyEvent = KeyEvent(code: KeyCode, alt: bool, ctrl: bool)
}

/**
 * `KeyboardEditable`: an editable text field that owns its cursor and maps
 * emacs-style key presses to text operations (src/storage/keyboard_edit.rs).
 */
module KeyboardEdit {
  import opened Wrappers
  import opened Rope
  import opened Editing
  import opened SpanEdit
  import opened TextScan
  import opened TextEdit
  import T = Terminal

  // ----- Where a field's cursor starts -----

  /** Before its trailing newline, the last real line of a text ends just before that newline. */
  lemma ClosedLastLine(t: Text)
    requires t != [] && IsNewline(t[|t| - 1])
    ensures Newlines(t) > 0
    ensures LineStart(t, Newlines(t) - 1) + LineLen(t, Newlines(t) - 1) == |t| - 1
  {
    var u := t[..|t| - 1];
    var l := Newlines(u);
    assert Newlines(t) == l + 1;
    var j := LastLineStart(u);
    assert LineStart(t, l) == LineStart(u, l) == j;
    AfterLastLineStart(u);
    var rest := t[j..];
    var n := |u| - j;
    assert rest[..n] == u[j..];
    RunToNewlineBound(rest, n);
    RunToNewlineSpec(rest, n + 1);
    assert IsNewline(rest[n]);
  }

  /**
   * `from_rope(r, true)`: the last line (`line_len` saturating at 0) at its
   * character count. After a trailing newline that is the end of the last
   * real line, one character before the end of the buffer, not the simulated
   * slot.
   */
  function EndCursor(t: Text): (p: Pos)
    ensures ValidPos(t, p)
    ensures t == [] ==> p == Pos(0, 0)
    ensures !HasSimulatedLine(t) ==> CharIndex(t, p) == |t|
    ensures t != [] && HasSimulatedLine(t) ==> CharIndex(t, p) == |t| - 1
  {
    var lineCount := LineCount(t);
    var line := if lineCount > 0 then lineCount - 1 else 0;
    if !HasSimulatedLine(t) then
      OpenLastLine(t);
      FromPair((line, LastLineChars(t)))
    else if t != [] then
      ClosedLastLine(t);
      FromPair((line, LastLineChars(t)))
    else
      FromPair((line, LastLineChars(t)))
  }

  // ----- The key table -----

  /**
   * `map_key_event`: arrows and Enter whatever the modifiers, then the emacs
   * shortcuts in the source's guard order, then any other character inserts
   * itself; every other key maps to nothing.
   */
  function MapKeyEvent(ev: T.KeyEvent): (r: Option<TextOp>)
    ensures r.None? <==> ev.code.Esc? || ev.code.Other?
    ensures r.Some? && r.value.InsertText? ==> ev.code.Enter? || ev.code.Char?
    ensures r.Some? && r.value.InsertText? ==> |r.value.text| == 1 && !ClosesLine(r.value.text)
  {
    var alt, ctrl := ev.alt, ev.ctrl;
    match ev.code
    case Up => Some(Move(MoveDir.Up))
    case Down => Some(Move(MoveDir.Down))
    case Left => Some(Move(Horizontal(Char, LeftRight.Left)))
    case Right => Some(Move(Horizontal(Char, LeftRight.Right)))
    case Enter => Some(InsertText("\n"))
    case Backspace => if alt then Some(TextOp.Delete(Word, LeftRight.Left)) else Some(TextOp.Delete(Char, LeftRight.Left))
    case Delete => Some(TextOp.Delete(Line, LeftRight.Right))
    case Char(c) =>
      if c == 'a' && ctrl then Some(Move(Horizontal(Line, LeftRight.Left)))
      else if c == 'b' && alt then Some(Move(Horizontal(Word, LeftRight.Left)))
      else if c == 'e' && ctrl then Some(Move(Horizontal(Line, LeftRight.Right)))
      else if c == 'f' && alt then Some(Move(Horizontal(Word, LeftRight.Right)))
      else if c == 'u' && ctrl then Some(TextOp.Delete(Line, LeftRight.Left))
      else if c == 'd' && alt then Some(TextOp.Delete(Word, LeftRight.Right))
      else if c == 'd' && ctrl then Some(TextOp.Delete(Char, LeftRight.Right))
      else if c == 'z' && ctrl then Some(Undo)
      else if c == 'r' && ctrl then Some(Redo)
      else Some(InsertText([c]))
    case Esc => None
    case Other => None
  }

  /** The arrows, Enter and Delete mean the same with or without Alt and Ctrl. */
  lemma PlainKeysIgnoreModifiers(code: T.KeyCode, alt: bool, ctrl: bool)
    requires code.Up? || code.Down? || code.Left? || code.Right? || code.Enter? || code.Delete?
    ensures MapKeyEvent(T.KeyEvent(code, alt, ctrl)) == MapKeyEvent(T.KeyEvent(code, false, false))
    ensures code.Up? || code.Down? ==> MapKeyEvent(T.KeyEvent(code, alt, ctrl)) == Some(Move(if code.Up? then MoveDir.Up else MoveDir.Down))
    ensures code.Left? || code.Right? ==>
      MapKeyEvent(T.KeyEvent(code, alt, ctrl)) == Some(Move(Horizontal(Char, if code.Left? then LeftRight.Left else LeftRight.Right)))
    ensures code.Enter? ==> MapKeyEvent(T.KeyEvent(code, alt, ctrl)) == Some(InsertText("\n"))
    ensures code.Delete? ==> MapKeyEvent(T.KeyEvent(code, alt, ctrl)) == Some(TextOp.Delete(Line, LeftRight.Right))
  {
  }

  /**
   * The word deletions win over the character deletions: Alt+Backspace is
   * tested before Backspace, and Alt+d before Ctrl+d, so Alt+Ctrl+d deletes a
   * word.
   */
  lemma WordDeletesFirst(ctrl: bool)
    ensures MapKeyEvent(T.KeyEvent(T.Backspace, true, ctrl)) == Some(TextOp.Delete(Word, LeftRight.Left))
    ensures MapKeyEvent(T.KeyEvent(T.Backspace, false, ctrl)) == Some(TextOp.Delete(Char, LeftRight.Left))
    ensures MapKeyEvent(T.KeyEvent(T.Char('d'), true, ctrl)) == Some(TextOp.Delete(Word, LeftRight.Right))
    ensures MapKeyEvent(T.KeyEvent(T.Char('d'), false, true)) == Some(TextOp.Delete(Char, LeftRight.Right))
  {
  }

  /** A character typed without Alt or Ctrl inserts itself. */
  lemma PlainCharInserts(c: char)
    ensures MapKeyEvent(T.KeyEvent(T.Char(c), false, false)) == Some(InsertText([c]))
  {
  }

  /** A character no shortcut uses inserts itself even with Alt or Ctrl held. */
  lemma UnboundCharInserts(c: char, alt: bool, ctrl: bool)
    requires c !in {'a', 'b', 'd', 'e', 'f', 'r', 'u', 'z'}
    ensures MapKeyEvent(T.KeyEvent(T.Char(c), alt, ctrl)) == Some(InsertText([c]))
  {
  }

  /**
   * The emacs motions: Ctrl+a and Ctrl+e go to the line's start and end,
   * Ctrl+u deletes back to the line start, and Alt+b and Alt+f move by a word,
   * whatever the other modifier says. A bound letter held with only the other
   * modifier is not a shortcut and inserts itself.
   */
  lemma ShortcutKeys(alt: bool, ctrl: bool)
    ensures MapKeyEvent(T.KeyEvent(T.Char('a'), alt, true)) == Some(Move(Horizontal(Line, LeftRight.Left)))
    ensures MapKeyEvent(T.KeyEvent(T.Char('e'), alt, true)) == Some(Move(Horizontal(Line, LeftRight.Right)))
    ensures MapKeyEvent(T.KeyEvent(T.Char('u'), alt, true)) == Some(TextOp.Delete(Line, LeftRight.Left))
    ensures MapKeyEvent(T.KeyEvent(T.Char('b'), true, ctrl)) == Some(Move(Horizontal(Word, LeftRight.Left)))
    ensures MapKeyEvent(T.KeyEvent(T.Char('f'), true, ctrl)) == Some(Move(Horizontal(Word, LeftRight.Right)))
    ensures forall c :: c in "aeuzr" ==> MapKeyEvent(T.KeyEvent(T.Char(c), true, false)) == Some(InsertText([c]))
    ensures forall c :: c in "bf" ==> MapKeyEvent(T.KeyEvent(T.Char(c), false, true)) == Some(InsertText([c]))
  {
  }

  /** The Ctrl shortcuts for undo and redo, whatever Alt says. */
  lemma UndoRedoKeys(alt: bool)
    ensures MapKeyEvent(T.KeyEvent(T.Char('z'), alt, true)) == Some(Undo)
    ensures MapKeyEvent(T.KeyEvent(T.Char('r'), alt, true)) == Some(Redo)
  {
  }

  // ----- The field -----

  /**
   * `KeyboardEditable`: the text with its log, and the cursor the field
   * owns. `ApplyTextOp` takes the cursor rule the handler follows:
   * `AsWritten` for the program, `Corrected` for the intended one.
   */
  class KeyboardEditable {
    const text: TextEditable
    var cursor: Pos

    /** The text and its log agree. */
    ghost predicate Valid()
      reads this, text, text.inner, text.log
    {
      text.Valid()
    }

    /** The cursor is a position of the buffer. */
    ghost predicate CursorValid()
      reads this, text, text.inner
    {
      ValidPos(text.inner.text, cursor)
    }

    /** `from_rope`: a fresh log, and the cursor at the start or at the end of the last line. */
    constructor FromRope(r: Text, cursorAtEnd: bool)
      ensures Valid() && CursorValid() && fresh(text) && fresh(text.inner) && fresh(text.log)
      ensures text.State() == EditState(r, [], 0)
      ensures cursor == if cursorAtEnd then EndCursor(r) else Pos(0, 0)
    {
      cursor := if cursorAtEnd then EndCursor(r) else FromPair((0, 0));
      text := new TextEditable(r);
    }

    /** `cursor`. */
    function Cursor(): Pos
      reads this
    {
      cursor
    }

    /**
     * `apply_text_op`: run the handler at the cursor; move the cursor only
     * when the handler returns a position, and pass its result on. A valid
     * cursor stays valid under the corrected rule, and under the program's
     * rule unless the edit carries a text ending in a newline after another
     * character.
     */
    method ApplyTextOp(cls: CharClasses, rule: CursorRule, op: TextOp) returns (result: EditResult)
      requires Valid()
      modifies this, text, text.inner, text.log
      ensures Valid()
      ensures text.State() == Handle(cls, rule, old(text.State()), old(cursor), op).0
      ensures result == Handle(cls, rule, old(text.State()), old(cursor), op).1
      ensures var moved := Handle(cls, rule, old(text.State()), old(cursor), op).2;
        cursor == if moved.Some? then moved.value else old(cursor)
      ensures old(CursorValid()) && (rule.Corrected? || !CarriesClosedLine(old(text.State()), op)) ==> CursorValid()
    {
      if CursorValid() {
        HandleCursorValid(cls, text.State(), cursor, op);
        HandleRulesAgree(cls, text.State(), cursor, op);
      }
      var newPos;
      result, newPos := text.HandleEditEvent(cls, rule, cursor, op);
      if newPos.Some? {
        cursor := newPos.value;
      }
    }
  }
}
