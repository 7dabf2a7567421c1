/**
 * `TextEditable`: a rope with a linear undo log, driven one `TextOp` at a
 * time. `Handle` is the whole event handler on values; the `Log` and
 * `TextEditable` classes carry it out in place and are proved to agree with it.
 */
module TextEdit {
  import opened Wrappers
  import opened Rope
  import opened Editing
  import opened SpanEdit
  import opened TextScan

  datatype MoveDir = Horizontal(unit: Unit, dir: LeftRight) | Up | Down

  datatype TextOp =
    | Move(move: MoveDir)
    | InsertText(text: Text)
    | Delete(unit: Unit, dir: LeftRight)
    | Redo
    | Undo

  /** A field's buffer and undo log: `entries` and `next_index`. */
  datatype EditState = EditState(text: Text, entries: seq<LogEntry>, next: nat)

  function Min(a: nat, b: nat): nat {
    if a <= b then a else b
  }

  // ----- Moves -----

  /**
   * Up and Down move one line and clamp the column to the new line's
   * length; Up on line 0 and Down on line `line_len` keep the cursor.
   */
  function VerticalMove(t: Text, cursor: Pos, dir: MoveDir): (r: Result<Pos, EditErr>)
    requires !dir.Horizontal?
    ensures r.Ok? && r.value != cursor ==> ValidPos(t, r.value)
  {
    if dir.Up? then
      if cursor.line > 0 then
        var line := cursor.line - 1;
        var charLen :- GetLineCharLen(t, line);
        Ok(cursor.WithLine(line).WithColumn(Min(cursor.column, charLen)))
      else Ok(cursor)
    else
      if cursor.line < LineCount(t) then
        var line := cursor.line + 1;
        var charLen :- GetLineCharLen(t, line);
        Ok(cursor.WithLine(line).WithColumn(Min(cursor.column, charLen)))
      else Ok(cursor)
  }

  /**
   * From a valid position, Up and Down never fail except for Down from the
   * last line of a buffer that does not end in a newline, where the line
   * below does not exist.
   */
  lemma VerticalMoveValid(t: Text, cursor: Pos, dir: MoveDir)
    requires ValidPos(t, cursor) && !dir.Horizontal?
    ensures var r := VerticalMove(t, cursor, dir);
      && (r.Err? <==> dir.Down? && cursor.line == Newlines(t) && !HasSimulatedLine(t))
      && (r.Ok? ==> ValidPos(t, r.value))
      && (dir.Up? && cursor.line == 0 ==> r == Ok(cursor))
      && (dir.Up? && cursor.line > 0 ==>
            r == Ok(Pos(cursor.line - 1, Min(cursor.column, LineLen(t, cursor.line - 1)))))
      && (dir.Down? && cursor.line < Newlines(t) ==>
            r == Ok(Pos(cursor.line + 1, Min(cursor.column, LineLen(t, cursor.line + 1)))))
      && (dir.Down? && cursor.line == Newlines(t) && HasSimulatedLine(t) ==> r == Ok(cursor))
  {
  }

  // ----- The event handler -----

  /** `push_entry`: drop the redo branch, append, and point past the new entry. */
  function Commit(s: EditState, t': Text, entry: LogEntry): (s': EditState)
    requires s.next <= |s.entries|
    ensures s'.next == |s'.entries| == s.next + 1
    ensures s'.entries[..s.next] == s.entries[..s.next] && s'.entries[s.next] == entry
  {
    EditState(t', s.entries[..s.next] + [entry], s.next + 1)
  }

  /** The log's next replay steps are orderly deletions, so replaying them cannot panic. */
  predicate ReplayOrdered(s: EditState) {
    && s.next <= |s.entries|
    && (s.next > 0 ==> DeleteOrdered(s.text, s.entries[s.next - 1].undo))
    && (s.next < |s.entries| ==> DeleteOrdered(s.text, s.entries[s.next].edit))
  }

  /**
   * Apply a fresh edit and log it with its inverse. `apply_edit` fails
   * exactly when the edit does not apply (see `SpanEdit.Apply`), and then
   * nothing changes.
   */
  function Record(rule: CursorRule, s: EditState, editOp: EditOp): (r: (EditState, EditResult, Option<Pos>))
    requires s.next <= |s.entries| && DeleteOrdered(s.text, editOp)
    ensures r.1 == Dirty <==> Applicable(s.text, editOp)
    ensures r.1 == Noop ==> r == (s, Noop, None)
    ensures r.1 == Dirty ==>
      && r.0.text == Edited(s.text, editOp) && r.0.next == |r.0.entries| == s.next + 1
      && r.0.entries[s.next].edit == editOp && r.2 == Some(CursorAfter(rule, editOp))
  {
    if Applicable(s.text, editOp) then
      (Commit(s, Edited(s.text, editOp), LogEntry(editOp, Inverse(s.text, editOp))), Dirty, Some(CursorAfter(rule, editOp)))
    else (s, Noop, None)
  }

  /** Replay an edit from the log; the log has already moved. */
  function Replay(rule: CursorRule, s: EditState, editOp: EditOp): (r: (EditState, EditResult, Option<Pos>))
    requires DeleteOrdered(s.text, editOp)
    ensures r.1 == Dirty <==> Applicable(s.text, editOp)
    ensures r.0.entries == s.entries && r.0.next == s.next
    ensures r.1 == Noop ==> r == (s, Noop, None)
    ensures r.1 == Dirty ==> r.0.text == Edited(s.text, editOp) && r.2 == Some(CursorAfter(rule, editOp))
  {
    if Applicable(s.text, editOp) then (s.(text := Edited(s.text, editOp)), Dirty, Some(CursorAfter(rule, editOp)))
    else (s, Noop, None)
  }

  /** The cursor after a move, or nothing when the move fails. */
  function MoveCursor(cls: CharClasses, t: Text, cursor: Pos, m: MoveDir): (r: Option<Pos>)
    ensures m.Horizontal? ==> (r.Some? <==> ValidPos(t, cursor))
  {
    var moved := if m.Horizontal? then SaturatingOffset(cls, t, cursor, m.unit, m.dir) else VerticalMove(t, cursor, m);
    if moved.Err? then None else Some(moved.value)
  }

  /** The deletion between the cursor and the position one unit away, in text order. */
  function DeleteRange(cls: CharClasses, t: Text, cursor: Pos, unit: Unit, dir: LeftRight): (r: Result<EditOp, EditErr>)
    ensures r.Ok? <==> ValidPos(t, cursor)
    ensures r.Ok? ==> r.value.Delete? && DeleteOrdered(t, r.value)
    ensures r.Ok? && dir.Left? ==> r.value.end == cursor
    ensures r.Ok? && dir.Right? ==> r.value.start == cursor
  {
    var other :- SaturatingOffset(cls, t, cursor, unit, dir);
    var (start, end) := if dir.Left? then (other, cursor) else (cursor, other);
    Ok(EditOp.Delete(start, end))
  }

  /**
   * `handle_edit_event`: the new state, the result and the new cursor. Every
   * failure is `(Noop, None)`; moves never touch buffer or log.
   */
  function Handle(cls: CharClasses, rule: CursorRule, s: EditState, cursor: Pos, op: TextOp): (r: (EditState, EditResult, Option<Pos>))
    requires ReplayOrdered(s)
    ensures r.0.next <= |r.0.entries|
    ensures r.2.None? ==> r.0.text == s.text && r.1 == Noop
    ensures op.Move? ==> r.0 == s && r.1 == Noop
    ensures r.1 == Noop && !op.Undo? && !op.Redo? ==> r.0 == s
  {
    match op
    case Move(m) => (s, Noop, MoveCursor(cls, s.text, cursor, m))
    case InsertText(str) => Record(rule, s, Insert(cursor, str))
    case Delete(unit, dir) =>
      (match DeleteRange(cls, s.text, cursor, unit, dir)
       case Err(_) => (s, Noop, None)
       case Ok(editOp) => Record(rule, s, editOp))
    case Redo =>
      if s.next < |s.entries| then Replay(rule, s.(next := s.next + 1), s.entries[s.next].edit)
      else (s, Noop, None)
    case Undo =>
      if s.next > 0 then Replay(rule, s.(next := s.next - 1), s.entries[s.next - 1].undo)
      else (s, Noop, None)
  }

  // ----- Log consistency -----

  /** `forward` can be applied to `t`, and `back` applied afterwards gives `t` back. */
  predicate Reverts(t: Text, forward: EditOp, back: EditOp) {
    && DeleteOrdered(t, forward) && Applicable(t, forward)
    && var t' := Edited(t, forward);
    && DeleteOrdered(t', back) && Applicable(t', back)
    && Edited(t', back) == t
  }

  /** Entry `e` leads from buffer `before` to buffer `after`, and its undo leads back. */
  predicate Step(before: Text, e: LogEntry, after: Text) {
    Reverts(before, e.edit, e.undo) && Edited(before, e.edit) == after
  }

  /**
   * `texts` is the buffer history the log describes: `texts[i]` is the buffer
   * with the first `i` entries in effect, each entry leads from one buffer to
   * the next, and the current buffer is the one at `next`.
   */
  predicate Tracks(s: EditState, texts: seq<Text>) {
    && |texts| == |s.entries| + 1
    && s.next <= |s.entries|
    && texts[s.next] == s.text
    && forall i {:trigger s.entries[i]} :: 0 <= i < |s.entries| ==> Step(texts[i], s.entries[i], texts[i + 1])
  }

  /** A fresh field: no entries, and the history is the buffer alone. */
  lemma FreshTracks(t: Text)
    ensures Tracks(EditState(t, [], 0), [t])
  {
  }

  /** A log that tracks a history can replay its next undo and redo steps without panicking. */
  lemma TracksReplayOrdered(s: EditState, texts: seq<Text>)
    requires Tracks(s, texts)
    ensures ReplayOrdered(s)
  {
    if s.next > 0 {
      TracksStep(s, texts, s.next - 1);
      StepBack(texts[s.next - 1], s.entries[s.next - 1], texts[s.next]);
    }
    if s.next < |s.entries| {
      TracksStep(s, texts, s.next);
    }
  }

  /** A reverting pair read the other way round: from the edited text, `back` then `forward`. */
  lemma RevertsBack(t: Text, forward: EditOp, back: EditOp)
    requires Reverts(t, forward, back)
    ensures Reverts(Edited(t, forward), back, forward) && Edited(Edited(t, forward), back) == t
  {
  }

  /** Each entry of a tracking log steps between neighbouring buffers of the history. */
  lemma TracksStep(s: EditState, texts: seq<Text>, i: nat)
    requires Tracks(s, texts) && i < |s.entries|
    ensures Step(texts[i], s.entries[i], texts[i + 1])
  {
  }

  /** Moving the index to any buffer of the history keeps the log tracking it. */
  lemma TracksMove(s: EditState, texts: seq<Text>, k: nat)
    requires Tracks(s, texts) && k <= |s.entries|
    ensures Tracks(EditState(texts[k], s.entries, k), texts)
  {
  }

  /** An entry's undo applies to the buffer it led to and gives the buffer before it. */
  lemma StepBack(before: Text, e: LogEntry, after: Text)
    requires Step(before, e, after)
    ensures DeleteOrdered(after, e.undo) && Applicable(after, e.undo) && Edited(after, e.undo) == before
  {
  }

  /** The undo step applies, leads to the previous buffer of the history, and keeps tracking it. */
  lemma UndoTracks(s: EditState, texts: seq<Text>)
    requires Tracks(s, texts) && s.next > 0
    ensures var u := s.entries[s.next - 1].undo;
      && DeleteOrdered(s.text, u) && Applicable(s.text, u)
      && Edited(s.text, u) == texts[s.next - 1]
      && Tracks(EditState(texts[s.next - 1], s.entries, s.next - 1), texts)
  {
    var i := s.next - 1;
    var e := s.entries[i];
    assert i + 1 == s.next;
    TracksStep(s, texts, i);
    StepBack(texts[i], e, s.text);
    TracksMove(s, texts, i);
  }

  /** The redo step applies, leads to the next buffer of the history, and keeps tracking it. */
  lemma RedoTracks(s: EditState, texts: seq<Text>)
    requires Tracks(s, texts) && s.next < |s.entries|
    ensures var e := s.entries[s.next].edit;
      && DeleteOrdered(s.text, e) && Applicable(s.text, e)
      && Edited(s.text, e) == texts[s.next + 1]
      && Tracks(EditState(texts[s.next + 1], s.entries, s.next + 1), texts)
  {
    TracksStep(s, texts, s.next);
    TracksMove(s, texts, s.next + 1);
  }

  /** Appending an entry that steps from the buffer cuts the history at the buffer and extends it. */
  lemma CommitStepTracks(s: EditState, texts: seq<Text>, entry: LogEntry, t': Text)
    requires Tracks(s, texts) && Step(s.text, entry, t')
    ensures Tracks(Commit(s, t', entry), texts[..s.next + 1] + [t'])
  {
    var s' := Commit(s, t', entry);
    var texts' := texts[..s.next + 1] + [t'];
    forall i | 0 <= i < |s'.entries|
      ensures Step(texts'[i], s'.entries[i], texts'[i + 1])
    {
      if i < s.next {
        assert s'.entries[i] == s'.entries[..s.next][i] == s.entries[i];
        assert texts'[i] == texts[i] && texts'[i + 1] == texts[i + 1];
      } else {
        assert texts'[i] == s.text && texts'[i + 1] == t' && s'.entries[i] == entry;
      }
    }
  }

  /** Logging a fresh edit cuts the history at the buffer and appends the edited buffer. */
  lemma CommitTracks(s: EditState, texts: seq<Text>, editOp: EditOp)
    requires Tracks(s, texts) && DeleteOrdered(s.text, editOp) && Applicable(s.text, editOp)
    ensures var t' := Edited(s.text, editOp);
      Tracks(Commit(s, t', LogEntry(editOp, Inverse(s.text, editOp))), texts[..s.next + 1] + [t'])
  {
    InverseRestores(s.text, editOp);
    CommitStepTracks(s, texts, LogEntry(editOp, Inverse(s.text, editOp)), Edited(s.text, editOp));
  }

  /** The history after `Handle`: a logged edit replaces the redo branch by the new buffer; nothing else changes it. */
  function HandleHistory(s: EditState, texts: seq<Text>, op: TextOp, result: EditResult, after: Text): seq<Text>
    requires s.next < |texts|
  {
    if (op.InsertText? || op.Delete?) && result == Dirty then texts[..s.next + 1] + [after] else texts
  }

  lemma RecordTracks(rule: CursorRule, s: EditState, texts: seq<Text>, editOp: EditOp)
    requires Tracks(s, texts) && DeleteOrdered(s.text, editOp)
    ensures var r := Record(rule, s, editOp);
      Tracks(r.0, if r.1 == Dirty then texts[..s.next + 1] + [r.0.text] else texts)
  {
    if Applicable(s.text, editOp) {
      CommitTracks(s, texts, editOp);
    }
  }

  /** Every event keeps the log tracking the buffer history. */
  lemma HandleTracks(cls: CharClasses, rule: CursorRule, s: EditState, texts: seq<Text>, cursor: Pos, op: TextOp)
    requires Tracks(s, texts)
    ensures ReplayOrdered(s)
    ensures var r := Handle(cls, rule, s, cursor, op);
      Tracks(r.0, HandleHistory(s, texts, op, r.1, r.0.text))
  {
    TracksReplayOrdered(s, texts);
    match op
    case Move(_) =>
    case InsertText(str) =>
      RecordTracks(rule, s, texts, Insert(cursor, str));
    case Delete(unit, dir) =>
      var d := DeleteRange(cls, s.text, cursor, unit, dir);
      if d.Ok? {
        RecordTracks(rule, s, texts, d.value);
      }
    case Redo =>
      if s.next < |s.entries| {
        RedoSucceeds(cls, rule, s, texts, cursor);
      }
    case Undo =>
      if s.next > 0 {
        UndoSucceeds(cls, rule, s, texts, cursor);
      }
  }

  /** With a tracking log, Undo with something to undo succeeds and restores the previous buffer of the history. */
  lemma UndoSucceeds(cls: CharClasses, rule: CursorRule, s: EditState, texts: seq<Text>, cursor: Pos)
    requires Tracks(s, texts) && s.next > 0
    ensures ReplayOrdered(s)
    ensures var e := s.entries[s.next - 1].undo;
      Handle(cls, rule, s, cursor, Undo) == (EditState(texts[s.next - 1], s.entries, s.next - 1), Dirty, Some(CursorAfter(rule, e)))
    ensures Tracks(Handle(cls, rule, s, cursor, Undo).0, texts)
  {
    TracksReplayOrdered(s, texts);
    UndoTracks(s, texts);
    UndoApplies(cls, rule, s, cursor);
  }

  /** With a tracking log, Redo with something to redo succeeds and restores the next buffer of the history. */
  lemma RedoSucceeds(cls: CharClasses, rule: CursorRule, s: EditState, texts: seq<Text>, cursor: Pos)
    requires Tracks(s, texts) && s.next < |s.entries|
    ensures ReplayOrdered(s)
    ensures var e := s.entries[s.next].edit;
      Handle(cls, rule, s, cursor, Redo) == (EditState(texts[s.next + 1], s.entries, s.next + 1), Dirty, Some(CursorAfter(rule, e)))
    ensures Tracks(Handle(cls, rule, s, cursor, Redo).0, texts)
  {
    TracksReplayOrdered(s, texts);
    RedoTracks(s, texts);
    RedoApplies(cls, rule, s, cursor);
  }

  /** Undo then Redo gives back the state the log started from. */
  lemma UndoThenRedo(cls: CharClasses, rule: CursorRule, s: EditState, texts: seq<Text>, c1: Pos, c2: Pos)
    requires Tracks(s, texts) && s.next > 0
    ensures ReplayOrdered(s) && ReplayOrdered(Handle(cls, rule, s, c1, Undo).0)
    ensures Handle(cls, rule, Handle(cls, rule, s, c1, Undo).0, c2, Redo).0 == s
  {
    UndoSucceeds(cls, rule, s, texts, c1);
    RedoSucceeds(cls, rule, Handle(cls, rule, s, c1, Undo).0, texts, c2);
  }

  /** Redo then Undo gives back the state the log started from. */
  lemma RedoThenUndo(cls: CharClasses, rule: CursorRule, s: EditState, texts: seq<Text>, c1: Pos, c2: Pos)
    requires Tracks(s, texts) && s.next < |s.entries|
    ensures ReplayOrdered(s) && ReplayOrdered(Handle(cls, rule, s, c1, Redo).0)
    ensures Handle(cls, rule, Handle(cls, rule, s, c1, Redo).0, c2, Undo).0 == s
  {
    RedoSucceeds(cls, rule, s, texts, c1);
    UndoSucceeds(cls, rule, Handle(cls, rule, s, c1, Redo).0, texts, c2);
  }
  /**
   * The log moves before the replay runs: a replay that fails leaves the log
   * one step further although the buffer did not change.
   */
  lemma UndoIsNotAtomic(cls: CharClasses, rule: CursorRule, s: EditState, cursor: Pos)
    requires ReplayOrdered(s) && s.next > 0 && !Applicable(s.text, s.entries[s.next - 1].undo)
    ensures Handle(cls, rule, s, cursor, Undo) == (s.(next := s.next - 1), Noop, None)
  {
  }

  /** Undo and Redo on a fresh field, with an empty log, change nothing. */
  lemma FreshFieldNoReplay(cls: CharClasses, rule: CursorRule, t: Text, cursor: Pos)
    ensures Handle(cls, rule, EditState(t, [], 0), cursor, Undo) == (EditState(t, [], 0), Noop, None)
    ensures Handle(cls, rule, EditState(t, [], 0), cursor, Redo) == (EditState(t, [], 0), Noop, None)
  {
  }

  /**
   * The edit `op` applies carries a text ending in a newline after another
   * character, the one case where the two cursor rules differ.
   */
  predicate CarriesClosedLine(s: EditState, op: TextOp) {
    match op
    case InsertText(str) => ClosesLine(str)
    case Undo => 0 < s.next <= |s.entries| && s.entries[s.next - 1].undo.Insert? && ClosesLine(s.entries[s.next - 1].undo.text)
    case Redo => s.next < |s.entries| && s.entries[s.next].edit.Insert? && ClosesLine(s.entries[s.next].edit.text)
    case _ => false
  }

  /**
   * The program's handler and the corrected one change buffer and log alike
   * and fail alike; their cursors differ only on an edit carrying a text
   * that ends in a newline after another character.
   */
  lemma HandleRulesAgree(cls: CharClasses, s: EditState, cursor: Pos, op: TextOp)
    requires ReplayOrdered(s)
    ensures var a, c := Handle(cls, AsWritten, s, cursor, op), Handle(cls, Corrected, s, cursor, op);
      && a.0 == c.0 && a.1 == c.1 && (a.2.Some? <==> c.2.Some?)
      && (!CarriesClosedLine(s, op) ==> a.2 == c.2)
  {
    if !CarriesClosedLine(s, op) {
      match op
      case Move(_) =>
      case InsertText(str) =>
        CalcCursorPosAgreement(Insert(cursor, str));
      case Delete(unit, dir) =>
      case Redo =>
        if s.next < |s.entries| {
          CalcCursorPosAgreement(s.entries[s.next].edit);
        }
      case Undo =>
        if s.next > 0 {
          CalcCursorPosAgreement(s.entries[s.next - 1].undo);
        }
    }
  }

  /**
   * Deleting the whole of "ab\n", as Alt+Backspace does from (1, 0), then
   * undoing it: the program puts the cursor on (1, 2), outside the restored
   * buffer, where the corrected rule gives its last slot (1, 0).
   */
  lemma UndoAsWrittenLeavesBuffer(cls: CharClasses, c: Pos)
    ensures DeleteOrdered("ab\n", EditOp.Delete(Pos(0, 0), Pos(1, 0))) && Applicable("ab\n", EditOp.Delete(Pos(0, 0), Pos(1, 0)))
    ensures var s1 := Record(AsWritten, EditState("ab\n", [], 0), EditOp.Delete(Pos(0, 0), Pos(1, 0))).0;
      && s1 == EditState("", [LogEntry(EditOp.Delete(Pos(0, 0), Pos(1, 0)), Insert(Pos(0, 0), "ab\n"))], 1)
      && ReplayOrdered(s1)
      && Handle(cls, AsWritten, s1, c, Undo) == (EditState("ab\n", s1.entries, 0), Dirty, Some(Pos(1, 2)))
      && !ValidPos("ab\n", Pos(1, 2))
      && Handle(cls, Corrected, s1, c, Undo).2 == Some(Pos(1, 0))
  {
    var t: Text := "ab\n";
    var d := EditOp.Delete(Pos(0, 0), Pos(1, 0));
    WholeOfAb();
    assert t[..0] + t[3..] == "";
    assert t[0..3] == t;
    var s0 := EditState(t, [], 0);
    RecordThenUndo(cls, AsWritten, s0, d, c);
    RecordThenUndo(cls, Corrected, s0, d, c);
    AsWrittenColumnAb();
    SlotAfterAb();
  }

  /** The corrected handler hands back only positions of the new buffer; the program's does wherever the two agree. */
  lemma HandleCursorValid(cls: CharClasses, s: EditState, cursor: Pos, op: TextOp)
    requires ReplayOrdered(s) && ValidPos(s.text, cursor)
    ensures var r := Handle(cls, Corrected, s, cursor, op);
      r.2.Some? ==> ValidPos(r.0.text, r.2.value)
    ensures var r := Handle(cls, Corrected, s, cursor, op);
      r.2.None? ==> r.0.text == s.text
    ensures var r := Handle(cls, AsWritten, s, cursor, op);
      !CarriesClosedLine(s, op) && r.2.Some? ==> ValidPos(r.0.text, r.2.value)
  {
    HandleRulesAgree(cls, s, cursor, op);
    var t := s.text;
    match op
    case Move(m) =>
      if !m.Horizontal? {
        VerticalMoveValid(t, cursor, m);
      }
    case InsertText(str) =>
      if Applicable(t, Insert(cursor, str)) {
        ApplyCursorValid(t, Insert(cursor, str));
      }
    case Delete(unit, dir) =>
      var d := DeleteRange(cls, t, cursor, unit, dir);
      if d.Ok? && Applicable(t, d.value) {
        ApplyCursorValid(t, d.value);
      }
    case Redo =>
      if s.next < |s.entries| && Applicable(t, s.entries[s.next].edit) {
        ApplyCursorValid(t, s.entries[s.next].edit);
      }
    case Undo =>
      if s.next > 0 && Applicable(t, s.entries[s.next - 1].undo) {
        ApplyCursorValid(t, s.entries[s.next - 1].undo);
      }
  }

  /** Where undoing an edit puts the cursor: the insertion point, or the end of the deleted range. */
  function UndoneCursor(editOp: EditOp): Pos {
    match editOp
    case Insert(pos, _) => pos
    case Delete(_, end) => end
  }

  /** After a fresh edit is logged, its inverse is the undo step and there is nothing to redo. */
  lemma RecordOrdered(rule: CursorRule, s: EditState, editOp: EditOp)
    requires s.next <= |s.entries| && DeleteOrdered(s.text, editOp) && Applicable(s.text, editOp)
    ensures var s1 := Record(rule, s, editOp).0;
      && ReplayOrdered(s1) && s1.next == |s1.entries| == s.next + 1
      && s1.text == Edited(s.text, editOp)
      && s1.entries[s.next].undo == Inverse(s.text, editOp)
  {
    InverseRestores(s.text, editOp);
  }

  /** Undo with an undo step that applies: the buffer is edited and the index moves back. */
  lemma UndoApplies(cls: CharClasses, rule: CursorRule, s: EditState, cursor: Pos)
    requires ReplayOrdered(s) && s.next > 0 && Applicable(s.text, s.entries[s.next - 1].undo)
    ensures var u := s.entries[s.next - 1].undo;
      Handle(cls, rule, s, cursor, Undo) == (EditState(Edited(s.text, u), s.entries, s.next - 1), Dirty, Some(CursorAfter(rule, u)))
  {
  }

  /** Redo with a redo step that applies: the buffer is edited and the index moves on. */
  lemma RedoApplies(cls: CharClasses, rule: CursorRule, s: EditState, cursor: Pos)
    requires ReplayOrdered(s) && s.next < |s.entries| && Applicable(s.text, s.entries[s.next].edit)
    ensures var e := s.entries[s.next].edit;
      Handle(cls, rule, s, cursor, Redo) == (EditState(Edited(s.text, e), s.entries, s.next + 1), Dirty, Some(CursorAfter(rule, e)))
  {
  }

  /** An insertion or deletion that changed the buffer was a fresh edit that applied and was recorded. */
  lemma HandleRecords(cls: CharClasses, rule: CursorRule, s: EditState, cursor: Pos, op: TextOp) returns (editOp: EditOp)
    requires ReplayOrdered(s) && (op.InsertText? || op.Delete?)
    requires Handle(cls, rule, s, cursor, op).1 == Dirty
    ensures DeleteOrdered(s.text, editOp) && Applicable(s.text, editOp)
    ensures Handle(cls, rule, s, cursor, op) == Record(rule, s, editOp)
    ensures op.InsertText? ==> editOp == Insert(cursor, op.text)
    ensures op.Delete? ==> editOp == DeleteRange(cls, s.text, cursor, op.unit, op.dir).value
  {
    if op.InsertText? {
      editOp := Insert(cursor, op.text);
    } else {
      editOp := DeleteRange(cls, s.text, cursor, op.unit, op.dir).value;
    }
  }

  /**
   * Recording an edit and undoing it gives the buffer back and re-opens the
   * redo step. The cursor goes where the inverse puts it: under the
   * corrected rule, or after an insertion, that is `UndoneCursor`.
   */
  lemma RecordThenUndo(cls: CharClasses, rule: CursorRule, s: EditState, editOp: EditOp, c: Pos)
    requires s.next <= |s.entries| && DeleteOrdered(s.text, editOp) && Applicable(s.text, editOp)
    ensures ReplayOrdered(Record(rule, s, editOp).0)
    ensures var s1 := Record(rule, s, editOp).0;
      Handle(cls, rule, s1, c, Undo) == (EditState(s.text, s1.entries, s.next), Dirty, Some(CursorAfter(rule, Inverse(s.text, editOp))))
    ensures rule.Corrected? || editOp.Insert? ==>
      Handle(cls, rule, Record(rule, s, editOp).0, c, Undo).2 == Some(UndoneCursor(editOp))
  {
    var s1 := Record(rule, s, editOp).0;
    RecordOrdered(rule, s, editOp);
    InverseRestores(s.text, editOp);
    UndoApplies(cls, rule, s1, c);
    if editOp.Delete? {
      DeleteUndoCursor(s.text, editOp.start, editOp.end);
    }
  }

  /**
   * An edit followed by Undo gives the buffer back, returns the log to its
   * former index and keeps the undone entry for Redo. After an insertion the
   * cursor returns to where it was. Under the corrected rule it also returns
   * after a deletion to the left, and after a deletion to the right it lands
   * at the far end of the deleted range.
   */
  lemma EditThenUndo(cls: CharClasses, rule: CursorRule, s: EditState, cursor: Pos, op: TextOp, c: Pos)
    requires ReplayOrdered(s) && (op.InsertText? || op.Delete?)
    requires Handle(cls, rule, s, cursor, op).1 == Dirty
    ensures ReplayOrdered(Handle(cls, rule, s, cursor, op).0)
    ensures var s1 := Handle(cls, rule, s, cursor, op).0;
      var (s2, res, c2) := Handle(cls, rule, s1, c, Undo);
      && s2 == EditState(s.text, s1.entries, s.next)
      && res == Dirty
      && (op.InsertText? ==> c2 == Some(cursor))
      && (rule.Corrected? && op.Delete? && op.dir.Left? ==> c2 == Some(cursor))
      && (rule.Corrected? && op.Delete? && op.dir.Right? ==> c2 == Some(DeleteRange(cls, s.text, cursor, op.unit, op.dir).value.end))
  {
    var editOp := HandleRecords(cls, rule, s, cursor, op);
    RecordThenUndo(cls, rule, s, editOp, c);
  }

  /** A fresh edit discards the redo branch: a Redo right after it changes nothing. */
  lemma EditKillsRedo(cls: CharClasses, rule: CursorRule, s: EditState, cursor: Pos, op: TextOp, c: Pos)
    requires ReplayOrdered(s) && (op.InsertText? || op.Delete?)
    requires Handle(cls, rule, s, cursor, op).1 == Dirty
    ensures ReplayOrdered(Handle(cls, rule, s, cursor, op).0)
    ensures var s1 := Handle(cls, rule, s, cursor, op).0;
      s1.next == |s1.entries| && Handle(cls, rule, s1, c, Redo) == (s1, Noop, None)
  {
    var editOp := HandleRecords(cls, rule, s, cursor, op);
    RecordOrdered(rule, s, editOp);
  }

  // ----- The log and the editable text, in place -----

  /** `Log`: the entries and the index of the next redo. */
  class Log {
    var entries: seq<LogEntry>
    var nextIndex: nat

    predicate Valid()
      reads this
    {
      nextIndex <= |entries|
    }

    constructor ()
      ensures entries == [] && nextIndex == 0
    {
      entries := [];
      nextIndex := 0;
    }

    /** `push_entry`: truncate to `next_index`, append, and move past the new entry. */
    method PushEntry(entry: LogEntry)
      requires Valid()
      modifies this
      ensures Valid()
      ensures entries == old(entries[..nextIndex]) + [entry]
      ensures nextIndex == old(nextIndex) + 1 == |entries|
    {
      entries := entries[..nextIndex];
      entries := entries + [entry];
      nextIndex := nextIndex + 1;
    }

    /** `undo`: step back and return that entry's inverse; nothing at the start of the log. */
    method Undo() returns (op: Option<EditOp>)
      requires Valid()
      modifies this
      ensures Valid() && entries == old(entries)
      ensures op.None? <==> old(nextIndex) == 0
      ensures op.None? ==> nextIndex == old(nextIndex)
      ensures op.Some? ==> nextIndex == old(nextIndex) - 1 && op.value == entries[nextIndex].undo
    {
      if nextIndex == 0 {
        return None;
      }
      nextIndex := nextIndex - 1;
      op := Some(entries[nextIndex].undo);
    }

    /** `redo`: return the next entry's edit and step past it; nothing at the end of the log. */
    method Redo() returns (op: Option<EditOp>)
      requires Valid()
      modifies this
      ensures Valid() && entries == old(entries)
      ensures op.None? <==> old(nextIndex) == |entries|
      ensures op.None? ==> nextIndex == old(nextIndex)
      ensures op.Some? ==> nextIndex == old(nextIndex) + 1 && op.value == entries[old(nextIndex)].edit
    {
      if nextIndex < |entries| {
        op := Some(entries[nextIndex].edit);
        nextIndex := nextIndex + 1;
      } else {
        op := None;
      }
    }
  }

  /** `TextEditable`: the rope and its undo log. */
  class TextEditable {
    const inner: SpanEditable
    const log: Log

    function State(): EditState
      reads this, inner, log
    {
      EditState(inner.text, log.entries, log.nextIndex)
    }

    /** The buffers the log leads through; the current one is at the log's index. */
    ghost var texts: seq<Text>

    ghost predicate Valid()
      reads this, inner, log
    {
      log.Valid() && Tracks(State(), texts) && ReplayOrdered(State())
    }

    /** `From<Rope>`: an empty log. */
    constructor (r: Text)
      ensures Valid() && State() == EditState(r, [], 0) && texts == [r]
      ensures fresh(inner) && fresh(log)
    {
      FreshTracks(r);
      inner := new SpanEditable(r);
      log := new Log();
      texts := [r];
    }

    /** `saturating_offset`, with the word scan's loop. */
    method Offset(cls: CharClasses, cursor: Pos, unit: Unit, dir: LeftRight) returns (r: Result<Pos, EditErr>)
      ensures r == SaturatingOffset(cls, inner.text, cursor, unit, dir)
    {
      var t := inner.text;
      var g := GetByte(t, cursor);
      if g.Err? {
        OffsetOutOfBounds(cls, t, cursor, unit, dir);
        return Err(g.error);
      }
      var b := g.value;
      var nb: nat;
      if dir.Left? {
        var n := ByteCount(cls, unit, Reverse(CharsBefore(t, b)));
        assert OffsetByte(cls, t, b, unit, dir) + n == b;
        nb := b - n;
      } else {
        var n := ByteCount(cls, unit, CharsFrom(t, b));
        nb := b + n;
      }
      assert nb == OffsetByte(cls, t, b, unit, dir);
      r := PosFromByte(t, nb);
    }

    /** The bytes one unit of `it` spans; words are counted by the scanning loop. */
    static method ByteCount(cls: CharClasses, unit: Unit, it: seq<char>) returns (n: nat)
      ensures n == UnitBytes(cls, unit, it)
    {
      if unit.Word? {
        n := CountBytesTillWordBoundary(cls, it);
      } else {
        n := UnitBytes(cls, unit, it);
      }
    }

    /** `handle_edit_event`, carried out on the rope and the log. */
    method HandleEditEvent(cls: CharClasses, rule: CursorRule, cursor: Pos, op: TextOp) returns (result: EditResult, newCursor: Option<Pos>)
      requires Valid()
      modifies this, inner, log
      ensures Valid()
      ensures (State(), result, newCursor) == Handle(cls, rule, old(State()), cursor, op)
      ensures texts == HandleHistory(old(State()), old(texts), op, result, inner.text)
    {
      ghost var s := State();
      HandleTracks(cls, rule, s, texts, cursor, op);
      result, newCursor := Dispatch(cls, rule, cursor, op);
      texts := HandleHistory(s, texts, op, result, inner.text);
      TracksReplayOrdered(State(), texts);
    }

    /** The rope and log side of `handle_edit_event`: one case per operation. */
    method Dispatch(cls: CharClasses, rule: CursorRule, cursor: Pos, op: TextOp) returns (result: EditResult, newCursor: Option<Pos>)
      requires log.Valid() && ReplayOrdered(State())
      modifies inner, log
      ensures log.Valid()
      ensures (State(), result, newCursor) == Handle(cls, rule, old(State()), cursor, op)
    {
      match op {
        case Move(m) =>
          newCursor := MoveEvent(cls, cursor, m);
          result := Noop;
        case InsertText(str) =>
          result, newCursor := RecordEvent(rule, Insert(cursor, str));
        case Delete(unit, dir) =>
          result, newCursor := DeleteEvent(cls, rule, cursor, unit, dir);
        case Redo =>
          result, newCursor := RedoEvent(rule);
        case Undo =>
          result, newCursor := UndoEvent(rule);
      }
    }

    /** A move: the new cursor, with buffer and log untouched. */
    method MoveEvent(cls: CharClasses, cursor: Pos, m: MoveDir) returns (newCursor: Option<Pos>)
      ensures newCursor == MoveCursor(cls, inner.text, cursor, m)
    {
      var moved: Result<Pos, EditErr>;
      if m.Horizontal? {
        moved := Offset(cls, cursor, m.unit, m.dir);
      } else {
        moved := VerticalMove(inner.text, cursor, m);
      }
      newCursor := if moved.Err? then None else Some(moved.value);
    }

    /** Apply a fresh edit and push its entry when it succeeds. */
    method RecordEvent(rule: CursorRule, editOp: EditOp) returns (result: EditResult, newCursor: Option<Pos>)
      requires log.Valid() && DeleteOrdered(inner.text, editOp)
      modifies inner, log
      ensures log.Valid()
      ensures (State(), result, newCursor) == Record(rule, old(State()), editOp)
    {
      var newPos := CursorAfter(rule, editOp);
      var entry := inner.ApplyEdit(editOp);
      if entry.Ok? {
        log.PushEntry(entry.value);
      }
      result := if entry.Ok? then Dirty else Noop;
      newCursor := if entry.Ok? then Some(newPos) else None;
    }

    /** Delete one unit: find the other end of the range, then record the deletion. */
    method DeleteEvent(cls: CharClasses, rule: CursorRule, cursor: Pos, unit: Unit, dir: LeftRight) returns (result: EditResult, newCursor: Option<Pos>)
      requires log.Valid()
      modifies inner, log
      ensures log.Valid()
      ensures (State(), result, newCursor) ==
        match DeleteRange(cls, old(inner.text), cursor, unit, dir)
        case Err(_) => (old(State()), Noop, None)
        case Ok(editOp) => Record(rule, old(State()), editOp)
    {
      var moved := Offset(cls, cursor, unit, dir);
      if moved.Err? {
        return Noop, None;
      }
      var other := moved.value;
      var (start, end) := if dir.Left? then (other, cursor) else (cursor, other);
      var editOp := EditOp.Delete(start, end);
      assert DeleteRange(cls, inner.text, cursor, unit, dir) == Ok(editOp);
      result, newCursor := RecordEvent(rule, editOp);
    }

    /** Replay the log's next edit, if there is one. */
    method RedoEvent(rule: CursorRule) returns (result: EditResult, newCursor: Option<Pos>)
      requires log.Valid() && ReplayOrdered(State())
      modifies inner, log
      ensures log.Valid()
      ensures var s := old(State());
        (State(), result, newCursor) ==
          if s.next < |s.entries| then Replay(rule, s.(next := s.next + 1), s.entries[s.next].edit)
          else (s, Noop, None)
    {
      var editOp := log.Redo();
      if editOp.None? {
        return Noop, None;
      }
      var newPos := CursorAfter(rule, editOp.value);
      var applied := inner.ApplyEdit(editOp.value);
      result := if applied.Ok? then Dirty else Noop;
      newCursor := if applied.Ok? then Some(newPos) else None;
    }

    /** Replay the inverse of the log's previous edit, if there is one. */
    method UndoEvent(rule: CursorRule) returns (result: EditResult, newCursor: Option<Pos>)
      requires log.Valid() && ReplayOrdered(State())
      modifies inner, log
      ensures log.Valid()
      ensures var s := old(State());
        (State(), result, newCursor) ==
          if s.next > 0 then Replay(rule, s.(next := s.next - 1), s.entries[s.next - 1].undo)
          else (s, Noop, None)
    {
      var editOp := log.Undo();
      if editOp.None? {
        return Noop, None;
      }
      var newPos := CursorAfter(rule, editOp.value);
      var applied := inner.ApplyEdit(editOp.value);
      result := if applied.Ok? then Dirty else Noop;
      newCursor := if applied.Ok? then Some(newPos) else None;
    }
  }
}
