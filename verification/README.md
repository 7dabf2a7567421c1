# A verified model of a terminal task tracker's editing core

The tracker keeps tasks as Markdown files with a front matter (`created`,
`completed`, a list of progress `boxes`, any other fields) and a free-text
context, and edits them in a terminal. This project models, in Dafny:

- the editable text engine (`src/storage/`):
  - positions (`Pos`) and their byte offsets in a rope, with the simulated
    slot after a trailing newline (`SpanEditable`);
  - the character, word and line scanners and the event handler with its
    linear undo log (`TextEditable`, `Log`);
  - the emacs-style key table and the field that owns its cursor
    (`KeyboardEditable`);
- the task records (`src/storage.rs`): the box state machine, the dirty
  flags, field resolution after the front matter is parsed, and the text
  `Display` writes;
- the filter (`src/filter.rs`): the expression evaluator and `FilteredData`,
  which keeps the data indices of the tasks the current filter admits;
- the selection of the task table (`src/tui/table.rs`) and the scroll state
  of the text view (`src/tui/task/editor.rs`).

Texts are `seq<char>`; UTF-8 byte widths are computed from each code point.
The rope is modelled by the functions of module `Rope` on that sequence.
`Handle` in module `TextEdit` is the whole event handler written on values.
The classes `Log`, `TextEditable` and `KeyboardEditable` carry it out in place,
and their contracts tie each call to it. The log keeps a ghost history of
buffers (`Tracks`). Every edit, undo and redo is proved to keep that history
consistent, so each replay applies and gives back the neighbouring buffer.

Where the code behaves in ways a user may not expect, the model follows the code:

- Line moves are not symmetric. From the middle of a line, a move right goes
  to the line's end, and a move left then goes to column 0
  (`TextScan.LineMoveRight`, `TextScan.LineMoveLeft`).
- After a deletion to the right, undo puts the cursor at the far end of the
  restored range, not back where it was (`TextEdit.EditThenUndo`).
- Undo and redo move the log index before they replay. A replay that fails
  leaves the index moved although the buffer is unchanged
  (`TextEdit.UndoIsNotAtomic`).
- Every save and reload adds one newline to the end of a task's context.
  `Display` writes the context with `writeln!` (`src/storage.rs:321`), and
  loading keeps everything after the closing marker
  (`src/storage.rs:241-243`), so the context read back is the old one plus
  "\n" (`Storage.ShowSplits`).

Two parts of the editing engine are modelled by choice:

- `apply_edit` in `src/storage/span_edit.rs` returns `()` and builds no log
  entry, while its caller in `src/storage/text_edit.rs` pushes the entry it
  expects back. The model returns the entry as the edit with its inverse:
  an insertion is undone by deleting from its position to where
  `calc_cursor_pos` (corrected) puts the cursor, and a deletion by
  re-inserting the deleted characters at its start.
- `calc_cursor_pos` (`src/storage/text_edit.rs:130-149`) is modelled twice:
  as written (`SpanEdit.CalcCursorPosAsWritten`) and corrected
  (`SpanEdit.CalcCursorPos`), see "Findings". The handler `TextEdit.Handle`
  and the classes that carry it out take the rule as a parameter
  (`CursorRule`): `AsWritten` is the program, `Corrected` the intended
  behaviour. The two handlers change buffer and log alike and differ only
  in the cursor after an edit whose text ends in a newline after another
  character (`TextEdit.HandleRulesAgree`); a typed key never inserts such a
  text (`KeyboardEdit.MapKeyEvent`).

## Model

| member | source | states |
|---|---|---|
| Editing.Pos.WithLine | src/storage/editing.rs:13-18 | the column is kept and the line replaced; the position is unchanged iff the line is the same |
| Editing.Pos.WithColumn | src/storage/editing.rs:19-24 | the line is kept and the column replaced; the position is unchanged iff the column is the same |
| Editing.FromPair | src/storage/editing.rs:27-31 | the tuple's first part is the line and its second the column |
| Editing.BuildersCompose | src/storage/editing.rs:13-31 | setting line and column with the builders, in either order, equals the tuple conversion, which gives back any position |
| Rope.Width | src/storage/span_edit.rs:86 | a character takes 1 to 4 bytes in UTF-8 |
| Rope.BytesSplit | src/storage/span_edit.rs:86 | byte offsets of character prefixes add up and grow strictly with the prefix |
| Rope.CharIndexOfByte | src/storage/span_edit.rs:132-137 | a char boundary byte names the prefix whose byte length it is |
| Rope.CharIndexOfPrefixBytes | src/storage/span_edit.rs:132-137 | every character prefix ends on a char boundary that maps back to the prefix |
| Rope.LastLineStart | src/storage/span_edit.rs:119-125 | the start of the last line follows a newline, and is 0 exactly when there is none |
| Rope.LineStartFacts | src/storage/span_edit.rs:79 | the text before line `l` holds exactly `l` newlines and ends on one |
| Rope.LineStartUnique | src/storage/span_edit.rs:79 | a line start is determined by the number of newlines before it |
| Rope.SimulatedLine | src/storage/span_edit.rs:91-107 | after a trailing newline the line count excludes the empty last line, which starts at the end and is empty |
| Rope.OpenLastLine | src/storage/span_edit.rs:119-125 | without a trailing newline the last line is counted and runs to the end of the text |
| Rope.RunToNewlineReverse | src/storage/text_edit.rs:263-266 | read backwards, the run before the first newline is the part of the last line already passed |
| Rope.BytesReverse | src/storage/text_edit.rs:240-243 | the first `m` characters read backwards weigh as many bytes as the last `m` characters |
| SpanEdit.PosOfCharIndex | src/storage/span_edit.rs:108-141 | every character index has a valid position that maps back to it |
| SpanEdit.PosOfCharIndexOfCharIndex | src/storage/span_edit.rs:70-141 | positions and character indices are in one-to-one correspondence |
| SpanEdit.PrefixKeepsPos | src/storage/span_edit.rs:70-89 | a position stays valid, at the same index, in any text sharing the characters before it |
| SpanEdit.SimulatedSlot | src/storage/span_edit.rs:91-107 | `is_simulated_final_newline` holds iff the position is the valid slot at the very end after a trailing newline or in the empty buffer |
| SpanEdit.IsSimulatedFinalNewline | src/storage/span_edit.rs:91-107 | the simulated slot is a valid position at the very end of the buffer |
| SpanEdit.GetLineCharLen | src/storage/span_edit.rs:51-68 | defined exactly for lines up to the newline count, and then the line's character count (0 for the simulated line) |
| SpanEdit.GetByte | src/storage/span_edit.rs:70-89 | succeeds iff the position is valid (never clamps), and then gives the char boundary before the position's character |
| SpanEdit.PastLastLine | src/storage/span_edit.rs:76-78 | below the last line only the simulated slot is a position |
| SpanEdit.LineByte | src/storage/span_edit.rs:79-88 | line start byte plus the bytes of the first `c` columns is the byte of that position |
| SpanEdit.PosFromByte | src/storage/span_edit.rs:108-141 | for a byte on a char boundary or past the end (crop's `byte_slice` panics inside a character): fails iff the byte is past the end; otherwise gives the position of that char boundary |
| SpanEdit.InteriorByte | src/storage/span_edit.rs:129-138 | for a byte inside the buffer, the line of the byte and the column counted in its line agree with its character index |
| SpanEdit.PosFromGetByte | src/storage/span_edit.rs:70-141 | `pos_from_byte(get_byte(p)) == p` for every valid position |
| SpanEdit.GetBytePosFrom | src/storage/span_edit.rs:70-141 | `get_byte(pos_from_byte(b)) == b` for every char boundary of the buffer |
| SpanEdit.CalcCursorPos | src/storage/text_edit.rs:130-149 | a deletion lands on its start; an insertion moves down by its newlines and, without newlines, right by its length |
| SpanEdit.CalcCursorPosAsWritten | src/storage/text_edit.rs:130-149 | the rule as written moves down by the newlines and lands on the start of a deletion |
| SpanEdit.CalcCursorPosAsWrittenLeavesBuffer | src/storage/text_edit.rs:138-142 | re-inserting "ab\n" at the start of the empty buffer puts the as-written cursor at (1, 2), outside the buffer; the corrected cursor is the slot (1, 0) |
| SpanEdit.CalcCursorPosAgreement | src/storage/text_edit.rs:138-142 | the two rules agree unless the inserted text ends in a newline after a non-newline character |
| SpanEdit.InsertCursor | src/storage/text_edit.rs:130-146 | after an insertion the cursor sits right after the inserted characters |
| SpanEdit.Apply | src/storage/span_edit.rs:35-49 | for an ordered edit: fails iff a position of the edit is outside the buffer; otherwise splices the characters and logs the edit with its inverse |
| SpanEdit.InverseRestores | src/storage/span_edit.rs:35-49 | the logged inverse applies to the edited buffer and gives the original buffer back |
| SpanEdit.DeleteStartKept | src/storage/text_edit.rs:147 | cutting a range out leaves its start at the same place |
| SpanEdit.ApplyCursorValid | src/storage/text_edit.rs:84-106 | after an edit, the cursor `calc_cursor_pos` gives is a valid position at the insertion end or the deletion start |
| SpanEdit.DeleteUndoCursor | src/storage/text_edit.rs:117-121 | undoing a deletion puts the cursor at the end of the restored range |
| SpanEdit.SpanEditable.constructor | src/storage/span_edit.rs:144-148 | wraps the rope unchanged |
| SpanEdit.SpanEditable.ApplyEdit | src/storage/span_edit.rs:35-49 | on success the rope is the edited text and the entry is the edit with its inverse; on `OutOfBounds` the rope is unchanged |
| TextScan.RunLen | src/storage/text_edit.rs:192-203 | the maximal run: every character before it belongs, the next does not |
| TextScan.RunLenUnique | src/storage/text_edit.rs:192-203 | a run is determined by those two facts |
| TextScan.WordBoundaryChars | src/storage/text_edit.rs:187-237 | a word scan passes the first-phase run, then at least one more character and all following characters of its class, and stops before a character of another class |
| TextScan.CountBytesTillWordBoundary | src/storage/text_edit.rs:187-237 | the scanner's loops return the bytes of the characters a word scan passes |
| TextScan.WordBoundaryCharsAt | src/storage/text_edit.rs:206-235 | the end points of the two phases determine the characters passed |
| TextScan.WordBoundaryAsWrittenAgrees | src/storage/text_edit.rs:206 | when the first phase passes only one-byte characters, skipping `count` characters is correct |
| TextScan.WordBoundaryAsWrittenAgreesNarrow | src/storage/text_edit.rs:187-237 | with one-byte inline whitespace (chumsky's ' ' and '\t') and '\n' as the only newline, the word counter as written equals the corrected one on every input |
| TextScan.WordBoundaryBytesAsWritten | src/storage/text_edit.rs:187-237 | the word counter as written passes at least one byte exactly when there is input left |
| TextScan.WordBoundaryAsWrittenSplitsChar | src/storage/text_edit.rs:206 | with character classes where U+3000 is inline whitespace, over "　éxy" the as-written count is 4, inside 'é'; the corrected count is a char boundary |
| TextScan.UnitBytes | src/storage/text_edit.rs:159-272 | each counter returns the bytes of the characters it passes |
| TextScan.Target | src/storage/text_edit.rs:151-157 | a scan to the left never moves right, and a scan to the right never moves left |
| TextScan.OffsetByte | src/storage/text_edit.rs:159-272 | the byte a scan lands on is a char boundary of the buffer at the target character |
| TextScan.SaturatingOffset | src/storage/text_edit.rs:151-157 | fails iff the cursor is not a position of the buffer; otherwise gives the position of the target character |
| TextScan.OffsetOutOfBounds | src/storage/text_edit.rs:161 | an invalid cursor gives `OutOfBounds` |
| TextScan.CharMove | src/storage/text_edit.rs:159-184 | a character move passes exactly one character and saturates at the buffer edge |
| TextScan.CharMoveSymmetric | src/storage/text_edit.rs:159-184 | away from the end, right then left returns to the same position |
| TextScan.LineMoveRight | src/storage/text_edit.rs:251-272 | right goes to the line end; at a line end over the newline to the next line start; at the buffer end it stays |
| TextScan.LineMoveLeft | src/storage/text_edit.rs:251-272 | left goes to the line start; at a line start over the newline to the end of the previous line; at the buffer start it stays |
| TextScan.LineRightChars | src/storage/text_edit.rs:252-260 | the line counter passes the rest of the line, or the newline alone at a line end |
| TextEdit.VerticalMove | src/storage/text_edit.rs:50-65 | a cursor that moved is a valid position |
| TextEdit.VerticalMoveValid | src/storage/text_edit.rs:50-65 | from a valid cursor, Up and Down move one line and clamp the column; they fail only for Down from the last line of a buffer without trailing newline |
| TextEdit.Commit | src/storage/text_edit.rs:323-330 | the redo branch is dropped, the entry appended, and the index points past it |
| TextEdit.Record | src/storage/text_edit.rs:78-107 | a fresh edit is `Dirty` iff it applies; then the buffer is the edited one, the entry is appended at the index, and the cursor is the rule's; otherwise nothing changes and no cursor is returned |
| TextEdit.Replay | src/storage/text_edit.rs:108-125 | a replayed step is `Dirty` iff it applies; the log is never changed; on success the buffer is the edited one and the cursor the rule's, otherwise nothing changes and no cursor is returned |
| TextEdit.MoveCursor | src/storage/text_edit.rs:66-73 | a horizontal move succeeds iff the cursor is valid |
| TextEdit.DeleteRange | src/storage/text_edit.rs:90-102 | succeeds iff the cursor is valid; gives an ordered deletion ending at the cursor to the left, starting there to the right |
| TextEdit.Handle | src/storage/text_edit.rs:45-127 | under either cursor rule: every failure is `(Noop, None)` with the buffer unchanged; moves never touch buffer or log; only Undo and Redo change state with `Noop` |
| TextEdit.FreshTracks | src/storage/text_edit.rs:275-285 | a fresh field's empty log tracks the history holding its buffer alone |
| TextEdit.TracksReplayOrdered | src/storage/text_edit.rs:108-125 | a tracking log can replay its next undo and redo steps without panicking |
| TextEdit.UndoTracks | src/storage/text_edit.rs:331-337 | the undo step applies and leads to the previous buffer of the history |
| TextEdit.RedoTracks | src/storage/text_edit.rs:338-344 | the redo step applies and leads to the next buffer of the history |
| TextEdit.CommitTracks | src/storage/text_edit.rs:323-330 | logging a fresh edit cuts the history at the buffer and appends the edited buffer |
| TextEdit.HandleTracks | src/storage/text_edit.rs:45-127 | every event keeps the log tracking the buffer history |
| TextEdit.UndoSucceeds | src/storage/text_edit.rs:117-125 | with something to undo, Undo restores the previous buffer of the history, under either cursor rule, with that rule's cursor |
| TextEdit.RedoSucceeds | src/storage/text_edit.rs:108-116 | with something to redo, Redo restores the next buffer of the history, under either cursor rule, with that rule's cursor |
| TextEdit.UndoThenRedo | src/storage/text_edit.rs:108-125 | Undo then Redo gives back the starting state |
| TextEdit.RedoThenUndo | src/storage/text_edit.rs:108-125 | Redo then Undo gives back the starting state |
| TextEdit.UndoIsNotAtomic | src/storage/text_edit.rs:117-121 | an undo step that does not apply leaves the index moved back and the buffer unchanged |
| TextEdit.FreshFieldNoReplay | src/storage/text_edit.rs:108-125 | Undo and Redo on a fresh field change nothing |
| TextEdit.HandleRulesAgree | src/storage/text_edit.rs:78-149 | the program's handler and the corrected one give the same buffer, log and result, and a cursor in the same cases; the cursors are equal unless the edit carries a text ending in a newline after another character |
| TextEdit.UndoAsWrittenLeavesBuffer | src/storage/text_edit.rs:117-142 | deleting all of "ab\n" and undoing: the program's handler restores the buffer with the cursor (1, 2), outside it; the corrected one gives (1, 0) |
| TextEdit.HandleCursorValid | src/storage/text_edit.rs:45-127 | every cursor the corrected handler returns is a position of the new buffer, and it returns none only with the buffer unchanged; the program's handler returns a position of the new buffer unless the edit carries a text ending in a newline after another character |
| TextEdit.RecordOrdered | src/storage/text_edit.rs:78-107 | after a fresh edit, its inverse is the undo step and nothing is left to redo |
| TextEdit.HandleRecords | src/storage/text_edit.rs:78-107 | an insertion or deletion that returned `Dirty` was recorded at the cursor |
| TextEdit.RecordThenUndo | src/storage/text_edit.rs:78-125 | a fresh ordered edit then Undo restores buffer and index, keeps the entry, and puts the cursor where the rule puts it for the inverse: under the corrected rule, or after an insertion, the insertion point or the end of the deleted range |
| TextEdit.EditThenUndo | src/storage/text_edit.rs:78-125 | under either rule an edit then Undo restores the buffer and the log index, keeps the entry for Redo, and returns the cursor after an insertion; under the corrected rule the cursor also returns after a deletion to the left, and lands at the far end after a deletion to the right |
| TextEdit.EditKillsRedo | src/storage/text_edit.rs:323-330 | after a fresh edit, Redo changes nothing |
| TextEdit.Log.constructor | src/storage/text_edit.rs:279-282 | an empty log at index 0 |
| TextEdit.Log.PushEntry | src/storage/text_edit.rs:323-330 | entries become the old ones up to the index plus the new entry; the index is the new length |
| TextEdit.Log.Undo | src/storage/text_edit.rs:331-337 | nothing at index 0; otherwise the index moves back and the entry's inverse is returned |
| TextEdit.Log.Redo | src/storage/text_edit.rs:338-344 | nothing at the end; otherwise the entry's edit is returned and the index moves on |
| TextEdit.TextEditable.constructor | src/storage/text_edit.rs:275-285 | a fresh field: the rope, no entries, index 0 |
| TextEdit.TextEditable.Offset | src/storage/text_edit.rs:151-272 | computes `saturating_offset` on the buffer |
| TextEdit.TextEditable.HandleEditEvent | src/storage/text_edit.rs:45-127 | buffer, log, result and cursor are those `Handle` gives under the given cursor rule, and the history is updated |
| TextEdit.TextEditable.Dispatch | src/storage/text_edit.rs:46-126 | one case per operation, each giving the state, result and cursor of `Handle` |
| TextEdit.TextEditable.MoveEvent | src/storage/text_edit.rs:47-77 | the moved cursor, or none when the move fails, with buffer and log untouched |
| TextEdit.TextEditable.RecordEvent | src/storage/text_edit.rs:78-107 | applies a fresh edit and pushes its entry only on success |
| TextEdit.TextEditable.DeleteEvent | src/storage/text_edit.rs:90-107 | an invalid cursor changes nothing; otherwise the range is deleted and recorded |
| TextEdit.TextEditable.UndoEvent | src/storage/text_edit.rs:117-125 | replays the previous entry's inverse, if there is one |
| TextEdit.TextEditable.RedoEvent | src/storage/text_edit.rs:108-116 | replays the next entry's edit, if there is one |
| KeyboardEdit.EndCursor | src/storage/keyboard_edit.rs:25-35 | the start cursor at the end of the text: the very end, or just before a trailing newline, always a valid position |
| KeyboardEdit.ClosedLastLine | src/storage/keyboard_edit.rs:28-33 | before a trailing newline, the last real line ends one character before the end |
| KeyboardEdit.MapKeyEvent | src/storage/keyboard_edit.rs:42-103 | only Esc and other keys map to nothing; only Enter and characters insert, always one character, so never a text ending in a newline after another character |
| KeyboardEdit.PlainKeysIgnoreModifiers | src/storage/keyboard_edit.rs:46-88 | arrows, Enter and Delete map the same whatever the modifiers |
| KeyboardEdit.WordDeletesFirst | src/storage/keyboard_edit.rs:77-96 | Alt+Backspace and Alt+d delete a word, winning over the character deletions |
| KeyboardEdit.PlainCharInserts | src/storage/keyboard_edit.rs:99 | a character without modifiers inserts itself |
| KeyboardEdit.UnboundCharInserts | src/storage/keyboard_edit.rs:99 | a character no shortcut uses inserts itself even with modifiers |
| KeyboardEdit.ShortcutKeys | src/storage/keyboard_edit.rs:48-99 | Ctrl+a, Ctrl+e and Ctrl+u act on the line and Alt+b, Alt+f move by a word, whatever the other modifier; a bound letter with only the other modifier inserts itself |
| KeyboardEdit.UndoRedoKeys | src/storage/keyboard_edit.rs:97-98 | Ctrl+z is Undo and Ctrl+r is Redo |
| KeyboardEdit.KeyboardEditable.FromRope | src/storage/keyboard_edit.rs:23-41 | a fresh log, the cursor at the start or at `EndCursor`, a position of the buffer |
| KeyboardEdit.KeyboardEditable.ApplyTextOp | src/storage/keyboard_edit.rs:105-111 | runs `Handle` under the given cursor rule at the cursor and moves the cursor only when a position is returned; a valid cursor stays valid under the corrected rule, and under the program's rule unless the edit carries a text ending in a newline after another character |
| Storage.NewTask | src/storage.rs:193-210 | a new task is dirty, has no path and no extra fields, and holds the given fields |
| Storage.Step | src/storage.rs:155-159 | a checked box stays; any other box gains one unit of weight, and a box that becomes checked takes the time |
| Storage.FirstUnchecked | src/storage.rs:151-154 | the first box not checked; none iff every box is checked |
| Storage.LastEmpty | src/storage.rs:164-167 | the last empty box; none iff no box is empty |
| Storage.RemoveLastEmpty | src/storage.rs:163-173 | the boxes are unchanged iff none is empty; otherwise exactly one box is removed |
| Storage.StepBoxes | src/storage.rs:148-161 | only the first unchecked box changes, Empty to Started or Started to Checked at the time, and its new state is returned; none iff all are checked |
| Storage.ProgressBound | src/storage.rs:148-161 | progress is at most two per box, reached iff every box is checked |
| Storage.ProgressUpdate | src/storage.rs:155-159 | changing one box changes progress by the difference of the weights |
| Storage.StepProgresses | src/storage.rs:148-161 | each successful step adds one to progress, so stepping stops within twice the box count |
| Storage.RemoveLastEmptyCounts | src/storage.rs:163-173 | removal takes exactly one Empty out and keeps the other boxes; without an empty box nothing changes |
| Storage.PushThenRemove | src/storage.rs:143-173 | `push_box` then `remove_empty_state` gives the boxes back |
| Storage.Data.constructor | src/storage.rs:31-33 | holds the given tasks |
| Storage.Data.SetDirty | src/storage.rs:130-132 | only that task's dirty flag is set |
| Storage.Data.ClearDirty | src/storage.rs:134-136 | only that task's dirty flag is cleared |
| Storage.Data.SetCompleted | src/storage.rs:138-141 | only that task changes: dirty, with the completion given |
| Storage.Data.PushBox | src/storage.rs:143-146 | only that task changes: dirty, with one more empty box at the end |
| Storage.Data.StepBoxState | src/storage.rs:148-161 | the task is dirty even when nothing moved; its boxes and the result are those of `StepBoxes` |
| Storage.Data.RemoveEmptyState | src/storage.rs:163-173 | without an empty box nothing changes, not even the dirty flag; otherwise dirty with the last empty box removed |
| Storage.Data.Push | src/storage.rs:175-178 | the task is appended and marked dirty |
| Storage.FindFrom | src/storage.rs:241-243 | the first occurrence of the marker from the given index, or none anywhere |
| Storage.SplitFrontMatter | src/storage.rs:235-243 | the start marker error iff the text does not start with the marker, the end marker error iff no marker follows; otherwise the text is marker, front matter, marker, context, split at the first marker |
| Storage.SplitJoin | src/storage.rs:235-243 | a front matter without a marker of its own splits back out of the text it is joined into |
| Storage.ResolveAppend | src/storage.rs:250-285 | running the loop over two pieces runs it over the first, then the second |
| Storage.ResolveRemaining | src/storage.rs:280-283 | fields with other keys are kept in order |
| Storage.LastCreatedWins | src/storage.rs:252-259 | the last `created` field decides, unless a bad `boxes` value follows it |
| Storage.BadBoxesFailsCreated | src/storage.rs:260-268 | a `boxes` value that is neither a list nor empty fails the task with the boxes error, stored as the `created` error |
| Storage.RequiredFields | src/storage.rs:245-246 | without a `created` or `boxes` key the result is the missing-field error |
| Storage.CreatedUntouched | src/storage.rs:250-285 | fields that are neither `created` nor a bad `boxes` leave `created` alone |
| Storage.BoxesUntouched | src/storage.rs:250-285 | fields that are not `boxes` leave `boxes` alone |
| Storage.CompletedUntouched | src/storage.rs:250-285 | fields that are not `completed` leave `completed` alone |
| Storage.Extras | src/storage.rs:280-283 | the kept fields have keys the loader does not interpret |
| Storage.ExtrasAll | src/storage.rs:280-283 | every field with such a key is kept |
| Storage.ResolveFields | src/storage.rs:245-285 | the loop computes the resolution of all fields |
| Storage.FromString | src/storage.rs:228-297 | computes `LoadTask`: the name, markers, parser, then created, boxes and completed decide the first error |
| Storage.LoadTask | src/storage.rs:228-297 | no file stem is the name error; with a stem, a marker error is the result; a loaded task is clean, remembers its path and takes the stem as title |
| Storage.Loaded | src/storage.rs:287-296 | a loaded task is clean, remembers its path and name, its context is what follows the closing marker, and its extras are the uninterpreted fields |
| Storage.WriteBoxes | src/storage.rs:314-316 | writes one list line per box, in order |
| Storage.WriteFields | src/storage.rs:317-319 | writes one `key: value` line per extra field, in order |
| Storage.BoxText | src/storage.rs:456-466 | "Empty" exactly for an empty box, "Started" exactly for a started one, and `Checked(…)` for a checked one |
| Storage.BoxLines | src/storage.rs:314-316 | empty exactly when there are no boxes, and otherwise ends a line |
| Storage.ValueText | src/storage.rs:351-367 | a box list starts on a new line and ends a line |
| Storage.FieldLines | src/storage.rs:317-319 | empty exactly when there are no extra fields, and otherwise ends a line |
| Storage.FrontMatter | src/storage.rs:307-319 | starts with the `created` line and ends a line |
| Storage.Show | src/storage.rs:304-324 | starts with the marker line and ends with the context and a final newline |
| Storage.Write | src/storage.rs:304-324 | writes the marker, front matter, marker, context and a final newline |
| Storage.BoxLinesSafe | src/storage.rs:314-316 | the box lines hold no marker line and end a line |
| Storage.FieldLinesSafe | src/storage.rs:317-319 | the extra field lines hold no marker line and end a line |
| Storage.HeaderSafe | src/storage.rs:306-313 | the `created`, `completed` and `boxes:` lines hold no marker line |
| Storage.ShowSplits | src/storage.rs:235-243 | the text `Display` writes splits back into the front matter it wrote and the context with its final newline |
| Storage.ResolveWritten | src/storage.rs:245-296 | resolving the fields `Display` wrote (`WrittenFields`, as held, not as parsed) gives back the task's created date, boxes, completion and extra fields |
| Filter.Eval | src/filter.rs:147-160 | only an unchecked or missing box, or a missing completion, has no date |
| Filter.Compare | src/filter.rs:133-140 | a comparison holds only when both sides have a date |
| Filter.Satisfies | src/filter.rs:118-146 | a comparison holds only when both sides have a date, so a box comparison needs the box checked; `And` of no parts holds and `Or` of no parts fails |
| Filter.All | src/filter.rs:121-124 | when `And` holds, its first and last parts hold |
| Filter.Any | src/filter.rs:121-125 | when `Or` fails, its first and last parts fail |
| Filter.AllIsEvery | src/filter.rs:121-124 | `And` holds iff every part holds, so on no parts it holds |
| Filter.AnyIsSome | src/filter.rs:121-125 | `Or` holds iff some part holds, so on no parts it fails |
| Filter.Negated | src/filter.rs:120 | every part, in order, under `Not` |
| Filter.NotAllIsAnyNot | src/filter.rs:120-125 | not all parts hold iff some negated part holds |
| Filter.CompareMirror | src/filter.rs:136-140 | `Leq` and `Geq` mirror each other, `Eq` is symmetric, and both inequalities together are `Eq` |
| Filter.CheckedBoxFilter | src/filter.rs:143-156 | the `Box` filter needs the box to exist, a date comparison on it needs it checked |
| Filter.Matching | src/filter.rs:84-93 | the visible list has valid data indices and at most as many entries as there are tasks |
| Filter.MatchingSpec | src/filter.rs:84-93 | the visible list is ascending and holds exactly the indices of the tasks the filter admits |
| Filter.MatchingAll | src/filter.rs:16-22 | without a filter every task is visible |
| Filter.MatchingUpdate | src/filter.rs:75-82 | after a visible task changes, the list changes only at that position: kept if still admitted, dropped otherwise |
| Filter.FilteredData.constructor | src/filter.rs:16-22 | no filter and every index visible, which is the admitted list |
| Filter.FilteredData.Len | src/filter.rs:29-31 | the number of visible rows: at most the number of tasks, and all of them without a filter |
| Filter.FilteredData.GetId | src/filter.rs:36-38 | the data index of a visible row is a task the filter admits |
| Filter.FilteredData.GetMut | src/filter.rs:43-46 | none iff the row is past the end; otherwise the task of that row |
| Filter.FilteredData.RecalculateIsVisible | src/filter.rs:75-82 | without a filter nothing changes; otherwise the row is dropped iff its task fails |
| Filter.FilteredData.SetFilter | src/filter.rs:84-96 | a parse error changes nothing; otherwise the filter is kept and the visible list is the admitted list |
| Filter.FilteredData.SetCompleted | src/filter.rs:47-50 | the row's task is updated and the visible list stays the admitted list |
| Filter.FilteredData.PushBox | src/filter.rs:51-54 | the row's task is updated and the visible list stays the admitted list |
| Filter.FilteredData.StepBoxState | src/filter.rs:55-59 | the row's task is stepped, its result returned, and the visible list stays the admitted list |
| Filter.FilteredData.RemoveEmptyState | src/filter.rs:60-63 | the row's task is updated and the visible list stays the admitted list |
| Filter.FilteredData.Push | src/filter.rs:68-74 | the task is appended, and it is visible iff the filter admits it |
| Filter.PushAsWrittenWhileAllVisible | src/filter.rs:68-74 | while every task is visible, `push` as written agrees with the corrected one |
| Filter.PushAsWrittenPanics | src/filter.rs:68-74 | with a filter hiding some task, `push` as written indexes past the visible list |
| Filter.PushAsWrittenExample | src/filter.rs:68-74 | one task hidden by `completed`, then a push: the out-of-range case |
| Filter.PushAsWritten | src/filter.rs:68-74 | without a filter the new index is appended; with a filter and some task hidden, it indexes past the visible list; otherwise the list grows by at most one |
| Table.Next | src/tui/table.rs:83-98 | unchanged on an empty table; otherwise a row below the length, the next one modulo the length, 0 from nothing or past the end |
| Table.Prev | src/tui/table.rs:99-114 | unchanged on an empty table; otherwise the previous row modulo the length, the last from nothing, one less from past the end |
| Table.NextPrevInverse | src/tui/table.rs:83-114 | on a selected row, `prev_row` undoes `next_row` and the other way round |
| Table.NextCycles | src/tui/table.rs:83-98 | `k` presses of Down move `k` rows around, so the length of presses comes back |
| Table.TableTui.constructor | src/tui/table.rs:26-30 | nothing is selected |
| Table.TableTui.NextRow | src/tui/table.rs:83-98 | the selection becomes `Next` of the old one |
| Table.TableTui.PrevRow | src/tui/table.rs:99-114 | the selection becomes `Prev` of the old one |
| Table.TableTui.SetSelected | src/tui/table.rs:115-120 | selects the row with no bounds check, and `selected` reads it back |
| Editor.SaturatingSub | src/tui/task/editor.rs:52 | the difference, stopping at 0 |
| Editor.ScrolledUp | src/tui/task/editor.rs:51-53 | one line up, stopping at 0 |
| Editor.ScrolledDown | src/tui/task/editor.rs:54-60 | grows by at most one, stays below the line count, and snaps back to the last line |
| Editor.ScrollRoundTrip | src/tui/task/editor.rs:51-60 | down then up, and up then down, return while there is room |
| Editor.ScrollDownTimes | src/tui/task/editor.rs:54-60 | `k` presses of Down move `k` lines and then rest on the last line |
| Editor.SwitchedOffset | src/tui/task/editor.rs:86-90 | the last line sits on the bottom row of a taller text, and the view starts at the top otherwise |
| Editor.EditorTui.constructor | src/tui/task/editor.rs:21-26 | offset 0 and no line count |
| Editor.EditorTui.ScrollUp | src/tui/task/editor.rs:51-53 | the offset becomes `ScrolledUp` of the old one |
| Editor.EditorTui.ScrollDown | src/tui/task/editor.rs:54-60 | without a line count nothing changes; otherwise the offset becomes `ScrolledDown` |
| Editor.EditorTui.HandleKeyEvent | src/tui/task/editor.rs:28-49 | unlocked: Enter locks, other keys are handed back; locked: Esc unlocks, Up and Down scroll, other keys are handed back unchanged |
| Editor.EditorTui.Render | src/tui/task/editor.rs:86-91 | a newly shown text takes `SwitchedOffset` of its line count (`Rope.LineCount`, the rope's `line_len`), and that line count is kept |

## Left out

- Parsing: the front-matter field parser (`src/storage.rs:326-447`) and the
  filter expression parser (`src/filter.rs:203-334`). `LoadTask` takes the
  field parser as a parameter. `FilteredData.SetFilter` takes the parser's
  result.
- File and directory I/O: `Data::load`, `load_dir` and `write_dirty`.
  `from_string` takes the file stem as a parameter. `Data`'s source
  directory is not held.
- Dates are integers. Date formatting is a parameter of `Display`; the
  round trip assumes it writes no newline and no line ending in `---`.
- Unicode classification (`is_alphanumeric`, `is_whitespace`,
  `is_inline_whitespace`) is a parameter `CharClasses`. Only `'\n'` is a
  newline.
- A task's context is held as a string. Its per-task `TextEditable` and undo
  log live in `TextEdit`, not inside `Task`.
- Task tags: the `tags` of a task are a parameter of the evaluator and of
  `FilteredData` (`tagsOf`).
- Filter.FilteredData.GetMut: returns the data index of the task rather than
  a mutable reference. Changes a caller makes through that reference bypass
  the visible-list recheck, and are not modelled.
- `FilteredData::iter`, `len`, `is_empty` and `get`, and `Data::tasks`, are
  read accessors with no logic; `Len` is the only one modelled, and the table reads it.
- Rendering: widgets, layout, the scrollbar, and drawing the visible lines.
  Only the state `render` updates is modelled.
- `TableTui::handle_key_event` and the osascript timer thread it spawns.
- The terminal key event keeps only its code and the Alt and Ctrl
  modifiers.
- Integer widths: `usize` arithmetic is unbounded here. No wrap-around is
  reachable in the modelled operations.
- TextEdit.Handle: the word counter is the corrected one (characters of the
  first phase skipped by number, `src/storage/text_edit.rs:206`). With
  '\n' as the only newline and one-byte inline whitespace it equals the
  program's (`TextScan.WordBoundaryAsWrittenAgreesNarrow`); the program's
  counter on multi-byte newlines (U+0085, U+2028, U+2029) is not modelled.
- TextEdit.HandleCursorValid: for the program's cursor rule, validity is
  promised only when the edit carries no text ending in a newline after
  another character; `TextEdit.UndoAsWrittenLeavesBuffer` shows the program
  can leave the buffer otherwise.
- TextEdit.EditThenUndo: under the program's cursor rule, where the cursor
  lands after undoing a deletion is not promised; it is the rule's cursor
  for the re-insertion (`TextEdit.RecordThenUndo`), wrong when the deleted
  text ends in a newline after another character.
- KeyboardEdit.KeyboardEditable.Cursor: the getter promises nothing. The
  cursor stays a position of the buffer under the corrected rule, and under
  the program's rule after every key-mapped insertion, deletion and move; an
  Undo or Redo (Ctrl+z, Ctrl+r) of a text ending in a newline after another
  character can leave it outside the buffer (`CursorValid` in the contract
  of `ApplyTextOp`, `TextEdit.UndoAsWrittenLeavesBuffer`).
- KeyboardEdit.KeyboardEditable.ApplyTextOp: under the program's rule, a
  valid cursor is promised to stay valid only when the edit carries no text
  ending in a newline after another character (an Undo or Redo of such an
  insertion can leave the buffer).
- SpanEdit.Apply: requires the deletion's start not to follow its end
  (`DeleteOrdered`), as `Rope::remove` panics on a reversed range; every
  edit the handler builds or replays is ordered (`TextEdit.ReplayOrdered`).
  The logged inverse is the model's own choice, since the program's
  `apply_edit` builds none.
- Storage.ResolveWritten: resolves `WrittenFields`, the fields `Display`
  stands for, not what the field parser (not part of this model) reads back
  from the written text. From the parser's source the two differ in two
  cases: an extra field holding a box list is written as `key: `, its box
  lines, then an empty line, which `parse_fields` and `field`
  (`src/storage.rs:369-447`) do not accept, so the file does not read
  back; and a text value with leading blanks loses them to
  `inline_whitespace()` (`src/storage.rs:440`). Neither is executed here.
- SpanEdit.PosFromByte: requires a byte inside the buffer to be a char
  boundary, standing for crop's `byte_slice` panic inside a character. The
  only program path that could reach it is the word scan as written over
  multi-byte newlines, which this model does not express.
- Storage.ShowSplits: requires each extra field to be safe to write
  (`SafeField`: a key without newline, a text value without newline and not
  ending in `---`); a field that breaks this writes a file that does not
  read back.

## Findings

| source | as written | input that shows it | evidently intended | confidence | as-written member | corrected member |
|---|---|---|---|---|---|---|
| src/storage/text_edit.rs:138-142 | an insertion holding a newline takes the column from `str::lines().last()`, which ignores a final newline | re-inserting "ab\n" at (0, 0), as undo does after Alt+Backspace deleted "ab\n": cursor (1, 2), outside the buffer "ab\n"; in the buffer "ab\ncd" the same undo gives (1, 2), a valid but wrong position | the column is the character count after the last newline, (1, 0) | not executed | SpanEdit.CalcCursorPosAsWritten, SpanEdit.CalcCursorPosAsWrittenLeavesBuffer, TextEdit.UndoAsWrittenLeavesBuffer | SpanEdit.CalcCursorPos, SpanEdit.ApplyCursorValid, TextEdit.HandleCursorValid |
| src/storage/text_edit.rs:206 | the word scan skips `count` characters, but `count` is a number of bytes | with character classes where U+3000 is inline whitespace, a word move right over "　éxy": count 4, inside 'é'. chumsky's inline whitespace is only ' ' and '\t', so in the program the trigger is a run of multi-byte newlines: "\u{2028}ab cd" from (0, 0) gives count 4, landing at (0, 2) inside "ab" instead of (0, 3); this model's newline is '\n' only and cannot express that input | skip the characters of the first phase by their number | not executed | TextScan.WordBoundaryBytesAsWritten, TextScan.WordBoundaryAsWrittenSplitsChar | TextScan.CountBytesTillWordBoundary, TextScan.WordBoundaryAsWrittenAgrees, TextScan.WordBoundaryAsWrittenAgreesNarrow |
| src/filter.rs:68-74 | `push` rechecks `visible[new_index]`, using the new data index as a visible position | a filter `completed` hiding the one task, then any push: index 1 of a one-element visible list | recheck the new entry's visible position, the last one | not executed | Filter.PushAsWritten, Filter.PushAsWrittenPanics | Filter.FilteredData.Push |
