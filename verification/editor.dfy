/** The scroll state and focus of a task's text view (src/tui/task/editor.rs). */
module Editor {
  import opened Wrappers
  import T = Terminal
  import opened Rope

  /** Whether the view takes the arrow keys (`Locked`) or passes them on (`Unlocked`). */
  datatype EditorFocus = Unlocked | Locked

  /** What the view hands back to its caller for a key it does not use. */
  datatype Action = Unhandled

  /** Subtraction that stops at 0 (`usize::saturating_sub`). */
  function SaturatingSub(a: nat, b: nat): (r: nat)
    ensures r + b >= a && (a >= b ==> r + b == a) && (a < b ==> r == 0)
  {
    if a >= b then a - b else 0
  }

  /** The offset after `scroll_up`: one line up, stopping at the top. */
  function ScrolledUp(offset: nat): (r: nat)
    ensures offset > 0 ==> r + 1 == offset
    ensures offset == 0 ==> r == 0
  {
    SaturatingSub(offset, 1)
  }

  /**
   * The offset after `scroll_down` on a text of `lines` lines: one line down,
   * never past the last line; an offset already past the last line snaps
   * back to it.
   */
  function ScrolledDown(offset: nat, lines: nat): (r: nat)
    ensures r <= offset + 1
    ensures lines > 0 ==> r < lines
    ensures lines == 0 ==> r == 0
    ensures offset + 1 < lines ==> r == offset + 1
    ensures 0 < lines <= offset + 1 ==> r == lines - 1
  {
    SaturatingSub(if offset + 2 < lines then offset + 2 else lines, 1)
  }

  /** Scrolling down then up comes back while there is a line below; up then down too, off the top line. */
  lemma ScrollRoundTrip(offset: nat, lines: nat)
    ensures offset + 1 < lines ==> ScrolledUp(ScrolledDown(offset, lines)) == offset
    ensures 0 < offset < lines ==> ScrolledDown(ScrolledUp(offset), lines) == offset
  {
  }

  /** `k` presses of Down. */
  function ScrolledDownTimes(offset: nat, lines: nat, k: nat): nat {
    if k == 0 then offset else ScrolledDown(ScrolledDownTimes(offset, lines, k - 1), lines)
  }

  /** From an offset inside the text, `k` presses of Down move `k` lines and then rest on the last line. */
  lemma {:induction false} ScrollDownTimes(offset: nat, lines: nat, k: nat)
    requires offset < lines
    ensures ScrolledDownTimes(offset, lines, k) == if offset + k < lines then offset + k else lines - 1
  {
    if k > 0 {
      ScrollDownTimes(offset, lines, k - 1);
    }
  }

  /**
   * The offset a newly shown text gets: the last line sits on the bottom row
   * when the text is taller than the view, and the view starts at the top
   * otherwise.
   */
  function SwitchedOffset(lineLen: nat, height: nat): (r: nat)
    ensures r + height >= lineLen && r <= lineLen
    ensures lineLen <= height ==> r == 0
    ensures lineLen > height ==> r + height == lineLen
  {
    (if lineLen >= height then lineLen else height) - height
  }

  /** `EditorTui`: the first line shown, and the line count of the text drawn last. */
  class EditorTui {
    var viewOffset: nat
    var lastLineCount: Option<nat>

    /** `new`: at the top, with no text drawn yet. */
    constructor ()
      ensures viewOffset == 0 && lastLineCount.None?
    {
      viewOffset := 0;
      lastLineCount := None;
    }

    /** `scroll_up`. */
    method ScrollUp()
      modifies this
      ensures viewOffset == ScrolledUp(old(viewOffset)) && lastLineCount == old(lastLineCount)
    {
      viewOffset := SaturatingSub(viewOffset, 1);
    }

    /** `scroll_down`: nothing before a text was drawn, since the line count is not known. */
    method ScrollDown()
      modifies this
      ensures lastLineCount == old(lastLineCount)
      ensures viewOffset == if lastLineCount.Some? then ScrolledDown(old(viewOffset), lastLineCount.value) else old(viewOffset)
    {
      if lastLineCount.None? {
        return;
      }
      var lines := lastLineCount.value;
      viewOffset := SaturatingSub(if viewOffset + 2 < lines then viewOffset + 2 else lines, 1);
    }

    /**
     * `handle_key_event`: unlocked, Enter locks the view and every other key
     * is handed back; locked, Esc unlocks, Up and Down scroll, and every
     * other key is handed back with nothing changed.
     */
    method HandleKeyEvent(ev: T.KeyEvent, focus: EditorFocus) returns (action: Option<Action>, newFocus: EditorFocus)
      modifies this
      ensures action.Some? <==> if focus.Unlocked? then !ev.code.Enter? else !(ev.code.Esc? || ev.code.Up? || ev.code.Down?)
      ensures newFocus == if focus.Unlocked? && ev.code.Enter? then Locked else if focus.Locked? && ev.code.Esc? then Unlocked else focus
      ensures lastLineCount == old(lastLineCount)
      ensures viewOffset ==
        if focus.Locked? && ev.code.Up? then ScrolledUp(old(viewOffset))
        else if focus.Locked? && ev.code.Down? && lastLineCount.Some? then ScrolledDown(old(viewOffset), lastLineCount.value)
        else old(viewOffset)
    {
      newFocus := focus;
      action := None;
      match focus
      case Unlocked =>
        if ev.code.Enter? {
          newFocus := Locked;
        } else {
          action := Some(Unhandled);
        }
      case Locked =>
        match ev.code
        case Esc => newFocus := Unlocked;
        case Up => ScrollUp();
        case Down => ScrollDown();
        case _ => action := Some(Unhandled);
    }

    /**
     * The state part of drawing `text` in a view of `height` rows: a newly
     * shown text scrolls its last line into view, and its line count (the
     * rope's `line_len`) is kept for `scroll_down`.
     */
    method Render(text: Text, height: nat, switchedText: bool)
      modifies this
      ensures viewOffset == if switchedText then SwitchedOffset(LineCount(text), height) else old(viewOffset)
      ensures lastLineCount == Some(LineCount(text))
    {
      var lineLen := LineCount(text);
      if switchedText {
        viewOffset := (if lineLen >= height then lineLen else height) - height;
      }
      lastLineCount := Some(lineLen);
    }
  }
}
