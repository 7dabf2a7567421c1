/** The selection of the task table (src/tui/table.rs). */
module Table {
  import opened Wrappers
  import Filter

  /** A product of a positive factor and a factor of at least 1 is at least the first. */
  lemma MulAtLeast(x: int, len: int)
    requires x >= 1 && len > 0
    ensures x * len >= len
  {
    assert x * len == (x - 1) * len + len;
  }

  /** Quotient and remainder are unique. */
  lemma ModUnique(a: int, len: int, q: int, r: int)
    requires len > 0 && 0 <= r < len && a == q * len + r
    ensures a % len == r
  {
    var q', r' := a / len, a % len;
    assert (q - q') * len == r' - r;
    if q > q' {
      MulAtLeast(q - q', len);
      assert false;
    } else if q < q' {
      MulAtLeast(q' - q, len);
      assert false;
    }
  }

  /** A step forward from `a`'s remainder is the next remainder, wrapping to 0 at `len`. */
  lemma ModStep(a: nat, len: nat)
    requires len > 0
    ensures a % len + 1 < len ==> (a + 1) % len == a % len + 1
    ensures a % len + 1 == len ==> (a + 1) % len == 0
  {
    var q, r := a / len, a % len;
    if r + 1 < len {
      ModUnique(a + 1, len, q, r + 1);
    } else {
      assert a + 1 == (q + 1) * len + 0;
      ModUnique(a + 1, len, q + 1, 0);
    }
  }

  /**
   * The row `next_row` selects: nothing changes on an empty table; otherwise
   * the row after the selected one, wrapping to the first, and the first
   * row when nothing is selected.
   */
  function Next(selected: Option<nat>, len: nat): (r: Option<nat>)
    ensures len == 0 ==> r == selected
    ensures len > 0 ==> r.Some? && r.value < len
    ensures len > 0 && selected.None? ==> r == Some(0)
    ensures len > 0 && selected.Some? && selected.value < len ==> r == Some((selected.value + 1) % len)
    ensures len > 0 && selected.Some? && selected.value >= len ==> r == Some(0)
  {
    if len == 0 then selected
    else
      match selected
      case Some(i) =>
        if i + 1 >= len then
          if i < len then ModUnique(i + 1, len, 1, 0); Some(0) else Some(0)
        else
          ModUnique(i + 1, len, 0, i + 1); Some(i + 1)
      case None => Some(0)
  }

  /**
   * The row `prev_row` selects: nothing changes on an empty table; otherwise
   * the row before the selected one, wrapping to the last, and the last row
   * when nothing is selected. A selection past the end stays past the end
   * unless it was just one past it.
   */
  function Prev(selected: Option<nat>, len: nat): (r: Option<nat>)
    ensures len == 0 ==> r == selected
    ensures len > 0 ==> r.Some?
    ensures len > 0 && selected.None? ==> r == Some(len - 1)
    ensures len > 0 && selected.Some? && selected.value < len ==> r == Some((selected.value + len - 1) % len) && r.value < len
    ensures len > 0 && selected.Some? && selected.value > 0 ==> r == Some(selected.value - 1)
  {
    if len == 0 then selected
    else
      match selected
      case Some(i) =>
        if i == 0 then
          ModUnique(len - 1, len, 0, len - 1); Some(len - 1)
        else
          if i < len then ModUnique(i + len - 1, len, 1, i - 1); Some(i - 1) else Some(i - 1)
      case None => Some(len - 1)
  }

  /** On a selected row of a non-empty table, `prev_row` undoes `next_row` and the other way round. */
  lemma NextPrevInverse(i: nat, len: nat)
    requires i < len
    ensures Prev(Next(Some(i), len), len) == Some(i)
    ensures Next(Prev(Some(i), len), len) == Some(i)
  {
  }

  /** `k` presses of Down. */
  function NextTimes(selected: Option<nat>, len: nat, k: nat): Option<nat> {
    if k == 0 then selected else Next(NextTimes(selected, len, k - 1), len)
  }

  /** Pressing Down `k` times moves `k` rows forward around the table, so `len` presses come back to the start. */
  lemma {:induction false} NextCycles(i: nat, len: nat, k: nat)
    requires i < len
    ensures NextTimes(Some(i), len, k) == Some((i + k) % len)
    ensures k == len ==> NextTimes(Some(i), len, k) == Some(i)
  {
    if k > 0 {
      NextCycles(i, len, k - 1);
      ModStep(i + k - 1, len);
    }
    if k == len {
      ModUnique(i + len, len, 1, i);
    }
  }

  /** `TableTui`: the table's selected row, if any. */
  class TableTui {
    var selected: Option<nat>

    /** `new`: nothing selected. */
    constructor ()
      ensures selected.None?
    {
      selected := None;
    }

    /** `next_row`. */
    method NextRow(data: Filter.FilteredData)
      modifies this
      ensures selected == Next(old(selected), data.Len())
    {
      if data.Len() == 0 {
        return;
      }
      var i := match selected
        case Some(i) => if i + 1 >= data.Len() then 0 else i + 1
        case None => 0;
      selected := Some(i);
    }

    /** `prev_row`. */
    method PrevRow(data: Filter.FilteredData)
      modifies this
      ensures selected == Prev(old(selected), data.Len())
    {
      if data.Len() == 0 {
        return;
      }
      var i := match selected
        case Some(i) => if i == 0 then data.Len() - 1 else i - 1
        case None => data.Len() - 1;
      selected := Some(i);
    }

    /** `selected`. */
    function Selected(): Option<nat>
      reads this
    {
      selected
    }

    /** `set_selected`: selects the row with no bounds check; `selected` reads it back. */
    method SetSelected(index: nat)
      modifies this
      ensures Selected() == Some(index)
    {
      selected := Some(index);
    }
  }
}
