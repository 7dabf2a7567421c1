/**
 * Filter expressions over tasks and the list of visible tasks
 * (src/filter.rs): the evaluator, and `FilteredData`, which keeps the data
 * indices of the tasks the current filter admits.
 */
module Filter {
  import opened Wrappers
  import opened Storage

  /** How a compound expression combines its parts. */
  datatype Comb = And | Or

  /** The date comparisons. */
  datatype Comp = Leq | Geq | Eq

  /** An expression standing for a date of a task, or for a fixed date. */
  datatype DateExpr = Literal(date: Date) | Box(index: nat) | Completed | Created

  /** A filter expression. */
  datatype BooleanExpr =
    | Not(operand: BooleanExpr)
    | Compound(combinator: Comb, exprs: seq<BooleanExpr>)
    | Comparison(comparator: Comp, lhs: DateExpr, rhs: DateExpr)
    | Tag(tag: string)
    | Box(index: nat)
    | Completed

  // ----- Evaluation -----

  /** `eval`: the date `e` stands for in `task`; only a box that is not checked, or a missing completion, has none. */
  function Eval(task: Task, e: DateExpr): (r: Option<Date>)
    ensures r.None? <==> (e.Box? && (e.index >= |task.boxes| || !task.boxes[e.index].Checked?)) || (e.Completed? && task.completed.None?)
  {
    match e
    case Literal(d) => Some(d)
    case Box(i) => if i < |task.boxes| && task.boxes[i].Checked? then Some(task.boxes[i].at) else None
    case Completed => task.completed
    case Created => Some(task.created)
  }

  /** A comparison of two evaluated dates: false as soon as either side has no date. */
  function Compare(op: Comp, lhs: Option<Date>, rhs: Option<Date>): (b: bool)
    ensures b ==> lhs.Some? && rhs.Some?
  {
    if lhs.None? || rhs.None? then false
    else
      match op
      case Leq => lhs.value <= rhs.value
      case Geq => lhs.value >= rhs.value
      case Eq => lhs.value == rhs.value
  }

  /** `satisfies`: whether `task`, with tags `tags`, passes `e`. */
  function Satisfies(task: Task, tags: seq<string>, e: BooleanExpr): (r: bool)
    ensures e.Comparison? && r ==> Eval(task, e.lhs).Some? && Eval(task, e.rhs).Some?
    ensures e.Comparison? && e.lhs.Box? && r ==> e.lhs.index < |task.boxes| && task.boxes[e.lhs.index].Checked?
    ensures e.Compound? && e.exprs == [] ==> (r <==> e.combinator == And)
  {
    match e
    case Not(x) => !Satisfies(task, tags, x)
    case Compound(c, es) => if c == And then All(task, tags, es) else Any(task, tags, es)
    case Comparison(op, l, r) => Compare(op, Eval(task, l), Eval(task, r))
    case Tag(t) => t in tags
    case Box(i) => i < |task.boxes|
    case Completed => task.completed.Some?
  }

  /** `Iterator::all` over the parts, left to right. */
  function All(task: Task, tags: seq<string>, es: seq<BooleanExpr>): (r: bool)
    ensures r && es != [] ==> Satisfies(task, tags, es[0]) && Satisfies(task, tags, es[|es| - 1])
  {
    if es == [] then true else Satisfies(task, tags, es[0]) && All(task, tags, es[1..])
  }

  /** `Iterator::any` over the parts, left to right. */
  function Any(task: Task, tags: seq<string>, es: seq<BooleanExpr>): (r: bool)
    ensures !r && es != [] ==> !Satisfies(task, tags, es[0]) && !Satisfies(task, tags, es[|es| - 1])
  {
    if es == [] then false else Satisfies(task, tags, es[0]) || Any(task, tags, es[1..])
  }

  /** `And` holds iff every part holds, so it holds on no parts. */
  lemma {:induction false} AllIsEvery(task: Task, tags: seq<string>, es: seq<BooleanExpr>)
    ensures All(task, tags, es) <==> forall i :: 0 <= i < |es| ==> Satisfies(task, tags, es[i])
  {
    if es != [] {
      AllIsEvery(task, tags, es[1..]);
      assert forall i :: 1 <= i < |es| ==> es[i] == es[1..][i - 1];
    }
  }

  /** `Or` holds iff some part holds, so it fails on no parts. */
  lemma {:induction false} AnyIsSome(task: Task, tags: seq<string>, es: seq<BooleanExpr>)
    ensures Any(task, tags, es) <==> exists i :: 0 <= i < |es| && Satisfies(task, tags, es[i])
  {
    if es != [] {
      AnyIsSome(task, tags, es[1..]);
      assert forall i :: 1 <= i < |es| ==> es[i] == es[1..][i - 1];
    }
  }

  /** Every part negated. */
  function Negated(es: seq<BooleanExpr>): (r: seq<BooleanExpr>)
    ensures |r| == |es| && forall i :: 0 <= i < |es| ==> r[i] == Not(es[i])
  {
    if es == [] then [] else [Not(es[0])] + Negated(es[1..])
  }

  /** De Morgan: not all parts hold iff some negated part holds. */
  lemma NotAllIsAnyNot(task: Task, tags: seq<string>, es: seq<BooleanExpr>)
    ensures Satisfies(task, tags, Not(Compound(And, es))) == Satisfies(task, tags, Compound(Or, Negated(es)))
  {
    AllIsEvery(task, tags, es);
    AnyIsSome(task, tags, Negated(es));
    if !All(task, tags, es) {
      var i :| 0 <= i < |es| && !Satisfies(task, tags, es[i]);
      assert Satisfies(task, tags, Negated(es)[i]);
    }
  }

  /** `Leq` and `Geq` are mirror images, and `Eq` is symmetric. */
  lemma CompareMirror(lhs: Option<Date>, rhs: Option<Date>)
    ensures Compare(Leq, lhs, rhs) == Compare(Geq, rhs, lhs)
    ensures Compare(Eq, lhs, rhs) == Compare(Eq, rhs, lhs)
    ensures Compare(Leq, lhs, rhs) && Compare(Geq, lhs, rhs) <==> Compare(Eq, lhs, rhs)
  {
  }

  /**
   * The `Box` filter asks only that the box exists, while a date comparison
   * on the same box needs it checked: a comparison of a box with itself holds
   * exactly for a checked box, and then the `Box` filter holds too.
   */
  lemma CheckedBoxFilter(task: Task, tags: seq<string>, i: nat)
    ensures Satisfies(task, tags, BooleanExpr.Box(i)) <==> i < |task.boxes|
    ensures Satisfies(task, tags, Comparison(Eq, DateExpr.Box(i), DateExpr.Box(i))) <==> i < |task.boxes| && task.boxes[i].Checked?
    ensures Satisfies(task, tags, Comparison(Eq, DateExpr.Box(i), DateExpr.Box(i))) ==> Satisfies(task, tags, BooleanExpr.Box(i))
  {
  }

  // ----- The visible tasks -----

  /** The filter admits a task: there is no filter, or the task satisfies it. */
  function Admits(filter: Option<BooleanExpr>, task: Task, tags: seq<string>): bool {
    filter.None? || Satisfies(task, tags, filter.value)
  }

  /** Strictly ascending. */
  predicate Ascending(s: seq<nat>) {
    forall a, b :: 0 <= a < b < |s| ==> s[a] < s[b]
  }

  /** The indices of the tasks the filter admits, in ascending order (what `set_filter` collects). */
  function Matching(tasks: seq<Task>, filter: Option<BooleanExpr>, tagsOf: Task -> seq<string>): (r: seq<nat>)
    ensures |r| <= |tasks| && forall k :: 0 <= k < |r| ==> r[k] < |tasks|
  {
    if tasks == [] then []
    else
      var n := |tasks| - 1;
      Matching(tasks[..n], filter, tagsOf) + (if Admits(filter, tasks[n], tagsOf(tasks[n])) then [n] else [])
  }

  /** `Matching` lists, in ascending order, exactly the indices of the admitted tasks. */
  lemma {:induction false} MatchingSpec(tasks: seq<Task>, filter: Option<BooleanExpr>, tagsOf: Task -> seq<string>)
    ensures var r := Matching(tasks, filter, tagsOf);
      && Ascending(r)
      && forall i :: 0 <= i < |tasks| ==> (i in r <==> Admits(filter, tasks[i], tagsOf(tasks[i])))
  {
    if tasks != [] {
      var n := |tasks| - 1;
      var init := tasks[..n];
      MatchingSpec(init, filter, tagsOf);
      assert forall i :: 0 <= i < n ==> init[i] == tasks[i];
    }
  }

  /** `0, 1, ..., n - 1`. */
  function Range(n: nat): (r: seq<nat>)
    ensures |r| == n && forall i :: 0 <= i < n ==> r[i] == i
  {
    if n == 0 then [] else Range(n - 1) + [n - 1]
  }

  /** Without a filter every task is visible. */
  lemma {:induction false} MatchingAll(tasks: seq<Task>, tagsOf: Task -> seq<string>)
    ensures Matching(tasks, None, tagsOf) == Range(|tasks|)
  {
    if tasks != [] {
      MatchingAll(tasks[..|tasks| - 1], tagsOf);
    }
  }

  /** Whether a hidden task was dropped at the position of the task that changed. */
  function DropAt(s: seq<nat>, pos: nat, keep: bool): seq<nat>
    requires pos < |s|
  {
    if keep then s else s[..pos] + s[pos + 1..]
  }

  /** Dropping inside the first part of a concatenation leaves the second alone. */
  lemma DropAtAppend(a: seq<nat>, b: seq<nat>, pos: nat, keep: bool)
    requires pos < |a|
    ensures DropAt(a + b, pos, keep) == DropAt(a, pos, keep) + b
  {
    if !keep {
      assert (a + b)[..pos] == a[..pos];
      assert (a + b)[pos + 1..] == a[pos + 1..] + b;
    }
  }

  /** Replacing the last task decides only whether the last index is listed. */
  lemma MatchingReplaceLast(tasks: seq<Task>, filter: Option<BooleanExpr>, tagsOf: Task -> seq<string>, t: Task)
    requires tasks != []
    ensures var n := |tasks| - 1;
      Matching(tasks[n := t], filter, tagsOf)
        == Matching(tasks[..n], filter, tagsOf) + (if Admits(filter, t, tagsOf(t)) then [n] else [])
  {
    var n := |tasks| - 1;
    assert tasks[n := t][..n] == tasks[..n];
  }

  /**
   * Changing a visible task changes the visible list only at that task's
   * position: it stays if the new task is still admitted and is dropped
   * otherwise.
   */
  /** The step of `MatchingUpdate` where the changed task is the last one. */
  lemma MatchingUpdateLast(tasks: seq<Task>, filter: Option<BooleanExpr>, tagsOf: Task -> seq<string>, pos: nat, t: Task)
    requires pos < |Matching(tasks, filter, tagsOf)| && Matching(tasks, filter, tagsOf)[pos] == |tasks| - 1
    ensures var m := Matching(tasks, filter, tagsOf);
      Matching(tasks[m[pos] := t], filter, tagsOf) == DropAt(m, pos, Admits(filter, t, tagsOf(t)))
  {
    var m := Matching(tasks, filter, tagsOf);
    var n := |tasks| - 1;
    var prev := Matching(tasks[..n], filter, tagsOf);
    var tail := if Admits(filter, tasks[n], tagsOf(tasks[n])) then [n] else [];
    assert m == prev + tail;
    assert forall j :: 0 <= j < |prev| ==> m[j] == prev[j] < n;
    assert pos == |prev| && tail == [n];
    assert m[..pos] + m[pos + 1..] == prev;
    MatchingReplaceLast(tasks, filter, tagsOf, t);
  }

  lemma {:induction false} MatchingUpdate(tasks: seq<Task>, filter: Option<BooleanExpr>, tagsOf: Task -> seq<string>, pos: nat, t: Task)
    requires pos < |Matching(tasks, filter, tagsOf)|
    ensures var m := Matching(tasks, filter, tagsOf);
      Matching(tasks[m[pos] := t], filter, tagsOf) == DropAt(m, pos, Admits(filter, t, tagsOf(t)))
  {
    var m := Matching(tasks, filter, tagsOf);
    var k := m[pos];
    var n := |tasks| - 1;
    var keep := Admits(filter, t, tagsOf(t));
    var prev := Matching(tasks[..n], filter, tagsOf);
    var tail := if Admits(filter, tasks[n], tagsOf(tasks[n])) then [n] else [];
    if k == n {
      MatchingUpdateLast(tasks, filter, tagsOf, pos, t);
    } else {
      assert pos < |prev| && prev[pos] == k by {
        assert m == prev + tail;
        assert forall j :: |prev| <= j < |m| ==> m[j] == n;
      }
      var u := tasks[k := t];
      assert Matching(u, filter, tagsOf) == Matching(tasks[..n][k := t], filter, tagsOf) + tail by {
        assert u[..n] == tasks[..n][k := t] && u[n] == tasks[n];
      }
      MatchingUpdate(tasks[..n], filter, tagsOf, pos, t);
      DropAtAppend(prev, tail, pos, keep);
      assert m == prev + tail;
    }
  }

  /** The data index of a task. */
  datatype TaskID = TaskID(index: nat)

  /**
   * `FilteredData`: the task list, the filter, and the data indices of the
   * visible tasks. Task tags are read through `tagsOf`, a parameter of the
   * model.
   */
  class FilteredData {
    const data: Data
    const tagsOf: Task -> seq<string>
    var visible: seq<nat>
    var filter: Option<BooleanExpr>

    /** The visible list is exactly the ascending indices of the tasks the filter admits. */
    ghost predicate Valid()
      reads this, data
    {
      visible == Matching(data.tasks, filter, tagsOf)
    }

    /** `new`: no filter, every task visible. */
    constructor (data: Data, tagsOf: Task -> seq<string>)
      ensures this.data == data && this.tagsOf == tagsOf
      ensures filter.None? && visible == Range(|data.tasks|)
      ensures Valid()
    {
      this.data := data;
      this.tagsOf := tagsOf;
      visible := Range(|data.tasks|);
      filter := None;
      new;
      MatchingAll(data.tasks, tagsOf);
    }

    /** `len`: the number of visible tasks; at most the number of tasks, and all of them without a filter. */
    function Len(): (n: nat)
      reads this, data
      ensures visible == Matching(data.tasks, filter, tagsOf) ==> n <= |data.tasks|
      ensures visible == Matching(data.tasks, filter, tagsOf) && filter.None? ==> n == |data.tasks|
    {
      if filter.None? then
        MatchingAll(data.tasks, tagsOf);
        |visible|
      else
        |visible|
    }

    /** `get_id`: the data index of the task at a visible position, a task the filter admits. */
    function GetId(visibleIndex: nat): (id: TaskID)
      requires Valid() && visibleIndex < |visible|
      reads this, data
      ensures id.index < |data.tasks| && Admits(filter, data.tasks[id.index], tagsOf(data.tasks[id.index]))
    {
      MatchingSpec(data.tasks, filter, tagsOf);
      assert visible[visibleIndex] in visible;
      TaskID(visible[visibleIndex])
    }

    /**
     * `get_mut`: the data index of the task at a visible position, or `None`
     * past the end; the caller receives that task to change.
     */
    function GetMut(index: nat): (r: Option<nat>)
      requires Valid()
      reads this, data
      ensures r.None? <==> index >= |visible|
      ensures r.Some? ==> r.value < |data.tasks| && r.value == GetId(index).index
    {
      if index < |visible| then Some(visible[index]) else None
    }

    /**
     * `recalculate_is_visible`: with a filter, the entry at the visible
     * position is dropped if its task no longer passes; it never adds one.
     */
    method RecalculateIsVisible(visibleIndex: nat)
      requires filter.Some? ==> visibleIndex < |visible| && visible[visibleIndex] < |data.tasks|
      modifies this
      ensures filter == old(filter)
      ensures filter.None? ==> visible == old(visible)
      ensures filter.Some? ==>
        var t := data.tasks[old(visible)[visibleIndex]];
        visible == DropAt(old(visible), visibleIndex, Satisfies(t, tagsOf(t), filter.value))
    {
      if filter.None? {
        return;
      }
      var t := data.tasks[visible[visibleIndex]];
      if !Satisfies(t, tagsOf(t), filter.value) {
        visible := visible[..visibleIndex] + visible[visibleIndex + 1..];
      }
    }

    /**
     * `set_filter`, given what the expression parser returned: a parse error
     * changes nothing; otherwise the visible list becomes the ascending
     * indices of the tasks the new filter admits (all of them for an empty
     * filter), and the filter is kept.
     */
    method SetFilter(parsed: Result<Option<BooleanExpr>, string>) returns (r: Result<(), string>)
      modifies this
      ensures r.Err? <==> parsed.Err?
      ensures parsed.Err? ==> visible == old(visible) && filter == old(filter)
      ensures parsed.Ok? ==> filter == parsed.value && Valid()
    {
      if parsed.Err? {
        return Err(parsed.error);
      }
      var expr := parsed.value;
      var tasks := data.tasks;
      var v: seq<nat> := [];
      for i := 0 to |tasks|
        invariant v == Matching(tasks[..i], expr, tagsOf)
      {
        assert tasks[..i + 1][..i] == tasks[..i];
        if Admits(expr, tasks[i], tagsOf(tasks[i])) {
          v := v + [i];
        }
      }
      assert tasks[..|tasks|] == tasks;
      visible := v;
      filter := expr;
      r := Ok(());
    }

    /** The wrappers' common step: task `k` at visible position `index` was replaced; recheck that position. */
    method Recheck(index: nat, ghost before: seq<Task>)
      requires index < |visible| && visible == Matching(before, filter, tagsOf)
      requires |data.tasks| == |before| && data.tasks == before[visible[index] := data.tasks[visible[index]]]
      modifies this
      ensures Valid() && filter == old(filter)
      ensures var t := data.tasks[old(visible)[index]];
        visible == DropAt(old(visible), index, Admits(filter, t, tagsOf(t)))
    {
      MatchingUpdate(before, filter, tagsOf, index, data.tasks[visible[index]]);
      RecalculateIsVisible(index);
    }

    /** `set_completed` at a visible position, then the recheck. */
    method SetCompleted(index: nat, value: Option<Date>)
      requires Valid() && index < |visible|
      modifies this, data
      ensures Valid() && filter == old(filter)
      ensures var k := old(visible)[index];
        && data.tasks == old(data.tasks)[k := old(data.tasks)[k].(dirty := true, completed := value)]
        && visible == DropAt(old(visible), index, Admits(filter, data.tasks[k], tagsOf(data.tasks[k])))
    {
      ghost var before := data.tasks;
      data.SetCompleted(visible[index], value);
      Recheck(index, before);
    }

    /** `push_box` at a visible position, then the recheck. */
    method PushBox(index: nat)
      requires Valid() && index < |visible|
      modifies this, data
      ensures Valid() && filter == old(filter)
      ensures var k := old(visible)[index];
        && data.tasks == old(data.tasks)[k := old(data.tasks)[k].(dirty := true, boxes := old(data.tasks)[k].boxes + [Empty])]
        && visible == DropAt(old(visible), index, Admits(filter, data.tasks[k], tagsOf(data.tasks[k])))
    {
      ghost var before := data.tasks;
      data.PushBox(visible[index]);
      Recheck(index, before);
    }

    /** `step_box_state` at a visible position, then the recheck; returns the new state of the box that moved. */
    method StepBoxState(index: nat, time: Date) returns (r: Option<BoxState>)
      requires Valid() && index < |visible|
      modifies this, data
      ensures Valid() && filter == old(filter)
      ensures var k := old(visible)[index];
        && data.tasks == old(data.tasks)[k := old(data.tasks)[k].(dirty := true, boxes := StepBoxes(old(data.tasks)[k].boxes, time).0)]
        && r == StepBoxes(old(data.tasks)[k].boxes, time).1
        && visible == DropAt(old(visible), index, Admits(filter, data.tasks[k], tagsOf(data.tasks[k])))
    {
      ghost var before := data.tasks;
      r := data.StepBoxState(visible[index], time);
      Recheck(index, before);
    }

    /** `remove_empty_state` at a visible position, then the recheck. */
    method RemoveEmptyState(index: nat)
      requires Valid() && index < |visible|
      modifies this, data
      ensures Valid() && filter == old(filter)
      ensures var k := old(visible)[index];
        && data.tasks == old(data.tasks)[k := old(data.tasks)[k].(
             dirty := old(data.tasks)[k].dirty || LastEmpty(old(data.tasks)[k].boxes).Some?,
             boxes := RemoveLastEmpty(old(data.tasks)[k].boxes))]
        && visible == DropAt(old(visible), index, Admits(filter, data.tasks[k], tagsOf(data.tasks[k])))
    {
      ghost var before := data.tasks;
      data.RemoveEmptyState(visible[index]);
      Recheck(index, before);
    }

    /**
     * `push` with the recheck at the new entry's visible position: the new
     * task is visible iff the filter admits it.
     */
    method Push(task: Task)
      requires Valid()
      modifies this, data
      ensures Valid() && filter == old(filter)
      ensures data.tasks == old(data.tasks) + [task.(dirty := true)]
      ensures var t := task.(dirty := true);
        visible == old(visible) + (if Admits(filter, t, tagsOf(t)) then [|old(data.tasks)|] else [])
    {
      var newIndex := |data.tasks|;
      ghost var before := data.tasks;
      visible := visible + [newIndex];
      data.Push(task);
      assert data.tasks[..newIndex] == before;
      RecalculateIsVisible(|visible| - 1);
      assert visible[..|visible|] == visible;
    }
  }

  /**
   * `push` as written: it rechecks `visible[new_index]` with the new task's
   * data index `new_index`. `None` stands for the out-of-range panic.
   */
  function PushAsWritten(tasks: seq<Task>, visible: seq<nat>, filter: Option<BooleanExpr>, tagsOf: Task -> seq<string>, task: Task): (r: Option<seq<nat>>)
    ensures filter.None? ==> r == Some(visible + [|tasks|])
    ensures filter.Some? && |visible| < |tasks| ==> r.None?
    ensures r.Some? ==> |visible| <= |r.value| <= |visible| + 1
  {
    var newIndex := |tasks|;
    var v := visible + [newIndex];
    var ts := tasks + [task.(dirty := true)];
    if filter.None? then Some(v)
    else if newIndex >= |v| || v[newIndex] >= |ts| then None
    else
      var t := ts[v[newIndex]];
      Some(DropAt(v, newIndex, Satisfies(t, tagsOf(t), filter.value)))
  }

  /** While every task is visible, `push` as written rechecks the right entry and agrees with `FilteredData.Push`. */
  lemma PushAsWrittenWhileAllVisible(tasks: seq<Task>, filter: Option<BooleanExpr>, tagsOf: Task -> seq<string>, task: Task)
    requires |Matching(tasks, filter, tagsOf)| == |tasks|
    ensures var t := task.(dirty := true);
      PushAsWritten(tasks, Matching(tasks, filter, tagsOf), filter, tagsOf, task)
        == Some(Matching(tasks, filter, tagsOf) + (if Admits(filter, t, tagsOf(t)) then [|tasks|] else []))
  {
    var m := Matching(tasks, filter, tagsOf);
    var v := m + [|tasks|];
    assert v[|tasks|] == |tasks|;
    assert v[..|tasks|] + v[|tasks| + 1..] == m;
  }

  /** With a filter set and some task hidden, `push` as written indexes past the end of the visible list. */
  lemma PushAsWrittenPanics(tasks: seq<Task>, filter: Option<BooleanExpr>, tagsOf: Task -> seq<string>, task: Task)
    requires filter.Some? && |Matching(tasks, filter, tagsOf)| < |tasks|
    ensures PushAsWritten(tasks, Matching(tasks, filter, tagsOf), filter, tagsOf, task).None?
  {
  }

  /** One task, hidden by the filter `Completed` because it is not completed: pushing another panics. */
  lemma PushAsWrittenExample(tagsOf: Task -> seq<string>)
    ensures var t := Task("a", 0, [], "", None, None, false, []);
      && Matching([t], Some(BooleanExpr.Completed), tagsOf) == []
      && PushAsWritten([t], [], Some(BooleanExpr.Completed), tagsOf, t).None?
  {
    var t := Task("a", 0, [], "", None, None, false, []);
    assert !Admits(Some(BooleanExpr.Completed), t, tagsOf(t));
    assert [t][..0] == [];
  }
}
