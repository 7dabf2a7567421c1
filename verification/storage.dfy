/**
 * Tasks and the task list (src/storage.rs): box states and their stepping,
 * the dirty flags, the front matter a task file is read from, how the parsed
 * fields resolve into a task, and the order `Display` writes them back in.
 */
module Storage {
  import opened Wrappers

  /** A timestamp; instants are ordered like the integers. */
  type Date = int

  /** One progress box of a task. */
  datatype BoxState = Checked(at: Date) | Started | Empty

  /** A front-matter value as the field parser produced it. */
  datatype Value = Unknown(text: string) | DateValue(date: Date) | BoxList(boxes: seq<BoxState>)

  /** A `key: value` line of the front matter. */
  datatype Field = Field(key: string, value: Value)

  /**
   * A task. `context` is the text after the front matter (the buffer of the
   * task's `TextEditable`); `dirty` says the file on disk is stale.
   */
  datatype Task = Task(
    title: string,
    created: Date,
    boxes: seq<BoxState>,
    context: string,
    completed: Option<Date>,
    sourcePath: Option<string>,
    dirty: bool,
    extraFields: seq<Field>)

  /** `Task::new`: a task not yet on disk, so dirty, with no path and no extra fields. */
  function NewTask(title: string, created: Date, boxes: seq<BoxState>, context: string, completed: Option<Date>): (t: Task)
    ensures t.dirty && t.sourcePath.None? && t.extraFields == []
    ensures t.title == title && t.created == created && t.boxes == boxes
    ensures t.context == context && t.completed == completed
  {
    Task(title, created, boxes, context, completed, None, true, [])
  }

  // ----- Box states -----

  /** One step of a box: Empty becomes Started, Started becomes Checked at `time`; a checked box stays. */
  function Step(b: BoxState, time: Date): (r: BoxState)
    ensures b.Checked? ==> r == b
    ensures !b.Checked? ==> Weight(r) == Weight(b) + 1
    ensures r.Checked? && !b.Checked? ==> r.at == time
  {
    match b
    case Empty => Started
    case Started => Checked(time)
    case Checked(_) => b
  }

  /** The first box that is not checked yet (`iter_mut().find`). */
  function FirstUnchecked(bs: seq<BoxState>): (r: Option<nat>)
    ensures r.Some? ==> r.value < |bs| && !bs[r.value].Checked?
    ensures r.Some? ==> forall j :: 0 <= j < r.value ==> bs[j].Checked?
    ensures r.None? <==> forall j :: 0 <= j < |bs| ==> bs[j].Checked?
  {
    if bs == [] then None
    else if !bs[0].Checked? then Some(0)
    else
      match FirstUnchecked(bs[1..])
      case None => None
      case Some(k) => Some(k + 1)
  }

  /** The last empty box (`iter().rposition`). */
  function LastEmpty(bs: seq<BoxState>): (r: Option<nat>)
    ensures r.Some? ==> r.value < |bs| && bs[r.value].Empty?
    ensures r.Some? ==> forall j :: r.value < j < |bs| ==> !bs[j].Empty?
    ensures r.None? <==> forall j :: 0 <= j < |bs| ==> !bs[j].Empty?
  {
    if bs == [] then None
    else if bs[|bs| - 1].Empty? then Some(|bs| - 1)
    else LastEmpty(bs[..|bs| - 1])
  }

  /** `step_box_state` on the boxes: the new boxes and the new state of the box that moved, if any. */
  function StepBoxes(bs: seq<BoxState>, time: Date): (r: (seq<BoxState>, Option<BoxState>))
    ensures |r.0| == |bs|
    ensures r.1.None? <==> forall j :: 0 <= j < |bs| ==> bs[j].Checked?
    ensures r.1.None? ==> r.0 == bs
    ensures r.1.Some? ==> var k := FirstUnchecked(bs).value;
      && r.0[k] == r.1.value != bs[k]
      && (bs[k].Empty? ==> r.1.value == Started)
      && (bs[k].Started? ==> r.1.value == Checked(time))
      && forall j :: 0 <= j < |bs| && j != k ==> r.0[j] == bs[j]
  {
    match FirstUnchecked(bs)
    case None => (bs, None)
    case Some(k) => (bs[k := Step(bs[k], time)], Some(Step(bs[k], time)))
  }

  /** `remove_empty_state` on the boxes: the last empty box is dropped, if there is one. */
  function RemoveLastEmpty(bs: seq<BoxState>): (r: seq<BoxState>)
    ensures LastEmpty(bs).None? <==> r == bs
    ensures |r| <= |bs| <= |r| + 1
  {
    match LastEmpty(bs)
    case None => bs
    case Some(k) => bs[..k] + bs[k + 1..]
  }

  /** How far a box has come: 0 when empty, 1 when started, 2 when checked. */
  function Weight(b: BoxState): nat {
    match b
    case Empty => 0
    case Started => 1
    case Checked(_) => 2
  }

  /** The progress of a task: the sum of its boxes' weights. */
  function Progress(bs: seq<BoxState>): nat {
    if bs == [] then 0 else Progress(bs[..|bs| - 1]) + Weight(bs[|bs| - 1])
  }

  /** Progress is at most two per box, and all boxes are checked exactly when it reaches that bound. */
  lemma {:induction false} ProgressBound(bs: seq<BoxState>)
    ensures Progress(bs) <= 2 * |bs|
    ensures Progress(bs) == 2 * |bs| <==> forall j :: 0 <= j < |bs| ==> bs[j].Checked?
  {
    if bs != [] {
      var u := bs[..|bs| - 1];
      ProgressBound(u);
      assert forall j :: 0 <= j < |u| ==> u[j] == bs[j];
    }
  }

  /** Changing one box changes the progress by the difference of its weights. */
  lemma {:induction false} ProgressUpdate(bs: seq<BoxState>, k: nat, b: BoxState)
    requires k < |bs|
    ensures Progress(bs[k := b]) + Weight(bs[k]) == Progress(bs) + Weight(b)
  {
    var n := |bs| - 1;
    var u := bs[k := b];
    assert u[..n] == if k == n then bs[..n] else bs[..n][k := b];
    if k < n {
      ProgressUpdate(bs[..n], k, b);
    }
  }

  /** Every successful step moves the task one unit closer to fully checked, so stepping stops within `2 * |bs|` steps. */
  lemma StepProgresses(bs: seq<BoxState>, time: Date)
    requires StepBoxes(bs, time).1.Some?
    ensures Progress(StepBoxes(bs, time).0) == Progress(bs) + 1
  {
    var k := FirstUnchecked(bs).value;
    ProgressUpdate(bs, k, Step(bs[k], time));
  }

  /** Removing the last empty box takes one `Empty` out and keeps every other box. */
  lemma RemoveLastEmptyCounts(bs: seq<BoxState>)
    ensures LastEmpty(bs).Some? ==> multiset(RemoveLastEmpty(bs)) + multiset{Empty} == multiset(bs)
    ensures LastEmpty(bs).None? ==> RemoveLastEmpty(bs) == bs
  {
    if LastEmpty(bs).Some? {
      var k := LastEmpty(bs).value;
      assert bs == bs[..k] + [bs[k]] + bs[k + 1..];
    }
  }

  /** `push_box` then `remove_empty_state` gives back the boxes the task had. */
  lemma PushThenRemove(bs: seq<BoxState>)
    ensures RemoveLastEmpty(bs + [Empty]) == bs
  {
    var u := bs + [Empty];
    assert LastEmpty(u) == Some(|bs|);
    assert u[..|bs|] == bs;
  }

  // ----- The task list -----

  /** `Data`: the tasks loaded from the source directory, updated in place. */
  class Data {
    var tasks: seq<Task>

    /** `Data::new`; the source directory is not part of this model. */
    constructor (tasks: seq<Task>)
      ensures this.tasks == tasks
    {
      this.tasks := tasks;
    }

    /** `set_dirty`: marks one task as stale. */
    method SetDirty(index: nat)
      requires index < |tasks|
      modifies this
      ensures tasks == old(tasks)[index := old(tasks)[index].(dirty := true)]
    {
      tasks := tasks[index := tasks[index].(dirty := true)];
    }

    /** `clear_dirty`: marks one task as written. */
    method ClearDirty(index: nat)
      requires index < |tasks|
      modifies this
      ensures tasks == old(tasks)[index := old(tasks)[index].(dirty := false)]
    {
      tasks := tasks[index := tasks[index].(dirty := false)];
    }

    /** `set_completed`: sets or clears the completion date and marks the task dirty. */
    method SetCompleted(index: nat, value: Option<Date>)
      requires index < |tasks|
      modifies this
      ensures tasks == old(tasks)[index := old(tasks)[index].(dirty := true, completed := value)]
    {
      SetDirty(index);
      tasks := tasks[index := tasks[index].(completed := value)];
    }

    /** `push_box`: one more empty box at the end, and the task is dirty. */
    method PushBox(index: nat)
      requires index < |tasks|
      modifies this
      ensures tasks == old(tasks)[index := old(tasks)[index].(dirty := true, boxes := old(tasks)[index].boxes + [Empty])]
    {
      SetDirty(index);
      tasks := tasks[index := tasks[index].(boxes := tasks[index].boxes + [Empty])];
    }

    /**
     * `step_box_state`: steps the first box that is not checked and returns
     * its new state. The task is marked dirty first, so it is dirty even when
     * every box was already checked and nothing moved.
     */
    method StepBoxState(index: nat, time: Date) returns (r: Option<BoxState>)
      requires index < |tasks|
      modifies this
      ensures tasks == old(tasks)[index := old(tasks)[index].(dirty := true, boxes := StepBoxes(old(tasks)[index].boxes, time).0)]
      ensures r == StepBoxes(old(tasks)[index].boxes, time).1
    {
      SetDirty(index);
      var bs := tasks[index].boxes;
      var i := 0;
      while i < |bs| && bs[i].Checked?
        invariant i <= |bs|
        invariant forall j :: 0 <= j < i ==> bs[j].Checked?
      {
        i := i + 1;
      }
      if i == |bs| {
        return None;
      }
      assert FirstUnchecked(bs) == Some(i);
      var b := Step(bs[i], time);
      tasks := tasks[index := tasks[index].(boxes := bs[i := b])];
      r := Some(b);
    }

    /** `remove_empty_state`: drops the last empty box and marks the task dirty; without one, nothing changes. */
    method RemoveEmptyState(index: nat)
      requires index < |tasks|
      modifies this
      ensures LastEmpty(old(tasks)[index].boxes).None? ==> tasks == old(tasks)
      ensures LastEmpty(old(tasks)[index].boxes).Some? ==>
        tasks == old(tasks)[index := old(tasks)[index].(dirty := true, boxes := RemoveLastEmpty(old(tasks)[index].boxes))]
    {
      var bs := tasks[index].boxes;
      var i: nat := |bs|;
      while i > 0 && !bs[i - 1].Empty?
        invariant i <= |bs|
        invariant forall j :: i <= j < |bs| ==> !bs[j].Empty?
      {
        i := i - 1;
      }
      if i == 0 {
        return;
      }
      assert bs[i - 1].Empty?;
      assert LastEmpty(bs) == Some(i - 1);
      SetDirty(index);
      tasks := tasks[index := tasks[index].(boxes := bs[..i - 1] + bs[i..])];
    }

    /** `push`: the task goes at the end and is marked dirty. */
    method Push(task: Task)
      modifies this
      ensures tasks == old(tasks) + [task.(dirty := true)]
    {
      tasks := tasks + [task];
      SetDirty(|tasks| - 1);
    }
  }

  // ----- Reading a task file -----

  /** Why a task file could not be read. */
  datatype LoadErr =
    | InvalidName
    | MissingStartMarker
    | MissingEndMarker
    | ParseFailed(message: string)
    | MissingCreated
    | CreatedNotDate
    | BoxesNotList
    | MissingBoxes
    | CompletedNotDate

  /** The line that opens and closes the front matter. */
  const Marker: string := "---\n"

  /** `pat` occurs in `s` at index `i`. */
  predicate OccursAt(s: string, pat: string, i: nat) {
    i + |pat| <= |s| && s[i..i + |pat|] == pat
  }

  /** The first index from `i` on at which `pat` occurs in `s`. */
  function FindFrom(s: string, pat: string, i: nat): (r: Option<nat>)
    requires i <= |s|
    ensures r.Some? ==> i <= r.value && OccursAt(s, pat, r.value)
    ensures r.Some? ==> forall j :: i <= j < r.value ==> !OccursAt(s, pat, j)
    ensures r.None? ==> forall j :: i <= j <= |s| ==> !OccursAt(s, pat, j)
    decreases |s| - i
  {
    if OccursAt(s, pat, i) then Some(i)
    else if i == |s| then None
    else FindFrom(s, pat, i + 1)
  }

  /** No line of `s` is the marker line, wherever it starts. */
  predicate NoMarker(s: string) {
    forall i :: 0 <= i <= |s| ==> !OccursAt(s, Marker, i)
  }

  /**
   * `from_string`'s markers: the text must start with the marker line, and
   * the front matter runs up to the first marker line after it; the rest is
   * the context.
   */
  function SplitFrontMatter(buf: string): (r: Result<(string, string), LoadErr>)
    ensures r == Err(MissingStartMarker) <==> !OccursAt(buf, Marker, 0)
    ensures r == Err(MissingEndMarker) <==> OccursAt(buf, Marker, 0) && NoMarker(buf[|Marker|..])
    ensures r.Ok? ==> buf == Marker + r.value.0 + Marker + r.value.1
    ensures r.Ok? ==> forall i :: 0 <= i < |r.value.0| ==> !OccursAt(r.value.0 + Marker, Marker, i)
  {
    if !OccursAt(buf, Marker, 0) then Err(MissingStartMarker)
    else
      var rest := buf[|Marker|..];
      match FindFrom(rest, Marker, 0)
      case None => Err(MissingEndMarker)
      case Some(k) =>
        var front, context := rest[..k], rest[k + |Marker|..];
        assert rest == front + Marker + context;
        assert buf == Marker + rest;
        assert front + Marker == rest[..k + |Marker|];
        OccursPrefix(rest, k + |Marker|, k);
        Ok((front, context))
  }

  /** Below `m`, the marker occurs in a prefix of length `m` where it occurs in the whole text. */
  lemma OccursPrefix(s: string, m: nat, k: nat)
    requires k + |Marker| == m <= |s|
    ensures forall i :: 0 <= i < k ==> (OccursAt(s[..m], Marker, i) <==> OccursAt(s, Marker, i))
  {
    forall i | 0 <= i < k
      ensures OccursAt(s[..m], Marker, i) <==> OccursAt(s, Marker, i)
    {
      assert s[..m][i..i + |Marker|] == s[i..i + |Marker|];
    }
  }

  /** A front matter without a marker line of its own splits back out of the text it was written into. */
  lemma SplitJoin(front: string, context: string)
    requires NoMarker(front)
    ensures SplitFrontMatter(Marker + front + Marker + context) == Ok((front, context))
  {
    var buf := Marker + front + Marker + context;
    var rest := buf[|Marker|..];
    assert rest == front + Marker + context;
    assert OccursAt(rest, Marker, |front|);
    forall j | 0 <= j < |front|
      ensures !OccursAt(rest, Marker, j)
    {
      if j + |Marker| <= |front| {
        assert rest[j..j + |Marker|] == front[j..j + |Marker|];
        assert !OccursAt(front, Marker, j);
      } else {
        var x := j + 3 - |front|;
        assert 0 <= x < 3;
        assert Marker[0] == Marker[1] == Marker[2] == '-';
        assert rest[j + 3] == Marker[x];
        assert j + |Marker| > |rest| || rest[j..j + |Marker|][3] == rest[j + 3];
      }
    }
    var f := FindFrom(rest, Marker, 0);
    assert f == Some(|front|);
    assert rest[..|front|] == front;
    assert rest[|front| + |Marker|..] == context;
  }

  // ----- Resolving the parsed fields -----

  /** The loop state of `from_string`: the three known fields so far, and the other fields in order. */
  datatype Resolved = Resolved(
    created: Result<Date, LoadErr>,
    boxes: Result<seq<BoxState>, LoadErr>,
    completed: Result<Option<Date>, LoadErr>,
    remaining: seq<Field>)

  /** Before any field: `created` and `boxes` missing, `completed` empty. */
  const Unresolved: Resolved := Resolved(Err(MissingCreated), Err(MissingBoxes), Ok(None), [])

  /** The field keys `from_string` interprets. */
  predicate Reserved(key: string) {
    key == "created" || key == "boxes" || key == "completed"
  }

  /** A `boxes` value that is neither a list nor empty; its error is stored as the `created` error. */
  predicate BadBoxes(f: Field) {
    f.key == "boxes" && !f.value.BoxList? && f.value != Unknown("")
  }

  /** One iteration of the resolution loop. */
  function ResolveField(acc: Resolved, f: Field): Resolved {
    if f.key == "created" then
      acc.(created := if f.value.DateValue? then Ok(f.value.date) else Err(CreatedNotDate))
    else if f.key == "boxes" then
      if f.value.BoxList? then acc.(boxes := Ok(f.value.boxes))
      else if f.value == Unknown("") then acc.(boxes := Ok([]))
      else acc.(created := Err(BoxesNotList))
    else if f.key == "completed" then
      if f.value.DateValue? then acc.(completed := Ok(Some(f.value.date)))
      else if f.value == Unknown("") then acc.(completed := Ok(None))
      else acc.(completed := Err(CompletedNotDate))
    else
      acc.(remaining := acc.remaining + [f])
  }

  /** The resolution loop run over `fields` from `acc`. */
  function ResolveFrom(acc: Resolved, fields: seq<Field>): Resolved
    decreases fields
  {
    if fields == [] then acc else ResolveFrom(ResolveField(acc, fields[0]), fields[1..])
  }

  /** The fields `from_string` keeps as they are: every field with a key it does not interpret, in order. */
  function Extras(fields: seq<Field>): (r: seq<Field>)
    ensures forall i :: 0 <= i < |r| ==> !Reserved(r[i].key)
  {
    if fields == [] then []
    else if Reserved(fields[0].key) then Extras(fields[1..])
    else [fields[0]] + Extras(fields[1..])
  }

  /** Running the loop over two pieces is running it over the first, then over the second. */
  lemma {:induction false} ResolveAppend(acc: Resolved, a: seq<Field>, b: seq<Field>)
    ensures ResolveFrom(acc, a + b) == ResolveFrom(ResolveFrom(acc, a), b)
    decreases a
  {
    if a != [] {
      assert (a + b)[0] == a[0];
      assert (a + b)[1..] == a[1..] + b;
      ResolveAppend(ResolveField(acc, a[0]), a[1..], b);
    } else {
      assert a + b == b;
    }
  }

  /** Unknown keys are appended to `remaining`, in the order they come. */
  lemma {:induction false} ResolveRemaining(acc: Resolved, fields: seq<Field>)
    ensures ResolveFrom(acc, fields).remaining == acc.remaining + Extras(fields)
    decreases fields
  {
    if fields != [] {
      ResolveRemaining(ResolveField(acc, fields[0]), fields[1..]);
    }
  }

  /** Fields that neither say `created` nor carry a bad `boxes` value leave the `created` result alone. */
  lemma {:induction false} CreatedUntouched(acc: Resolved, fields: seq<Field>)
    requires forall i :: 0 <= i < |fields| ==> fields[i].key != "created" && !BadBoxes(fields[i])
    ensures ResolveFrom(acc, fields).created == acc.created
    decreases fields
  {
    if fields != [] {
      CreatedUntouched(ResolveField(acc, fields[0]), fields[1..]);
    }
  }

  /** Fields that do not say `boxes` leave the `boxes` result alone. */
  lemma {:induction false} BoxesUntouched(acc: Resolved, fields: seq<Field>)
    requires forall i :: 0 <= i < |fields| ==> fields[i].key != "boxes"
    ensures ResolveFrom(acc, fields).boxes == acc.boxes
    decreases fields
  {
    if fields != [] {
      BoxesUntouched(ResolveField(acc, fields[0]), fields[1..]);
    }
  }

  /** The last `created` field wins, unless a bad `boxes` value comes after it. */
  lemma LastCreatedWins(pre: seq<Field>, v: Value, post: seq<Field>)
    requires forall i :: 0 <= i < |post| ==> post[i].key != "created" && !BadBoxes(post[i])
    ensures v.DateValue? ==> ResolveFrom(Unresolved, pre + [Field("created", v)] + post).created == Ok(v.date)
    ensures !v.DateValue? ==> ResolveFrom(Unresolved, pre + [Field("created", v)] + post).created == Err(CreatedNotDate)
  {
    var f := Field("created", v);
    ResolveAppend(Unresolved, pre + [f], post);
    ResolveAppend(Unresolved, pre, [f]);
    CreatedUntouched(ResolveFrom(Unresolved, pre + [f]), post);
  }

  /** A bad `boxes` value after the last `created` field makes the task fail with the boxes error. */
  lemma BadBoxesFailsCreated(pre: seq<Field>, f: Field, post: seq<Field>)
    requires BadBoxes(f)
    requires forall i :: 0 <= i < |post| ==> post[i].key != "created" && !BadBoxes(post[i])
    ensures ResolveFrom(Unresolved, pre + [f] + post).created == Err(BoxesNotList)
  {
    ResolveAppend(Unresolved, pre + [f], post);
    ResolveAppend(Unresolved, pre, [f]);
    CreatedUntouched(ResolveFrom(Unresolved, pre + [f]), post);
  }

  /** `created` and `boxes` are required: without such a key the result is the missing-field error. */
  lemma RequiredFields(fields: seq<Field>)
    ensures (forall i :: 0 <= i < |fields| ==> fields[i].key != "created" && fields[i].key != "boxes") ==>
      ResolveFrom(Unresolved, fields).created == Err(MissingCreated)
    ensures (forall i :: 0 <= i < |fields| ==> fields[i].key != "boxes") ==>
      ResolveFrom(Unresolved, fields).boxes == Err(MissingBoxes)
  {
    if forall i :: 0 <= i < |fields| ==> fields[i].key != "created" && fields[i].key != "boxes" {
      CreatedUntouched(Unresolved, fields);
    }
    if forall i :: 0 <= i < |fields| ==> fields[i].key != "boxes" {
      BoxesUntouched(Unresolved, fields);
    }
  }

  /** The resolution loop of `from_string`. */
  method ResolveFields(fields: seq<Field>) returns (r: Resolved)
    ensures r == ResolveFrom(Unresolved, fields)
  {
    r := Unresolved;
    for i := 0 to |fields|
      invariant ResolveFrom(r, fields[i..]) == ResolveFrom(Unresolved, fields)
    {
      assert fields[i..][1..] == fields[i + 1..];
      r := ResolveField(r, fields[i]);
    }
    assert fields[|fields|..] == [];
  }

  /**
   * `from_string` as a value: the name, the markers, the field parser (a
   * parameter of the model), then the resolved fields in the order
   * `created`, `boxes`, `completed` decide the first error.
   */
  function LoadTask(path: string, stem: Option<string>, buf: string, parse: string -> Result<seq<Field>, string>): (r: Result<Task, LoadErr>)
    ensures stem.None? ==> r == Err(InvalidName)
    ensures stem.Some? && SplitFrontMatter(buf).Err? ==> r == Err(SplitFrontMatter(buf).error)
    ensures r.Ok? ==> !r.value.dirty && r.value.sourcePath == Some(path) && r.value.title == stem.value
  {
    if stem.None? then Err(InvalidName)
    else
      match SplitFrontMatter(buf)
      case Err(e) => Err(e)
      case Ok((front, context)) =>
        match parse(front)
        case Err(m) => Err(ParseFailed(m))
        case Ok(fields) =>
          var r := ResolveFrom(Unresolved, fields);
          if r.created.Err? then Err(r.created.error)
          else if r.boxes.Err? then Err(r.boxes.error)
          else if r.completed.Err? then Err(r.completed.error)
          else Ok(Task(stem.value, r.created.value, r.boxes.value, context, r.completed.value, Some(path), false, r.remaining))
  }

  /** `from_string`. */
  method FromString(path: string, stem: Option<string>, buf: string, parse: string -> Result<seq<Field>, string>)
    returns (r: Result<Task, LoadErr>)
    ensures r == LoadTask(path, stem, buf, parse)
  {
    if stem.None? {
      return Err(InvalidName);
    }
    var split := SplitFrontMatter(buf);
    if split.Err? {
      return Err(split.error);
    }
    var (front, context) := split.value;
    var parsed := parse(front);
    if parsed.Err? {
      return Err(ParseFailed(parsed.error));
    }
    var res := ResolveFields(parsed.value);
    if res.created.Err? {
      return Err(res.created.error);
    }
    if res.boxes.Err? {
      return Err(res.boxes.error);
    }
    if res.completed.Err? {
      return Err(res.completed.error);
    }
    r := Ok(Task(stem.value, res.created.value, res.boxes.value, context, res.completed.value, Some(path), false, res.remaining));
  }

  /** A loaded task is clean, remembers its file, and its context is everything after the closing marker. */
  lemma Loaded(path: string, stem: Option<string>, buf: string, parse: string -> Result<seq<Field>, string>)
    requires LoadTask(path, stem, buf, parse).Ok?
    ensures var t := LoadTask(path, stem, buf, parse).value;
      && SplitFrontMatter(buf).Ok?
      && parse(SplitFrontMatter(buf).value.0).Ok?
      && !t.dirty && t.sourcePath == Some(path) && t.title == stem.value
      && buf == Marker + SplitFrontMatter(buf).value.0 + Marker + t.context
      && t.extraFields == Extras(parse(SplitFrontMatter(buf).value.0).value)
  {
    var front := SplitFrontMatter(buf).value.0;
    ResolveRemaining(Unresolved, parse(front).value);
  }

  // ----- Writing a task file -----

  /** How a date is written; the calendar formatting is a parameter of the model. */
  type DateFormat = Date -> string

  /** `Display` for a box. */
  function BoxText(b: BoxState, fmt: DateFormat): (r: string)
    ensures r == "Empty" <==> b.Empty?
    ensures r == "Started" <==> b.Started?
    ensures b.Checked? ==> "Checked(" <= r && r[|r| - 1] == ')'
  {
    match b
    case Checked(d) => "Checked(" + fmt(d) + ")"
    case Started => "Started"
    case Empty => "Empty"
  }

  /** The list line of one box. */
  function BoxLine(b: BoxState, fmt: DateFormat): string {
    "  - " + BoxText(b, fmt) + "\n"
  }

  /** The list lines for `bs`, one per box. */
  function BoxLines(bs: seq<BoxState>, fmt: DateFormat): (r: string)
    ensures r == "" <==> bs == []
    ensures bs != [] ==> r[|r| - 1] == '\n'
  {
    if bs == [] then "" else BoxLines(bs[..|bs| - 1], fmt) + BoxLine(bs[|bs| - 1], fmt)
  }

  /** `Display` for a value; a box list starts on the next line. */
  function ValueText(v: Value, fmt: DateFormat): (r: string)
    ensures v.BoxList? ==> |r| >= 1 && r[0] == '\n' && r[|r| - 1] == '\n'
  {
    match v
    case Unknown(s) => s
    case DateValue(d) => fmt(d)
    case BoxList(bs) => "\n" + BoxLines(bs, fmt)
  }

  /** The `key: value` line of one extra field. */
  function FieldLine(f: Field, fmt: DateFormat): string {
    f.key + ": " + ValueText(f.value, fmt) + "\n"
  }

  /** The lines for the extra fields, one per field. */
  function FieldLines(fs: seq<Field>, fmt: DateFormat): (r: string)
    ensures r == "" <==> fs == []
    ensures fs != [] ==> r[|r| - 1] == '\n'
  {
    if fs == [] then "" else FieldLines(fs[..|fs| - 1], fmt) + FieldLine(fs[|fs| - 1], fmt)
  }

  /** The front matter `Display` writes: `created`, `completed`, `boxes`, then the extra fields. */
  function FrontMatter(t: Task, fmt: DateFormat): (r: string)
    ensures "created: " <= r && r[|r| - 1] == '\n'
  {
    "created: " + fmt(t.created) + "\n"
    + "completed: " + (if t.completed.Some? then fmt(t.completed.value) else "") + "\n"
    + "boxes:\n" + BoxLines(t.boxes, fmt)
    + FieldLines(t.extraFields, fmt)
  }

  /** `Display` for a task: the front matter between marker lines, then the context and a newline. */
  function Show(t: Task, fmt: DateFormat): (r: string)
    ensures Marker <= r && r[|r| - 1] == '\n'
    ensures |r| > |t.context| && r[|r| - 1 - |t.context|..|r| - 1] == t.context
  {
    Marker + FrontMatter(t, fmt) + Marker + t.context + "\n"
  }

  /** The box lines, written one after another. */
  method WriteBoxes(bs: seq<BoxState>, fmt: DateFormat) returns (out: string)
    ensures out == BoxLines(bs, fmt)
  {
    out := "";
    for i := 0 to |bs|
      invariant out == BoxLines(bs[..i], fmt)
    {
      assert bs[..i + 1][..i] == bs[..i];
      out := out + BoxLine(bs[i], fmt);
    }
    assert bs[..|bs|] == bs;
  }

  /** The extra field lines, written one after another. */
  method WriteFields(fs: seq<Field>, fmt: DateFormat) returns (out: string)
    ensures out == FieldLines(fs, fmt)
  {
    out := "";
    for i := 0 to |fs|
      invariant out == FieldLines(fs[..i], fmt)
    {
      assert fs[..i + 1][..i] == fs[..i];
      out := out + FieldLine(fs[i], fmt);
    }
    assert fs[..|fs|] == fs;
  }

  /** `Display` for a task, written piece by piece as the source does. */
  method Write(t: Task, fmt: DateFormat) returns (out: string)
    ensures out == Show(t, fmt)
  {
    var completed := if t.completed.Some? then fmt(t.completed.value) else "";
    var boxes := WriteBoxes(t.boxes, fmt);
    var fields := WriteFields(t.extraFields, fmt);
    out := Marker + ("created: " + fmt(t.created) + "\n" + "completed: " + completed + "\n" + "boxes:\n" + boxes + fields)
      + Marker + t.context + "\n";
  }

  // ----- Written front matter splits back out -----

  /** A line `Display` can write safely: no newline inside, and not ending in `---`, so it never forms a marker line. */
  predicate SafeLine(l: string) {
    (forall i :: 0 <= i < |l| ==> l[i] != '\n') && !(|l| >= 3 && l[|l| - 3..] == "---")
  }

  /** Every date the format writes is a safe line. */
  ghost predicate SafeFormat(fmt: DateFormat) {
    forall d :: SafeLine(fmt(d))
  }

  /** `s` is empty or ends a line. */
  predicate Closed(s: string) {
    s == [] || s[|s| - 1] == '\n'
  }

  /** A safe line and its newline hold no marker line. */
  lemma LineNoMarker(l: string)
    requires SafeLine(l)
    ensures NoMarker(l + "\n")
  {
    var s := l + "\n";
    forall i | 0 <= i <= |s|
      ensures !OccursAt(s, Marker, i)
    {
      if i + |Marker| <= |s| {
        if i + 3 < |l| {
          assert s[i..i + |Marker|][3] == l[i + 3] != '\n';
        } else {
          assert i + 3 == |l|;
          assert s[i..i + 3] == l[|l| - 3..];
          assert s[i..i + |Marker|][..3] == s[i..i + 3];
          assert Marker[..3] == "---";
        }
      }
    }
  }

  /** Gluing a closed text to another never creates a marker line across the seam. */
  lemma NoMarkerAppend(a: string, b: string)
    requires NoMarker(a) && NoMarker(b) && Closed(a)
    ensures NoMarker(a + b)
  {
    var s := a + b;
    forall i | 0 <= i <= |s|
      ensures !OccursAt(s, Marker, i)
    {
      if i + |Marker| <= |s| {
        if i + |Marker| <= |a| {
          assert s[i..i + |Marker|] == a[i..i + |Marker|];
          assert !OccursAt(a, Marker, i);
        } else if i >= |a| {
          assert s[i..i + |Marker|] == b[i - |a|..i - |a| + |Marker|];
          assert !OccursAt(b, Marker, i - |a|);
        } else {
          var x := |a| - 1 - i;
          assert 0 <= x < 3;
          assert s[i..i + |Marker|][x] == a[|a| - 1] == '\n';
          assert Marker[0] == Marker[1] == Marker[2] == '-';
        }
      }
    }
  }

  /** A label ending in a space, then a safe value, is a safe line. */
  lemma LabelSafe(p: string, v: string)
    requires |p| > 0 && p[|p| - 1] == ' ' && forall i :: 0 <= i < |p| ==> p[i] != '\n'
    requires SafeLine(v)
    ensures SafeLine(p + v)
  {
    var l := p + v;
    if |l| >= 3 {
      if |v| >= 3 {
        assert l[|l| - 3..] == v[|v| - 3..];
      } else {
        assert l[|l| - 3..][2 - |v|] == p[|p| - 1];
      }
    }
  }

  /** A text with no newline holds no marker line. */
  lemma NoNewlineNoMarker(s: string)
    requires forall i :: 0 <= i < |s| ==> s[i] != '\n'
    ensures NoMarker(s)
  {
    forall i | 0 <= i <= |s|
      ensures !OccursAt(s, Marker, i)
    {
      if i + |Marker| <= |s| {
        assert s[i..i + |Marker|][3] == s[i + 3];
      }
    }
  }

  /** A safe format writes safe lines. */
  lemma FormatSafe(fmt: DateFormat, d: Date)
    requires SafeFormat(fmt)
    ensures SafeLine(fmt(d))
  {
  }

  /** A box is written as a safe line. */
  lemma BoxTextSafe(b: BoxState, fmt: DateFormat)
    requires SafeFormat(fmt)
    ensures SafeLine(BoxText(b, fmt))
  {
    var l := BoxText(b, fmt);
    if b.Checked? {
      FormatSafe(fmt, b.at);
      assert l == "Checked(" + fmt(b.at) + ")";
      assert forall i :: 0 <= i < |l| ==> l[i] != '\n' by {
        assert forall i :: 8 <= i < |l| - 1 ==> l[i] == fmt(b.at)[i - 8];
      }
    }
    assert l[|l| - 1] != '-';
  }

  /** The box lines hold no marker line and end a line. */
  lemma {:induction false} BoxLinesSafe(bs: seq<BoxState>, fmt: DateFormat)
    requires SafeFormat(fmt)
    ensures NoMarker(BoxLines(bs, fmt)) && Closed(BoxLines(bs, fmt))
  {
    if bs == [] {
      NoNewlineNoMarker("");
    } else {
      var init, b := bs[..|bs| - 1], bs[|bs| - 1];
      var prev := BoxLines(init, fmt);
      var line := BoxLine(b, fmt);
      assert BoxLines(bs, fmt) == prev + line;
      assert NoMarker(prev) && Closed(prev) by {
        BoxLinesSafe(init, fmt);
      }
      BoxLineSafe(b, fmt);
      NoMarkerAppend(prev, line);
    }
  }

  /** The list line of one box holds no marker line and ends a line. */
  lemma BoxLineSafe(b: BoxState, fmt: DateFormat)
    requires SafeFormat(fmt)
    ensures NoMarker(BoxLine(b, fmt)) && Closed(BoxLine(b, fmt))
  {
    BoxTextSafe(b, fmt);
    LabelLine("  - ", BoxText(b, fmt));
  }

  /** What an extra field needs to be written safely: a key without newline, and a safe text value. */
  predicate SafeField(f: Field) {
    && (forall i :: 0 <= i < |f.key| ==> f.key[i] != '\n')
    && (f.value.Unknown? ==> SafeLine(f.value.text))
  }

  /** A label ending in a space, then a safe value and a newline, holds no marker line. */
  lemma LabelLine(p: string, v: string)
    requires |p| > 0 && p[|p| - 1] == ' ' && forall i :: 0 <= i < |p| ==> p[i] != '\n'
    requires SafeLine(v)
    ensures NoMarker(p + v + "\n") && Closed(p + v + "\n")
  {
    LabelSafe(p, v);
    LineNoMarker(p + v);
  }

  /** A field holding a box list: its label line, the box lines, then an empty line. */
  lemma BoxFieldSafe(p: string, bs: seq<BoxState>, fmt: DateFormat)
    requires |p| > 0 && p[|p| - 1] == ' ' && forall i :: 0 <= i < |p| ==> p[i] != '\n'
    requires SafeFormat(fmt)
    ensures NoMarker(p + ("\n" + BoxLines(bs, fmt)) + "\n")
  {
    BoxLinesSafe(bs, fmt);
    LabelBlockSafe(p, BoxLines(bs, fmt));
  }

  /** A label line, a block of closed lines without a marker, then an empty line. */
  lemma LabelBlockSafe(p: string, body: string)
    requires |p| > 0 && p[|p| - 1] == ' ' && forall i :: 0 <= i < |p| ==> p[i] != '\n'
    requires NoMarker(body) && Closed(body)
    ensures NoMarker(p + ("\n" + body) + "\n")
  {
    var head := p + "\n";
    assert NoMarker(head) by {
      LabelLine(p, "");
      assert p + "" + "\n" == head;
    }
    assert NoMarker(head + body) && Closed(head + body) by {
      NoMarkerAppend(head, body);
    }
    assert NoMarker("\n") by {
      LineNoMarker("");
      assert "" + "\n" == "\n";
    }
    NoMarkerAppend(head + body, "\n");
    assert p + ("\n" + body) + "\n" == head + body + "\n";
  }

  /** One extra field's lines hold no marker line and end a line. */
  lemma FieldLineSafe(f: Field, fmt: DateFormat)
    requires SafeFormat(fmt) && SafeField(f)
    ensures NoMarker(FieldLine(f, fmt)) && Closed(FieldLine(f, fmt))
  {
    var p := f.key + ": ";
    assert p[|p| - 1] == ' ';
    assert forall i :: 0 <= i < |p| ==> p[i] != '\n' by {
      assert forall i :: 0 <= i < |f.key| ==> p[i] == f.key[i];
    }
    match f.value
    case Unknown(text) =>
      LabelLine(p, text);
    case DateValue(d) =>
      FormatSafe(fmt, d);
      LabelLine(p, fmt(d));
    case BoxList(bs) =>
      BoxFieldSafe(p, bs, fmt);
  }

  /** The extra field lines hold no marker line and end a line. */
  lemma {:induction false} FieldLinesSafe(fs: seq<Field>, fmt: DateFormat)
    requires SafeFormat(fmt) && forall i :: 0 <= i < |fs| ==> SafeField(fs[i])
    ensures NoMarker(FieldLines(fs, fmt)) && Closed(FieldLines(fs, fmt))
  {
    if fs == [] {
      NoNewlineNoMarker("");
    } else {
      var init, f := fs[..|fs| - 1], fs[|fs| - 1];
      var prev := FieldLines(init, fmt);
      var line := FieldLine(f, fmt);
      assert NoMarker(prev) && Closed(prev) by {
        assert forall i :: 0 <= i < |init| ==> init[i] == fs[i];
        FieldLinesSafe(init, fmt);
      }
      assert NoMarker(line) && Closed(line) by {
        FieldLineSafe(f, fmt);
      }
      NoMarkerAppend(prev, line);
    }
  }

  /**
   * The text `Display` writes splits back into the front matter it wrote and
   * the context with its final newline, provided no written line ends in
   * `---`.
   */
  lemma ShowSplits(t: Task, fmt: DateFormat)
    requires SafeFormat(fmt) && forall i :: 0 <= i < |t.extraFields| ==> SafeField(t.extraFields[i])
    ensures SplitFrontMatter(Show(t, fmt)) == Ok((FrontMatter(t, fmt), t.context + "\n"))
  {
    var head := HeaderSafe(t, fmt);
    var boxes, fields := BoxLines(t.boxes, fmt), FieldLines(t.extraFields, fmt);
    assert NoMarker(head + boxes) && Closed(head + boxes) by {
      BoxLinesSafe(t.boxes, fmt);
      NoMarkerAppend(head, boxes);
    }
    assert NoMarker(head + boxes + fields) by {
      FieldLinesSafe(t.extraFields, fmt);
      NoMarkerAppend(head + boxes, fields);
    }
    assert FrontMatter(t, fmt) == head + boxes + fields;
    SplitJoin(FrontMatter(t, fmt), t.context + "\n");
    assert Show(t, fmt) == Marker + FrontMatter(t, fmt) + Marker + (t.context + "\n");
  }

  /** The three header lines of the front matter hold no marker line and end a line. */
  lemma HeaderSafe(t: Task, fmt: DateFormat) returns (head: string)
    requires SafeFormat(fmt)
    ensures head == "created: " + fmt(t.created) + "\n"
      + "completed: " + (if t.completed.Some? then fmt(t.completed.value) else "") + "\n"
      + "boxes:\n"
    ensures NoMarker(head) && Closed(head)
  {
    var completed := if t.completed.Some? then fmt(t.completed.value) else "";
    var a := "created: " + fmt(t.created) + "\n";
    var b := "completed: " + completed + "\n";
    assert NoMarker(a) by {
      FormatSafe(fmt, t.created);
      LabelLine("created: ", fmt(t.created));
    }
    assert NoMarker(b) by {
      if t.completed.Some? {
        FormatSafe(fmt, t.completed.value);
      } else {
        NoNewlineNoMarker("");
      }
      LabelLine("completed: ", completed);
    }
    assert NoMarker("boxes:\n") by {
      LineNoMarker("boxes:");
      assert "boxes:" + "\n" == "boxes:\n";
    }
    NoMarkerAppend(a, b);
    NoMarkerAppend(a + b, "boxes:\n");
    head := a + b + "boxes:\n";
  }

  /**
   * The fields the written front matter stands for: the reserved fields
   * `Display` writes first, then the extra fields as they are held. The
   * field parser is not part of this model, so whether it reads these fields
   * back from the written text is not proved here.
   */
  function WrittenFields(t: Task): seq<Field> {
    [ Field("created", DateValue(t.created)),
      Field("completed", if t.completed.Some? then DateValue(t.completed.value) else Unknown("")),
      Field("boxes", if t.boxes == [] then Unknown("") else BoxList(t.boxes)) ]
    + t.extraFields
  }

  /** Resolving the fields `Display` wrote stands for gives the task's own fields. */
  lemma ResolveWritten(t: Task)
    requires forall i :: 0 <= i < |t.extraFields| ==> !Reserved(t.extraFields[i].key)
    ensures var r := ResolveFrom(Unresolved, WrittenFields(t));
      r.created == Ok(t.created) && r.boxes == Ok(t.boxes) && r.completed == Ok(t.completed)
      && r.remaining == t.extraFields
  {
    var fs := WrittenFields(t);
    var a := fs[..3];
    assert fs == a + t.extraFields;
    ResolveAppend(Unresolved, a, t.extraFields);
    var h1 := ResolveField(Unresolved, a[0]);
    var h2 := ResolveField(h1, a[1]);
    var head := ResolveField(h2, a[2]);
    assert a[1..][1..][1..] == [];
    assert ResolveFrom(head, a[1..][1..][1..]) == head;
    assert ResolveFrom(h2, a[1..][1..]) == head;
    assert ResolveFrom(h1, a[1..]) == head;
    assert ResolveFrom(Unresolved, a) == head;
    assert head.created == Ok(t.created) && head.boxes == Ok(t.boxes) && head.completed == Ok(t.completed);
    CreatedUntouched(head, t.extraFields);
    BoxesUntouched(head, t.extraFields);
    CompletedUntouched(head, t.extraFields);
    ResolveRemaining(head, t.extraFields);
    ExtrasAll(t.extraFields);
  }

  /** Fields that do not say `completed` leave the `completed` result alone. */
  lemma {:induction false} CompletedUntouched(acc: Resolved, fields: seq<Field>)
    requires forall i :: 0 <= i < |fields| ==> fields[i].key != "completed"
    ensures ResolveFrom(acc, fields).completed == acc.completed
    decreases fields
  {
    if fields != [] {
      CompletedUntouched(ResolveField(acc, fields[0]), fields[1..]);
    }
  }

  /** Fields with keys the loader does not interpret are all kept. */
  lemma {:induction false} ExtrasAll(fields: seq<Field>)
    requires forall i :: 0 <= i < |fields| ==> !Reserved(fields[i].key)
    ensures Extras(fields) == fields
  {
    if fields != [] {
      ExtrasAll(fields[1..]);
    }
  }
}
