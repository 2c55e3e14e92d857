/**
 * The domain layer: the Task entity, its two-valued status, and the factory that is
 * the one validated way of building tasks.
 */
module TaskDomain {
  import opened Wrappers
  import opened Text

  /** The status enumeration; each member has a lower-case string value. */
  datatype TaskStatus = Pending | Done

  /** `status.value`. */
  function StatusValue(s: TaskStatus): string {
    match s
    case Pending => "pending"
    case Done => "done"
  }

  /** `TaskStatus(v)`: lookup of a member by its value, exact and case-sensitive;
      absent for any other string. */
  function StatusOf(v: string): (r: Option<TaskStatus>)
    ensures r.Some? <==> v == "pending" || v == "done"
    ensures r.Some? ==> StatusValue(r.value) == v
  {
    if v == "pending" then Some(Pending)
    else if v == "done" then Some(Done)
    else None
  }

  /** A status's value looks up that status again. */
  lemma StatusOfValue(s: TaskStatus)
    ensures StatusOf(StatusValue(s)) == Some(s)
  {
  }

  /** Status values are already lower case, which is why `to_dict` emits them as they are. */
  lemma LowerStatusValue(s: TaskStatus)
    ensures Lower(StatusValue(s)) == StatusValue(s)
  {
    var v := StatusValue(s);
    forall i | 0 <= i < |v| ensures !('A' <= v[i] <= 'Z') {
      if s == Pending {
        assert v == ['p', 'e', 'n', 'd', 'i', 'n', 'g'];
      } else {
        assert v == ['d', 'o', 'n', 'e'];
      }
    }
    LowerFixed(v);
  }

  /** The validation errors the domain raises (both are `ValueError` in the source). */
  datatype TaskError = InvalidStatus | EmptyTitle

  /** The fields of a task. */
  datatype Task = Task(id: string, title: string, status: TaskStatus)

  /** The invariant every construction establishes: the title is not blank.
      (The status is always a member of the enumeration here, by its type.) */
  predicate Valid(t: Task) {
    !IsBlank(t.title)
  }

  /** A constructed task: no value of this type breaks the title invariant. */
  type ValidTask = t: Task | Valid(t)
    witness var title := "-"; assert !IsSpace(title[0]); Task("", title, Pending)

  /** `Task(id=..., title=..., status=...)` with its after-construction check
      `not title or not title.strip()`: construction succeeds exactly when the title is
      not blank, and then keeps every field verbatim. */
  function NewTask(id: string, title: string, status: TaskStatus): (r: Result<ValidTask, TaskError>)
    ensures r.Ok? <==> !IsBlank(title)
    ensures r.Ok? ==> r.value == Task(id, title, status)
    ensures r.Err? ==> r.error == EmptyTitle
  {
    if title == [] || Strip(title) == [] then Err(EmptyTitle)
    else Ok(Task(id, title, status))
  }

  /** The flat record form of a task, a dictionary from field names to strings. */
  type Record = map<string, string>

  /** `to_dict`: exactly the three keys, the status written as its lower-case value. */
  function ToDict(t: Task): (d: Record)
    ensures d.Keys == {"id", "title", "status"}
    ensures d["id"] == t.id && d["title"] == t.title
    ensures StatusOf(d["status"]) == Some(t.status)
    ensures Lower(d["status"]) == d["status"]
  {
    LowerStatusValue(t.status);
    map["id" := t.id, "title" := t.title, "status" := StatusValue(t.status)]
  }

  /** `mark_as_done`: a new task with the same id and title and status done.
      The argument, a value, is left as it was. */
  function MarkAsDone(t: ValidTask): (r: ValidTask)
    ensures r.id == t.id && r.title == t.title && r.status == Done
  {
    Task(t.id, t.title, Done)
  }

  /** `update_title`: fails on a blank title; otherwise keeps id and status and takes the
      new title verbatim (the constructor does not strip it). */
  function UpdateTitle(t: ValidTask, newTitle: string): (r: Result<ValidTask, TaskError>)
    ensures r.Ok? <==> !IsBlank(newTitle)
    ensures r.Err? ==> r.error == EmptyTitle
    ensures r.Ok? ==> r.value.id == t.id && r.value.status == t.status && r.value.title == newTitle
  {
    NewTask(t.id, newTitle, t.status)
  }

  /** The status strings the factory accepts, once lower-cased. */
  predicate IsStatusName(s: string) {
    Lower(s) == "pending" || Lower(s) == "done"
  }

  /** `TaskFactory.create(title, status, task_id)`, with the identifier `uuid4` would
      generate passed in as `freshId`. The status is checked first: an unrecognised status
      is reported even when the title is blank too. */
  function Create(title: string, status: string, taskId: Option<string>, freshId: string): (r: Result<ValidTask, TaskError>)
    ensures r == Err(InvalidStatus) <==> !IsStatusName(status)
    ensures r == Err(EmptyTitle) <==> IsStatusName(status) && IsBlank(title)
    ensures r.Ok? <==> IsStatusName(status) && !IsBlank(title)
    ensures r.Ok? ==> r.value.id == taskId.GetOr(freshId)
    ensures r.Ok? ==> r.value.title == Strip(title) && Strip(r.value.title) == r.value.title
    ensures r.Ok? ==> StatusValue(r.value.status) == Lower(status)
  {
    var parsed := StatusOf(Lower(status));
    if parsed.None? then Err(InvalidStatus)
    else
      var id := if taskId.Some? then taskId.value else freshId;
      var stripped := Strip(title);
      StripIdempotent(title);
      assert IsBlank(stripped) <==> stripped == [] by {
        if stripped != [] { assert !IsSpace(stripped[0]); }
      }
      NewTask(id, stripped, parsed.value)
  }

  /** `data.get(key, default)` on a record. */
  function Get(data: Record, key: string, default: string): (r: string)
    ensures key in data ==> r == data[key]
    ensures key !in data ==> r == default
  {
    if key in data then data[key] else default
  }

  /** `TaskFactory.from_dict`: title defaults to the empty string, status to "pending",
      and the id comes from the "id" entry when there is one. */
  function FromDict(data: Record, freshId: string): (r: Result<ValidTask, TaskError>)
    ensures r == Err(InvalidStatus) <==> !IsStatusName(Get(data, "status", "pending"))
    ensures r == Err(EmptyTitle) <==> IsStatusName(Get(data, "status", "pending")) && IsBlank(Get(data, "title", ""))
    ensures r.Ok? <==> IsStatusName(Get(data, "status", "pending")) && !IsBlank(Get(data, "title", ""))
    ensures r.Ok? ==> r.value.title == Strip(Get(data, "title", ""))
    ensures r.Ok? ==> StatusValue(r.value.status) == Lower(Get(data, "status", "pending"))
    ensures "title" !in data ==> r.Err?
    ensures "status" !in data && r.Ok? ==> r.value.status == Pending
    ensures "id" in data && r.Ok? ==> r.value.id == data["id"]
    ensures "id" !in data && r.Ok? ==> r.value.id == freshId
  {
    var r := Create(Get(data, "title", ""), Get(data, "status", "pending"),
                    if "id" in data then Some(data["id"]) else None, freshId);
    assert "status" !in data ==> Lower("pending") == "pending" by {
      LowerStatusValue(Pending);
    }
    r
  }

  /** What `from_dict` reads back from a task's record. */
  lemma ToDictFields(t: Task)
    ensures "id" in ToDict(t) && ToDict(t)["id"] == t.id
    ensures Get(ToDict(t), "title", "") == t.title
    ensures Get(ToDict(t), "status", "pending") == StatusValue(t.status)
  {
    var d := ToDict(t);
    assert "id" in d && "title" in d && "status" in d;
    assert StatusOf(d["status"]) == Some(t.status);
  }

  /** Every status value is a status name the factory accepts. */
  lemma StatusValueIsName(s: TaskStatus)
    ensures IsStatusName(StatusValue(s))
  {
    LowerStatusValue(s);
  }

  /** A task whose title is already stripped survives the trip through its record. */
  lemma DictRoundTrip(t: ValidTask, freshId: string)
    requires Strip(t.title) == t.title
    ensures FromDict(ToDict(t), freshId) == Ok(t)
  {
    ToDictFields(t);
    StatusValueIsName(t.status);
    var r := FromDict(ToDict(t), freshId);
    assert r.Ok? && r.value.id == t.id && r.value.title == t.title;
    assert StatusValue(r.value.status) == StatusValue(t.status) by {
      LowerStatusValue(t.status);
    }
    assert r.value.status == t.status by {
      StatusOfValue(r.value.status);
      StatusOfValue(t.status);
    }
  }

  /** `from_dict({"title": "From Dict", "status": "pending"})` is a pending task with that
      title and a generated id. */
  lemma FromDictExample(freshId: string)
    ensures FromDict(map["title" := "From Dict", "status" := "pending"], freshId)
         == Ok(Task(freshId, "From Dict", Pending))
  {
    var title := "From Dict";
    assert !IsSpace(title[0]) && !IsSpace(title[|title| - 1]);
    StripPadded([], title, []);
    assert [] + title + [] == title;
    LowerStatusValue(Pending);
    var data := map["title" := title, "status" := "pending"];
    assert Get(data, "title", "") == title && Get(data, "status", "pending") == "pending";
    assert "id" !in data;
    var r := FromDict(data, freshId);
    assert r.Ok?;
    assert r.value.id == freshId && r.value.title == title;
    assert StatusValue(r.value.status) == "pending";
  }

  /** Every task the factory builds survives the trip through its record. */
  lemma CreatedRoundTrip(title: string, status: string, taskId: Option<string>, freshId: string, otherId: string)
    requires Create(title, status, taskId, freshId).Ok?
    ensures FromDict(ToDict(Create(title, status, taskId, freshId).value), otherId) == Create(title, status, taskId, freshId)
  {
    DictRoundTrip(Create(title, status, taskId, freshId).value, otherId);
  }

  /** The padded title used below: not blank, and stripping changes it. */
  lemma PaddedTitle()
    ensures !IsBlank(" x ") && Strip(" x ") == "x"
  {
    var padded := " x ";
    assert padded == [' '] + ['x'] + [' '];
    assert !IsSpace(padded[1]);
    StripPadded([' '], ['x'], [' ']);
  }

  /** `update_title` does not strip, so a task it builds need not survive the record trip:
      the title comes back stripped. */
  lemma UpdatedTitleNotRoundTripped(t: ValidTask, freshId: string)
    ensures UpdateTitle(t, " x ").Ok?
    ensures FromDict(ToDict(UpdateTitle(t, " x ").value), freshId) != UpdateTitle(t, " x ")
  {
    PaddedTitle();
    var u := UpdateTitle(t, " x ").value;
    assert u.title == " x ";
    ToDictFields(u);
    StatusValueIsName(u.status);
    var back := FromDict(ToDict(u), freshId);
    assert back.Ok? && back.value.title == "x";
    assert back.value != u;
  }

  /** Case does not matter for the status, as in `create(title, "DONE")`. */
  lemma CreateIgnoresCase(title: string, freshId: string)
    requires !IsBlank(title)
    ensures Create(title, "DONE", None, freshId) == Ok(Task(freshId, Strip(title), Done))
  {
    assert Lower("DONE") == "done";
  }

  /** With both a bad status and a blank title, the status error is the one reported. */
  lemma CreateChecksStatusFirst(freshId: string)
    ensures Create("", "invalid", None, freshId) == Err(InvalidStatus)
  {
    assert Lower("invalid") == "invalid";
  }

  /** A blank title fails with the empty-title error, as `create("   ", "pending")` does. */
  lemma CreateBlankTitle(freshId: string)
    ensures Create("   ", "pending", None, freshId) == Err(EmptyTitle)
  {
    LowerStatusValue(Pending);
    assert IsBlank("   ");
  }
}
