/**
 * The application service: the use cases, each a short orchestration of the factory and
 * the repository it was given.
 */
module TaskServices {
  import opened Wrappers
  import opened Text
  import opened TaskDomain
  import Port = TaskRepositoryPort
  import opened MemoryRepository

  /** The task `update_task` builds from the stored one: fields not supplied keep their
      stored values, the id stays pinned, and the factory validates the merged fields. */
  function Merge(taskId: string, existing: ValidTask, title: Option<string>, status: Option<string>): (r: Result<ValidTask, TaskError>)
    ensures r.Ok? ==> r.value.id == taskId
    ensures r == Err(InvalidStatus) <==> status.Some? && !IsStatusName(status.value)
    ensures r == Err(EmptyTitle) <==> title.Some? && IsBlank(title.value) && (status.Some? ==> IsStatusName(status.value))
    ensures r.Ok? ==> r.value.title == Strip(title.GetOr(existing.title))
    ensures r.Ok? && status.None? ==> r.value.status == existing.status
    ensures r.Ok? && status.Some? ==> StatusValue(r.value.status) == Lower(status.value)
  {
    var newTitle := title.GetOr(existing.title);
    var newStatus := status.GetOr(StatusValue(existing.status));
    var r := Create(newTitle, newStatus, Some(taskId), taskId);
    assert IsStatusName(newStatus) <==> status.None? || IsStatusName(status.value) by {
      StatusValueIsName(existing.status);
    }
    assert IsBlank(newTitle) <==> title.Some? && IsBlank(title.value);
    assert r.Ok? && status.None? ==> r.value.status == existing.status by {
      if r.Ok? && status.None? {
        LowerStatusValue(existing.status);
        assert StatusValue(r.value.status) == StatusValue(existing.status);
        StatusOfValue(r.value.status);
        StatusOfValue(existing.status);
      }
    }
    r
  }

  /** A title-only update keeps the stored status and takes the stripped new title. */
  lemma TitleOnlyUpdate(taskId: string, existing: ValidTask, title: string)
    requires !IsBlank(title)
    ensures Merge(taskId, existing, Some(title), None) == Ok(Task(taskId, Strip(title), existing.status))
  {
  }

  /** A status-only update keeps a stripped stored title, as every title the factory built
      is, and takes the parsed status. */
  lemma StatusOnlyUpdate(taskId: string, existing: ValidTask, status: string)
    requires Strip(existing.title) == existing.title && IsStatusName(status)
    ensures Merge(taskId, existing, None, Some(status)) == Ok(Task(taskId, existing.title, StatusOf(Lower(status)).value))
  {
  }

  /** The part of the filter's output that comes from one task. */
  function Kept(t: ValidTask, value: string): seq<ValidTask> {
    if StatusValue(t.status) == value then [t] else []
  }

  /** `[task for task in tasks if task.status.value == value]`. */
  function Matching(tasks: seq<ValidTask>, value: string): (r: seq<ValidTask>)
    ensures |r| <= |tasks|
    ensures forall i :: 0 <= i < |r| ==> StatusValue(r[i].status) == value
  {
    if tasks == [] then []
    else
      Kept(tasks[0], value) + Matching(tasks[1..], value)
  }

  /** The filter keeps exactly the matching tasks, each as often as it occurs. */
  lemma {:induction false} MatchingCounts(tasks: seq<ValidTask>, value: string)
    ensures forall t :: multiset(Matching(tasks, value))[t] == if StatusValue(t.status) == value then multiset(tasks)[t] else 0
  {
    if tasks != [] {
      MatchingCounts(tasks[1..], value);
      assert tasks == [tasks[0]] + tasks[1..];
    }
  }

  /** The filter keeps order: filtering a concatenation concatenates the filtered parts. */
  lemma {:induction false} MatchingConcat(a: seq<ValidTask>, b: seq<ValidTask>, value: string)
    ensures Matching(a + b, value) == Matching(a, value) + Matching(b, value)
  {
    if a == [] {
      assert a + b == b;
    } else {
      var ab := a + b;
      assert ab[0] == a[0] && ab[1..] == a[1..] + b;
      MatchingConcat(a[1..], b, value);
      assert Matching(ab, value) == Kept(a[0], value) + (Matching(a[1..], value) + Matching(b, value));
    }
  }

  /** Every task is either pending or done, so the two filters split any list. */
  lemma {:induction false} MatchingPartition(tasks: seq<ValidTask>)
    ensures |Matching(tasks, "pending")| + |Matching(tasks, "done")| == |tasks|
  {
    if tasks != [] {
      MatchingPartition(tasks[1..]);
    }
  }

  /** A value that is not a status matches nothing. */
  lemma MatchingUnknown(tasks: seq<ValidTask>, value: string)
    requires value != "pending" && value != "done"
    ensures Matching(tasks, value) == []
  {
  }

  class TaskService {
    /** `_repository`. */
    const repository: MemoryTaskRepository

    ghost predicate Valid()
      reads this, repository
    {
      repository.Valid()
    }

    /** `__init__`: the service keeps the repository it is given. */
    constructor (repository: MemoryTaskRepository)
      requires repository.Valid()
      ensures this.repository == repository && Valid()
    {
      this.repository := repository;
    }

    /** `create_task`: the factory builds the task with a generated id (`freshId`), then it
        is saved. A validation error comes back unchanged and nothing is stored. */
    method CreateTask(title: string, status: string, freshId: string) returns (r: Result<ValidTask, TaskError>)
      requires Valid()
      modifies repository
      ensures Valid()
      ensures r == Create(title, status, None, freshId)
      ensures r.Ok? ==> r.value.id == freshId && repository.tasks == old(repository.tasks)[freshId := r.value]
      ensures r.Ok? && freshId !in old(repository.tasks) ==>
        |repository.tasks| == |old(repository.tasks)| + 1 && repository.order == old(repository.order) + [freshId]
      ensures r.Ok? && freshId in old(repository.tasks) ==> repository.order == old(repository.order)
      ensures r.Err? ==> unchanged(repository)
    {
      var created := Create(title, status, None, freshId);
      if created.Err? {
        return Err(created.error);
      }
      var saved := repository.Save(created.value);
      r := Ok(saved);
    }

    /** `get_all_tasks`: what the repository lists. */
    method GetAllTasks() returns (r: seq<ValidTask>)
      requires Valid()
      ensures Port.FindAllContract(repository.tasks, r)
      ensures r == Values(repository.order, repository.tasks)
    {
      r := repository.FindAll();
    }

    /** `get_task_by_id`: what the repository finds. */
    method GetTaskById(taskId: string) returns (r: Option<ValidTask>)
      requires Valid()
      ensures r == Port.Lookup(repository.tasks, taskId)
    {
      r := repository.FindById(taskId);
    }

    /** `update_task`: absent when the id is not stored; otherwise the merged task is
        validated and written over the stored one. A validation error comes back unchanged
        and nothing is written. */
    method UpdateTask(taskId: string, title: Option<string>, status: Option<string>) returns (r: Result<Option<ValidTask>, TaskError>)
      requires Valid()
      modifies repository
      ensures Valid()
      ensures taskId !in old(repository.tasks) ==> r == Ok(None) && unchanged(repository)
      ensures taskId in old(repository.tasks) ==>
        match Merge(taskId, old(repository.tasks)[taskId], title, status)
        case Ok(t) =>
          && r == Ok(Some(t))
          && repository.tasks == old(repository.tasks)[taskId := t]
          && repository.order == old(repository.order)
        case Err(e) => r == Err(e) && unchanged(repository)
    {
      var existing := repository.FindById(taskId);
      if existing.None? {
        return Ok(None);
      }
      assert existing.value == old(repository.tasks)[taskId];
      var updated := Merge(taskId, existing.value, title, status);
      if updated.Err? {
        return Err(updated.error);
      }
      assert updated.value.id == taskId;
      var written := repository.Update(updated.value);
      assert written == Some(updated.value);
      r := Ok(written);
    }

    /** `delete_task`: what the repository's delete does and reports. */
    method DeleteTask(taskId: string) returns (r: bool)
      requires Valid()
      modifies repository
      ensures Valid()
      ensures Port.DeleteContract(old(repository.tasks), taskId, repository.tasks, r)
      ensures repository.order == Without(old(repository.order), taskId)
    {
      r := repository.Delete(taskId);
    }

    /** `get_tasks_by_status`: the listed tasks whose status value equals the lower-cased
        argument, in listing order; an unrecognised status gives an empty list. */
    method GetTasksByStatus(status: string) returns (r: seq<ValidTask>)
      requires Valid()
      ensures r == Matching(Values(repository.order, repository.tasks), Lower(status))
      ensures !IsStatusName(status) ==> r == []
    {
      var all := repository.FindAll();
      r := Matching(all, Lower(status));
      if !IsStatusName(status) {
        MatchingUnknown(all, Lower(status));
      }
    }
  }
}

/** The life of one task through the service: create it, read it back, mark it done
    with a status-only update, delete it, and find it gone. */
module ServiceScenario {
  import opened Wrappers
  import opened Text
  import opened TaskDomain
  import MemoryRepository
  import TaskServices

  method CreateReadUpdateDelete(freshId: string)
    returns (created: Result<ValidTask, TaskError>, found: Option<ValidTask>,
             updated: Result<Option<ValidTask>, TaskError>, deleted: bool, gone: Option<ValidTask>)
    ensures created == Ok(Task(freshId, "Buy milk", Pending))
    ensures found == Some(Task(freshId, "Buy milk", Pending))
    ensures updated == Ok(Some(Task(freshId, "Buy milk", Done)))
    ensures deleted && gone == None
  {
    var title := "Buy milk";
    assert !IsSpace(title[0]) && !IsSpace(title[|title| - 1]);
    StripPadded([], title, []);
    assert [] + title + [] == title;
    LowerStatusValue(Pending);
    LowerStatusValue(Done);
    var repository := new MemoryRepository.MemoryTaskRepository();
    var service := new TaskServices.TaskService(repository);
    var pending := Task(freshId, title, Pending);
    var done := Task(freshId, title, Done);
    assert Create(title, "pending", None, freshId) == Ok(pending) by {
      var c := Create(title, "pending", None, freshId);
      assert c.Ok? && c.value.id == freshId && c.value.title == title;
      assert StatusValue(c.value.status) == "pending";
    }
    created := service.CreateTask(title, "pending", freshId);
    assert repository.tasks == map[freshId := pending];
    found := service.GetTaskById(freshId);
    assert TaskServices.Merge(freshId, pending, None, Some("done")) == Ok(done) by {
      var m := TaskServices.Merge(freshId, pending, None, Some("done"));
      assert IsStatusName("done");
      assert m.Ok? && m.value.id == freshId && m.value.title == title;
      assert StatusValue(m.value.status) == "done";
    }
    updated := service.UpdateTask(freshId, None, Some("done"));
    deleted := service.DeleteTask(freshId);
    gone := service.GetTaskById(freshId);
  }
}
