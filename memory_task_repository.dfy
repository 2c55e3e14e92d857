/**
 * The in-memory persistence adapter: a dictionary from task id to task. Python
 * dictionaries remember the order in which keys were first inserted, and `find_all`
 * lists the tasks in that order, so the model keeps that key order beside the map.
 */
module MemoryRepository {
  import opened Wrappers
  import opened TaskDomain
  import Port = TaskRepositoryPort

  /** No key occurs twice. */
  ghost predicate Distinct(keys: seq<string>) {
    forall i, j :: 0 <= i < j < |keys| ==> keys[i] != keys[j]
  }

  /** `keys` lists the keys of `tasks`, each once: the dictionary's insertion order. */
  ghost predicate OrderOf(keys: seq<string>, tasks: Port.Store) {
    Distinct(keys) && forall k :: k in tasks <==> k in keys
  }

  /** `dict.values()`: the stored tasks in key order. */
  function Values(keys: seq<string>, tasks: Port.Store): (r: seq<ValidTask>)
    requires forall k :: k in keys ==> k in tasks
    ensures |r| == |keys|
    ensures forall i :: 0 <= i < |keys| ==> r[i] == tasks[keys[i]]
  {
    seq(|keys|, i requires 0 <= i < |keys| => tasks[keys[i]])
  }

  /** The key order after `del d[x]`: `x` is gone and the others keep their order. */
  function Without(keys: seq<string>, x: string): (r: seq<string>)
    ensures forall y :: y in r <==> y in keys && y != x
    ensures Distinct(keys) ==> Distinct(r)
    ensures x !in keys ==> r == keys
    ensures Distinct(keys) && x in keys ==> |r| == |keys| - 1
  {
    if keys == [] then []
    else
      var rest := Without(keys[1..], x);
      assert Distinct(keys) ==> keys[0] !in keys[1..];
      if keys[0] == x then rest else [keys[0]] + rest
  }

  /** A list without repetitions has as many elements as its set. */
  lemma {:induction false} DistinctCard(keys: seq<string>)
    requires Distinct(keys)
    ensures |set k | k in keys| == |keys|
  {
    if keys != [] {
      DistinctCard(keys[1..]);
      assert (set k | k in keys) == {keys[0]} + (set k | k in keys[1..]);
      assert keys[0] !in keys[1..];
    }
  }

  /** Overwriting a stored key leaves its place in the listing where it was and changes
      only that entry. */
  lemma OverwriteKeepsPosition(keys: seq<string>, tasks: Port.Store, t: ValidTask)
    requires OrderOf(keys, tasks) && t.id in tasks
    ensures OrderOf(keys, tasks[t.id := t])
    ensures forall i :: 0 <= i < |keys| ==>
      Values(keys, tasks[t.id := t])[i] == if keys[i] == t.id then t else Values(keys, tasks)[i]
  {
  }

  /** `Without` drops `x` from each part of a list separately, so the keys that remain
      keep their relative order. */
  lemma {:induction false} WithoutConcat(a: seq<string>, b: seq<string>, x: string)
    ensures Without(a + b, x) == Without(a, x) + Without(b, x)
  {
    if a == [] {
      assert a + b == b;
    } else {
      assert (a + b)[0] == a[0] && (a + b)[1..] == a[1..] + b;
      WithoutConcat(a[1..], b, x);
    }
  }

  /** Deleting the key stored at place `i` closes the gap: the keys before and after it
      stay where they were relative to each other. */
  lemma {:induction false} WithoutAt(keys: seq<string>, i: nat)
    requires Distinct(keys) && i < |keys|
    ensures Without(keys, keys[i]) == keys[..i] + keys[i + 1..]
  {
    var x, tail := keys[i], keys[1..];
    assert Distinct(tail) by {
      forall j, k | 0 <= j < k < |tail| ensures tail[j] != tail[k] {
        assert tail[j] == keys[j + 1] && tail[k] == keys[k + 1];
      }
    }
    if i == 0 {
      assert x !in tail by {
        forall j | 0 <= j < |tail| ensures tail[j] != x { assert tail[j] == keys[j + 1]; }
      }
      assert Without(keys, x) == Without(tail, x);
    } else {
      assert keys[0] != x;
      assert tail[i - 1] == x;
      WithoutAt(tail, i - 1);
      assert Without(keys, x) == [keys[0]] + Without(tail, x);
      assert keys[..i] == [keys[0]] + tail[..i - 1];
      assert keys[i + 1..] == tail[i..];
    }
  }

  /** Appending a re-inserted key lists its new task last, after the untouched ones. */
  lemma ValuesAppend(rest: seq<string>, tasks: Port.Store, t: ValidTask)
    requires forall k :: k in rest ==> k in tasks && k != t.id
    ensures Values(rest + [t.id], (tasks - {t.id})[t.id := t]) == Values(rest, tasks) + [t]
  {
    var m := (tasks - {t.id})[t.id := t];
    var after, expected := Values(rest + [t.id], m), Values(rest, tasks) + [t];
    forall j | 0 <= j < |after| ensures after[j] == expected[j] {
      if j < |rest| {
        assert (rest + [t.id])[j] == rest[j] && rest[j] in rest;
      }
    }
  }

  /** Listing the keys with the one at place `i` left out is the listing with the entry at
      place `i` left out. */
  lemma ValuesSkip(keys: seq<string>, tasks: Port.Store, i: nat)
    requires forall k :: k in keys ==> k in tasks
    requires i < |keys|
    ensures Values(keys[..i] + keys[i + 1..], tasks) == Values(keys, tasks)[..i] + Values(keys, tasks)[i + 1..]
  {
  }

  /** Deleting a stored key and inserting it again moves its task from its old place `i`
      to the end of the listing; the other tasks keep their order. */
  lemma ReinsertGoesLast(keys: seq<string>, tasks: Port.Store, t: ValidTask, i: nat)
    requires OrderOf(keys, tasks) && i < |keys| && keys[i] == t.id
    ensures OrderOf(Without(keys, t.id), tasks - {t.id})
    ensures OrderOf(Without(keys, t.id) + [t.id], (tasks - {t.id})[t.id := t])
    ensures Values(Without(keys, t.id) + [t.id], (tasks - {t.id})[t.id := t])
         == Values(keys, tasks)[..i] + Values(keys, tasks)[i + 1..] + [t]
  {
    var rest := Without(keys, t.id);
    WithoutAt(keys, i);
    assert t.id !in rest;
    assert Distinct(rest + [t.id]);
    ValuesAppend(rest, tasks, t);
    ValuesSkip(keys, tasks, i);
  }

  class MemoryTaskRepository {
    /** `_tasks`: task id to task. */
    var tasks: Port.Store
    /** The insertion order of `_tasks`'s keys. */
    var order: seq<string>

    ghost predicate Valid()
      reads this
    {
      Port.Consistent(tasks) && OrderOf(order, tasks)
    }

    /** `__init__`: empty storage. */
    constructor ()
      ensures Valid() && tasks == map[] && order == []
    {
      tasks := map[];
      order := [];
    }

    /** `save`: stores the task under its id, overwriting any previous entry in its place,
        or appending a new key, and returns the task. */
    method Save(task: ValidTask) returns (r: ValidTask)
      requires Valid()
      modifies this
      ensures Valid()
      ensures Port.SaveContract(old(tasks), task, tasks, r)
      ensures order == if task.id in old(tasks) then old(order) else old(order) + [task.id]
    {
      if task.id !in tasks {
        order := order + [task.id];
      }
      tasks := tasks[task.id := task];
      r := task;
    }

    /** `find_all`: every stored task once, in insertion order. */
    method FindAll() returns (r: seq<ValidTask>)
      requires Valid()
      ensures Port.FindAllContract(tasks, r)
      ensures r == Values(order, tasks)
      ensures forall i, j :: 0 <= i < j < |r| ==> r[i].id != r[j].id
    {
      r := Values(order, tasks);
      DistinctCard(order);
      assert tasks.Keys == set k | k in order;
      forall id | id in tasks
        ensures tasks[id] in r
      {
        var i :| 0 <= i < |order| && order[i] == id;
        assert r[i] == tasks[id];
      }
    }

    /** `find_by_id`: the stored task, or absent. */
    method FindById(taskId: string) returns (r: Option<ValidTask>)
      requires Valid()
      ensures Port.FindByIdContract(tasks, taskId, r)
      ensures r.Some? <==> taskId in tasks
      ensures r.Some? ==> r.value.id == taskId && r.value == tasks[taskId]
    {
      r := if taskId in tasks then Some(tasks[taskId]) else None;
    }

    /** `update`: overwrites the entry in place when the id is stored and returns the
        task; otherwise returns absent and changes nothing. */
    method Update(task: ValidTask) returns (r: Option<ValidTask>)
      requires Valid()
      modifies this
      ensures Valid()
      ensures Port.UpdateContract(old(tasks), task, tasks, r)
      ensures order == old(order)
    {
      if task.id !in tasks {
        return None;
      }
      tasks := tasks[task.id := task];
      r := Some(task);
    }

    /** `delete`: removes the entry when the id is stored, reporting whether it was. */
    method Delete(taskId: string) returns (r: bool)
      requires Valid()
      modifies this
      ensures Valid()
      ensures Port.DeleteContract(old(tasks), taskId, tasks, r)
      ensures order == Without(old(order), taskId)
    {
      if taskId in tasks {
        tasks := tasks - {taskId};
        order := Without(order, taskId);
        return true;
      }
      return false;
    }

    /** `clear`: empties the storage. */
    method Clear()
      requires Valid()
      modifies this
      ensures Valid()
      ensures Port.ClearContract(tasks) && order == []
    {
      tasks := map[];
      order := [];
    }
  }
}
