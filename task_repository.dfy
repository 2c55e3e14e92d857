/**
 * The repository port: the storage contract the application layer depends on.
 * Any store of tasks keyed by id meets it when each of its six operations relates the
 * store before the call, the arguments, the store after the call and the result as the
 * predicates below say. The in-memory adapter proves that its methods do.
 */
module TaskRepositoryPort {
  import opened Wrappers
  import opened TaskDomain

  /** What a repository holds, seen from outside: tasks by id. */
  type Store = map<string, ValidTask>

  /** Every task is filed under its own id. */
  ghost predicate Consistent(s: Store) {
    forall id :: id in s ==> s[id].id == id
  }

  /** `find_by_id`'s answer on a store: the task if present, otherwise absent. */
  function Lookup(s: Store, id: string): (r: Option<ValidTask>)
    ensures r.Some? <==> id in s
    ensures r.Some? ==> r.value == s[id]
  {
    if id in s then Some(s[id]) else None
  }

  /** `save`: the task is inserted or overwrites the entry at its id, and comes back. */
  ghost predicate SaveContract(before: Store, task: ValidTask, after: Store, r: ValidTask) {
    r == task && after == before[task.id := task]
  }

  /** `find_all`: one element per stored task, each stored, none missing; the store is
      left alone. The order is the implementation's. */
  ghost predicate FindAllContract(s: Store, r: seq<ValidTask>) {
    && |r| == |s|
    && (forall i :: 0 <= i < |r| ==> r[i].id in s && s[r[i].id] == r[i])
    && (forall id :: id in s ==> s[id] in r)
  }

  /** `find_by_id`. */
  ghost predicate FindByIdContract(s: Store, id: string, r: Option<ValidTask>) {
    r == Lookup(s, id)
  }

  /** `update`: overwrites and returns the task when its id is stored; otherwise returns
      absent and changes nothing. */
  ghost predicate UpdateContract(before: Store, task: ValidTask, after: Store, r: Option<ValidTask>) {
    if task.id in before then r == Some(task) && after == before[task.id := task]
    else r == None && after == before
  }

  /** `delete`: reports whether the id was stored, and it is not stored afterwards. */
  ghost predicate DeleteContract(before: Store, id: string, after: Store, r: bool) {
    r == (id in before) && after == before - {id}
  }

  /** `clear`. */
  ghost predicate ClearContract(after: Store) {
    after == map[]
  }

  /** After a save, looking the task up finds it, and every other key reads as before. */
  lemma SaveThenFind(before: Store, task: ValidTask, after: Store, r: ValidTask)
    requires SaveContract(before, task, after, r)
    ensures r == task && Lookup(after, task.id) == Some(task)
    ensures forall id :: id != task.id ==> Lookup(after, id) == Lookup(before, id)
  {
  }

  /** Saving keeps every task filed under its own id. */
  lemma SaveConsistent(before: Store, task: ValidTask, after: Store, r: ValidTask)
    requires Consistent(before) && SaveContract(before, task, after, r)
    ensures Consistent(after)
  {
  }

  /** Updating changes the value at one existing key and never the key set. */
  lemma UpdateKeepsKeys(before: Store, task: ValidTask, after: Store, r: Option<ValidTask>)
    requires UpdateContract(before, task, after, r)
    ensures after.Keys == before.Keys
    ensures r.Some? ==> Lookup(after, task.id) == Some(task)
    ensures forall id :: id != task.id ==> Lookup(after, id) == Lookup(before, id)
  {
  }

  /** After a delete the id is gone and every other key reads as before; a second delete of
      the same id reports false and changes nothing. */
  lemma DeleteTwice(s0: Store, id: string, s1: Store, r1: bool, s2: Store, r2: bool)
    requires DeleteContract(s0, id, s1, r1) && DeleteContract(s1, id, s2, r2)
    ensures Lookup(s1, id) == None
    ensures forall other :: other != id ==> Lookup(s1, other) == Lookup(s0, other)
    ensures !r2 && s2 == s1
  {
  }

  /** After a clear, listing gives nothing and every lookup is absent. */
  lemma ClearEmpties(after: Store, listed: seq<ValidTask>)
    requires ClearContract(after) && FindAllContract(after, listed)
    ensures listed == []
    ensures forall id :: Lookup(after, id) == None
  {
  }

  /** Two saves of tasks with distinct ids into an empty store list two tasks. */
  lemma TwoSavesListTwo(t1: ValidTask, t2: ValidTask, s1: Store, s2: Store, r1: ValidTask, r2: ValidTask, listed: seq<ValidTask>)
    requires t1.id != t2.id
    requires SaveContract(map[], t1, s1, r1) && SaveContract(s1, t2, s2, r2)
    requires FindAllContract(s2, listed)
    ensures |listed| == 2
  {
    assert s2.Keys == {t1.id, t2.id};
  }
}
