/**
 * The task list returned by `list_tasks` and the set of hashes already on
 * the account (`build_existing_hash_set` in ohc-uploader.py).
 */
module Tasks {
  import opened Wrappers

  /**
   * A task entry of a `list_tasks` response. Only its `hash` field matters
   * here; it is absent (`None`) when the entry has no such key or its value
   * is null. Every other field is only displayed and is not modelled.
   */
  datatype Task = Task(hash: Option<string>)

  /** The entry contributes `h` to the existing set: its hash is present and truthy (non-empty). */
  predicate HasHash(t: Task, h: string) {
    t.hash == Some(h) && h != []
  }

  /** The hashes of a list of task entries, skipping entries without a non-empty hash. */
  function HashesOfTasks(ts: seq<Task>): (r: set<string>)
    ensures forall h :: h in r <==> exists i :: 0 <= i < |ts| && HasHash(ts[i], h)
  {
    if ts == [] then {}
    else
      var init, t := ts[..|ts| - 1], ts[|ts| - 1];
      assert forall i :: 0 <= i < |init| ==> init[i] == ts[i];
      HashesOfTasks(init) + (if t.hash.Some? && t.hash.value != [] then {t.hash.value} else {})
  }

  /**
   * The set of hashes already submitted: the truthy `hash` of every entry of
   * the response's `tasks` field; a missing or empty `tasks` field (`None`,
   * which stands also for null) gives the empty set.
   */
  function ExistingHashes(tasks: Option<seq<Task>>): (r: set<string>)
    ensures tasks.None? ==> r == {}
    ensures tasks.Some? ==> forall h :: h in r <==> exists i :: 0 <= i < |tasks.value| && HasHash(tasks.value[i], h)
  {
    match tasks
    case None => {}
    case Some(ts) => HashesOfTasks(ts)
  }

  /** `build_existing_hash_set`: add the hash of every task entry that has one. */
  method BuildExistingHashSet(tasks: Option<seq<Task>>) returns (existing: set<string>)
    ensures existing == ExistingHashes(tasks)
  {
    var ts := if tasks.Some? then tasks.value else [];
    existing := {};
    for i := 0 to |ts|
      invariant existing == HashesOfTasks(ts[..i])
    {
      var t := ts[i];
      assert ts[..i + 1][..i] == ts[..i];
      if t.hash.Some? && t.hash.value != [] {
        existing := existing + {t.hash.value};
      }
    }
    assert ts[..|ts|] == ts;
  }
}
