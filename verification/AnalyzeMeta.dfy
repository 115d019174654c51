/** The analyze-task table of the data coordinator: task objects in memory, written through to a catalog, rebuilt
    from it after a crash, and re-queued by the inspector. */
module AnalyzeMetas {
  import opened Wrappers

  /** A 64-bit task ID. */
  type TaskID = x: int | -0x8000_0000_0000_0000 <= x < 0x8000_0000_0000_0000

  datatype JobState = JobNone | Init | InProgress | Finished | Failed | Retry

  /** The content of a task, as the catalog stores it. */
  datatype TaskInfo = TaskInfo(
    taskID: TaskID,
    version: int,
    nodeID: int,
    state: JobState,
    failReason: string,
    centroids: string)

  /** Some element of a set: the order in which a map is walked is left open. */
  method AnyOf<T>(s: set<T>) returns (x: T)
    requires s != {}
    ensures x in s
  {
    x :| x in s;
  }

  /** A task object. Clients get references to it, so it matters which objects an update writes to. */
  class AnalyzeTask {
    var info: TaskInfo

    constructor (info: TaskInfo)
      ensures this.info == info
    {
      this.info := info;
    }

    method Clone() returns (t: AnalyzeTask)
      ensures fresh(t) && t.info == info
    {
      t := new AnalyzeTask(info);
    }
  }

  /** The durable store. A call either fails and changes nothing, or takes effect. */
  class Catalog {
    var store: map<TaskID, TaskInfo>

    constructor (store: map<TaskID, TaskInfo>)
      ensures this.store == store
    {
      this.store := store;
    }

    method Save(info: TaskInfo, fails: bool) returns (ok: bool)
      modifies this
      ensures ok == !fails
      ensures store == if ok then old(store)[info.taskID := info] else old(store)
    {
      if fails {
        return false;
      }
      store := store[info.taskID := info];
      ok := true;
    }

    method Drop(taskID: TaskID, fails: bool) returns (ok: bool)
      modifies this
      ensures ok == !fails
      ensures store == if ok then old(store) - {taskID} else old(store)
    {
      if fails {
        return false;
      }
      store := store - {taskID};
      ok := true;
    }

    /** Every stored task, in some order. */
    method List(fails: bool) returns (r: Option<seq<TaskInfo>>)
      requires WellKeyed(store)
      ensures r.None? <==> fails
      ensures r.Some? ==> forall i :: 0 <= i < |r.value| ==>
                r.value[i].taskID in store && r.value[i] == store[r.value[i].taskID]
      ensures r.Some? ==> forall id :: id in store ==> store[id] in r.value
    {
      if fails {
        return None;
      }
      var tasks: seq<TaskInfo> := [];
      var pending := store.Keys;
      while pending != {}
        invariant pending <= store.Keys
        invariant forall i :: 0 <= i < |tasks| ==> tasks[i].taskID in store && tasks[i] == store[tasks[i].taskID]
        invariant forall id :: id in store && id !in pending ==> store[id] in tasks
        decreases pending
      {
        var id := AnyOf(pending);
        pending := pending - {id};
        tasks := tasks + [store[id]];
      }
      r := Some(tasks);
    }
  }

  /** Every task is stored under its own ID. */
  ghost predicate WellKeyed(m: map<TaskID, TaskInfo>) {
    forall id :: id in m ==> m[id].taskID == id
  }

  // ----- The updates as functions on task contents -----

  datatype Update =
    | UpdateVersion(nodeID: int)
    | Building
    | UpdateState(state: JobState, failReason: string)
    | Finish(result: JobState, reason: string, centroids: string)

  /** Each field is set by the updates that are about it, and by no other. */
  function Updated(t: TaskInfo, u: Update): (r: TaskInfo)
    ensures r.taskID == t.taskID
    ensures u.UpdateVersion? ==> r == t.(version := r.version, nodeID := u.nodeID) && r.version == t.version + 1
    ensures !u.UpdateVersion? ==> r.version == t.version && r.nodeID == t.nodeID
    ensures u.Building? ==> r == t.(state := r.state) && r.state.InProgress?
    ensures u.UpdateState? ==> (r.state, r.failReason, r.centroids) == (u.state, u.failReason, t.centroids)
    ensures u.Finish? ==> (r.state, r.failReason, r.centroids) == (u.result, u.reason, u.centroids)
  {
    match u
    case UpdateVersion(nodeID) => t.(version := t.version + 1, nodeID := nodeID)
    case Building => t.(state := InProgress)
    case UpdateState(state, failReason) => t.(state := state, failReason := failReason)
    case Finish(result, reason, centroids) => t.(state := result, failReason := reason, centroids := centroids)
  }

  /** Whether the inspector re-queues a task after a restart. */
  predicate Unfinished(t: TaskInfo): (b: bool)
    ensures !b <==> t.state in {JobNone, Finished, Failed}
  {
    t.state == Init || t.state == Retry || t.state == InProgress
  }

  class AnalyzeMeta {
    const catalog: Catalog
    var tasks: map<TaskID, AnalyzeTask>

    /** What memory says: the contents of the task objects. */
    ghost function Memory(): map<TaskID, TaskInfo>
      reads this, tasks.Values
    {
      map id | id in tasks :: tasks[id].info
    }

    /** Memory and the catalog agree, and the catalog is keyed by task ID. */
    ghost predicate Synced()
      reads this, catalog, tasks.Values
    {
      Memory() == catalog.store && WellKeyed(catalog.store)
    }

    /** A table over a catalog, still empty. */
    constructor (catalog: Catalog)
      ensures this.catalog == catalog && tasks == map[]
    {
      this.catalog, tasks := catalog, map[];
    }

    /** Fills a new table from the catalog: it holds exactly what the catalog holds, in objects of its own. */
    method ReloadFromKV(fails: bool) returns (ok: bool)
      requires tasks == map[] && WellKeyed(catalog.store)
      modifies this`tasks
      ensures ok == !fails
      ensures ok ==> Synced() && forall id :: id in tasks ==> fresh(tasks[id])
      ensures !ok ==> tasks == map[]
    {
      var listed := catalog.List(fails);
      if listed.None? {
        return false;
      }
      var all := listed.value;
      for i := 0 to |all|
        invariant forall id :: id in tasks ==>
                    id in catalog.store && fresh(tasks[id]) && tasks[id].info == catalog.store[id]
        invariant forall j :: 0 <= j < i ==> all[j].taskID in tasks
      {
        var t := new AnalyzeTask(all[i]);
        tasks := tasks[all[i].taskID := t];
      }
      forall id | id in catalog.store
        ensures id in tasks
      {
        var i :| 0 <= i < |all| && all[i] == catalog.store[id];
        assert all[i].taskID == id;
      }
      assert tasks.Keys == catalog.store.Keys;
      ok := true;
    }

    /** Writes through: first the catalog, then memory, and memory only if the catalog took it. */
    method SaveTask(t: AnalyzeTask, fails: bool) returns (ok: bool)
      requires Synced()
      modifies this`tasks, catalog
      ensures Synced() && ok == !fails
      ensures tasks == if ok then old(tasks)[t.info.taskID := t] else old(tasks)
      ensures catalog.store == if ok then old(catalog.store)[t.info.taskID := t.info] else old(catalog.store)
    {
      var saved := catalog.Save(t.info, fails);
      if !saved {
        return false;
      }
      tasks := tasks[t.info.taskID := t];
      ok := true;
    }

    method GetTask(taskID: TaskID) returns (t: AnalyzeTask?)
      ensures t == if taskID in tasks then tasks[taskID] else null
    {
      if taskID in tasks {
        return tasks[taskID];
      }
      t := null;
    }

    /** The caller's object itself becomes the table's object. */
    method AddAnalyzeTask(t: AnalyzeTask, fails: bool) returns (ok: bool)
      requires Synced()
      modifies this`tasks, catalog
      ensures Synced() && ok == !fails
      ensures catalog.store == if ok then old(catalog.store)[t.info.taskID := t.info] else old(catalog.store)
      ensures tasks == if ok then old(tasks)[t.info.taskID := t] else old(tasks)
    {
      ok := SaveTask(t, fails);
    }

    method DropAnalyzeTask(taskID: TaskID, fails: bool) returns (ok: bool)
      requires Synced()
      modifies this`tasks, catalog
      ensures Synced() && ok == !fails
      ensures catalog.store == if ok then old(catalog.store) - {taskID} else old(catalog.store)
      ensures tasks == if ok then old(tasks) - {taskID} else old(tasks)
    {
      var dropped := catalog.Drop(taskID, fails);
      if !dropped {
        return false;
      }
      tasks := tasks - {taskID};
      ok := true;
    }

    /** UpdateVersion, BuildingTask, UpdateState and FinishTask: a clone is changed and saved. The object that was in
        the table, which clients may hold, is not written to; a failing catalog call changes nothing. */
    method Apply(taskID: TaskID, u: Update, fails: bool) returns (ok: bool)
      requires Synced()
      modifies this`tasks, catalog
      ensures Synced()
      ensures ok == (taskID in old(catalog.store) && !fails)
      ensures catalog.store == if ok then old(catalog.store)[taskID := Updated(old(catalog.store)[taskID], u)]
                               else old(catalog.store)
      ensures ok ==> taskID in tasks && fresh(tasks[taskID])
      ensures forall id :: id in old(tasks) && (id != taskID || !ok) ==> id in tasks && tasks[id] == old(tasks)[id]
    {
      assert taskID in tasks <==> taskID in Memory();
      if taskID !in tasks {
        return false;
      }
      var clone := tasks[taskID].Clone();
      match u {
        case UpdateVersion(nodeID) => clone.info := clone.info.(version := clone.info.version + 1, nodeID := nodeID);
        case Building => clone.info := clone.info.(state := InProgress);
        case UpdateState(state, failReason) => clone.info := clone.info.(state := state, failReason := failReason);
        case Finish(result, reason, centroids) =>
          clone.info := clone.info.(state := result, failReason := reason, centroids := centroids);
      }
      assert clone.info.taskID == taskID;
      ok := SaveTask(clone, fails);
    }
  }

  /** A crash loses the table; a new one over the same catalog says exactly what the lost one said. */
  method CrashAndReload(lost: AnalyzeMeta) returns (m: AnalyzeMeta)
    requires lost.Synced()
    ensures fresh(m) && m.catalog == lost.catalog && m.Synced() && m.Memory() == lost.Memory()
  {
    m := new AnalyzeMeta(lost.catalog);
    var ok := m.ReloadFromKV(false);
  }

  /** The unfinished tasks among the given ones, each once, in some order. */
  ghost predicate Queued(infos: seq<TaskInfo>, m: map<TaskID, TaskInfo>, among: set<TaskID>) {
    && (forall i :: 0 <= i < |infos| ==>
          infos[i].taskID in among && infos[i].taskID in m && infos[i] == m[infos[i].taskID] && Unfinished(infos[i]))
    && (forall i, j :: 0 <= i < j < |infos| ==> infos[i].taskID != infos[j].taskID)
    && forall id :: id in among && id in m && Unfinished(m[id]) ==> m[id] in infos
  }

  lemma QueueNext(infos: seq<TaskInfo>, m: map<TaskID, TaskInfo>, among: set<TaskID>, id: TaskID)
    requires Queued(infos, m, among) && WellKeyed(m) && id in m && id !in among
    ensures Queued(if Unfinished(m[id]) then infos + [m[id]] else infos, m, among + {id})
  {
    if Unfinished(m[id]) {
      assert (infos + [m[id]])[|infos|] == m[id];
      forall k | k in among && k in m && Unfinished(m[k])
        ensures m[k] in infos + [m[id]]
      {
        assert m[k] in infos;
      }
    }
  }

  /** The inspector queues a clone of every unfinished task, once, and of no other. */
  method ReloadFromMeta(m: AnalyzeMeta) returns (queue: seq<AnalyzeTask>)
    requires m.Synced()
    ensures forall i :: 0 <= i < |queue| ==> fresh(queue[i])
    ensures Queued(Infos(queue), m.Memory(), m.Memory().Keys)
    ensures forall i :: 0 <= i < |queue| ==> queue[i].info.state in {Init, Retry, InProgress}
    ensures forall id :: id in m.Memory() && m.Memory()[id].state in {Init, Retry, InProgress} ==>
              m.Memory()[id] in Infos(queue)
  {
    queue := [];
    var pending := m.tasks.Keys;
    ghost var memory, infos: seq<TaskInfo>, done: set<TaskID> := m.Memory(), [], {};
    while pending != {}
      invariant pending <= m.tasks.Keys && done == m.tasks.Keys - pending
      invariant |queue| == |infos|
      invariant forall i :: 0 <= i < |queue| ==> fresh(queue[i]) && queue[i].info == infos[i]
      invariant Queued(infos, memory, done)
      decreases pending
    {
      var id := AnyOf(pending);
      QueueNext(infos, memory, done, id);
      pending := pending - {id};
      done := done + {id};
      var t := m.tasks[id];
      assert memory[id] == t.info;
      if t.info.state != Init && t.info.state != Retry && t.info.state != InProgress {
        continue;
      }
      var clone := t.Clone();
      queue := queue + [clone];
      infos := infos + [t.info];
    }
    assert done == memory.Keys;
    assert Infos(queue) == infos;
  }

  /** What the queued tasks hold. */
  ghost function Infos(queue: seq<AnalyzeTask>): (infos: seq<TaskInfo>)
    reads queue
    ensures |infos| == |queue|
    ensures forall i :: 0 <= i < |queue| ==> infos[i] == queue[i].info
  {
    seq(|queue|, i requires 0 <= i < |queue| reads queue => queue[i].info)
  }

  // ----- Runs -----

  /** One call: which task, what update, or an addition or removal, and whether the catalog call fails. */
  datatype Call =
    | Add(info: TaskInfo, fails: bool)
    | Drop(id: TaskID, fails: bool)
    | Change(id: TaskID, u: Update, fails: bool)

  function Step(store: map<TaskID, TaskInfo>, c: Call): map<TaskID, TaskInfo> {
    if c.fails then store
    else match c
      case Add(info, _) => store[info.taskID := info]
      case Drop(id, _) => store - {id}
      case Change(id, u, _) => if id in store then store[id := Updated(store[id], u)] else store
  }

  function RunCalls(store: map<TaskID, TaskInfo>, calls: seq<Call>): map<TaskID, TaskInfo>
    decreases calls
  {
    if calls == [] then store else RunCalls(Step(store, calls[0]), calls[1..])
  }

  function VersionBumps(calls: seq<Call>, id: TaskID): nat
    decreases calls
  {
    if calls == [] then 0
    else (if calls[0].Change? && calls[0].id == id && calls[0].u.UpdateVersion? && !calls[0].fails then 1 else 0)
         + VersionBumps(calls[1..], id)
  }

  /** A successful addition of the task. */
  predicate Adds(c: Call, id: TaskID) {
    c.Add? && c.info.taskID == id && !c.fails
  }

  /** How many calls there are up to the last addition of the task; 0 if it is not added. */
  function LastAdded(calls: seq<Call>, id: TaskID): (k: nat)
    ensures k <= |calls|
    ensures k > 0 ==> Adds(calls[k-1], id)
    ensures forall i :: k <= i < |calls| ==> !Adds(calls[i], id)
  {
    if calls == [] then 0
    else if Adds(calls[|calls|-1], id) then |calls|
    else LastAdded(calls[..|calls|-1], id)
  }

  lemma {:induction false} VersionSince(store: map<TaskID, TaskInfo>, calls: seq<Call>, id: TaskID)
    requires forall i :: 0 <= i < |calls| ==> !Adds(calls[i], id)
    requires id in RunCalls(store, calls)
    ensures id in store && RunCalls(store, calls)[id].version == store[id].version + VersionBumps(calls, id)
    decreases calls
  {
    if calls != [] {
      VersionSince(Step(store, calls[0]), calls[1..], id);
    }
  }

  lemma {:induction false} RunInTwo(store: map<TaskID, TaskInfo>, calls: seq<Call>, k: nat)
    requires k <= |calls|
    ensures RunCalls(store, calls) == RunCalls(RunCalls(store, calls[..k]), calls[k..])
    decreases calls
  {
    if k > 0 {
      RunInTwo(Step(store, calls[0]), calls[1..], k - 1);
      assert calls[1..][..k-1] == calls[..k][1..] && calls[1..][k-1..] == calls[k..];
    } else {
      assert calls[0..] == calls;
    }
  }

  lemma RunAdds(store: map<TaskID, TaskInfo>, calls: seq<Call>, k: nat, id: TaskID)
    requires 0 < k <= |calls| && Adds(calls[k-1], id)
    ensures id in RunCalls(store, calls[..k]) && RunCalls(store, calls[..k])[id] == calls[k-1].info
  {
    RunInTwo(store, calls[..k], k - 1);
    assert calls[..k][k-1..] == [calls[k-1]] && [calls[k-1]][1..] == [];
    var before := RunCalls(store, calls[..k][..k-1]);
    assert RunCalls(before, [calls[k-1]]) == RunCalls(Step(before, calls[k-1]), []);
  }

  /** Over any run that leaves the task in the store, its version is the one it was last added with, or the one it had
      at the start if it was not added, plus the number of successful UpdateVersion calls for it since; nothing else
      moves it. */
  lemma VersionsGrowOnlyByUpdateVersion(store: map<TaskID, TaskInfo>, calls: seq<Call>, id: TaskID)
    requires id in RunCalls(store, calls)
    ensures var k := LastAdded(calls, id);
            && (k == 0 ==> id in store)
            && var base := if k > 0 then calls[k-1].info.version else store[id].version;
            RunCalls(store, calls)[id].version == base + VersionBumps(calls[k..], id)
  {
    var k := LastAdded(calls, id);
    RunInTwo(store, calls, k);
    VersionSince(RunCalls(store, calls[..k]), calls[k..], id);
    if k > 0 {
      RunAdds(store, calls, k, id);
    }
  }

  /** A call that goes through and says what state the task is in: an addition, or any update but that of the
      version. */
  predicate SetsState(c: Call, id: TaskID) {
    !c.fails && match c
      case Add(info, _) => info.taskID == id
      case Drop(_, _) => false
      case Change(changed, u, _) => changed == id && !u.UpdateVersion?
  }

  function StateSet(c: Call, id: TaskID): JobState
    requires SetsState(c, id)
  {
    if c.Add? then c.info.state
    else match c.u
      case Building => InProgress
      case UpdateState(state, _) => state
      case Finish(result, _, _) => result
  }

  lemma {:induction false} StateStays(store: map<TaskID, TaskInfo>, calls: seq<Call>, id: TaskID)
    requires id in RunCalls(store, calls) && forall i :: 0 <= i < |calls| ==> !SetsState(calls[i], id)
    ensures id in store && RunCalls(store, calls)[id].state == store[id].state
    decreases calls
  {
    if calls != [] {
      assert !SetsState(calls[0], id);
      StateStays(Step(store, calls[0]), calls[1..], id);
    }
  }

  /** Over any run that leaves the task in the store, its state is the one that was set last, by whatever call. */
  lemma StateIsLastSet(store: map<TaskID, TaskInfo>, calls: seq<Call>, id: TaskID, k: nat)
    requires k < |calls| && SetsState(calls[k], id) && forall i :: k < i < |calls| ==> !SetsState(calls[i], id)
    requires id in RunCalls(store, calls)
    ensures RunCalls(store, calls)[id].state == StateSet(calls[k], id)
  {
    RunInTwo(store, calls, k);
    var before, rest := RunCalls(store, calls[..k]), calls[k..];
    assert rest[0] == calls[k] && RunCalls(before, rest) == RunCalls(Step(before, calls[k]), rest[1..]);
    assert forall i :: 0 <= i < |rest| - 1 ==> rest[1..][i] == calls[k + 1 + i];
    StateStays(Step(before, calls[k]), rest[1..], id);
  }

  /** The tasks a restarted inspector queues are those an uninterrupted run leaves unfinished. */
  method RunAndRestart(m: AnalyzeMeta, calls: seq<Call>) returns (restarted: AnalyzeMeta, queue: seq<AnalyzeTask>)
    requires m.Synced()
    modifies m`tasks, m.catalog
    ensures m.catalog.store == RunCalls(old(m.catalog.store), calls)
    ensures fresh(restarted) && restarted.Synced() && restarted.Memory() == RunCalls(old(m.catalog.store), calls)
    ensures Queued(Infos(queue), restarted.Memory(), restarted.Memory().Keys)
    ensures forall i :: 0 <= i < |queue| ==> queue[i].info.state in {Init, Retry, InProgress}
  {
    ghost var start := m.catalog.store;
    assert calls[0..] == calls;
    for i := 0 to |calls|
      invariant m.Synced()
      invariant RunCalls(m.catalog.store, calls[i..]) == RunCalls(start, calls)
    {
      assert calls[i..][1..] == calls[i+1..];
      var ok;
      match calls[i] {
        case Add(info, fails) =>
          var t := new AnalyzeTask(info);
          ok := m.AddAnalyzeTask(t, fails);
        case Drop(id, fails) => ok := m.DropAnalyzeTask(id, fails);
        case Change(id, u, fails) => ok := m.Apply(id, u, fails);
      }
    }
    restarted := CrashAndReload(m);
    queue := ReloadFromMeta(restarted);
  }
}
