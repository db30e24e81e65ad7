/**
 * The worker list of the assignment board (src/App.js): merging an update into a worker,
 * the total of assigned rooms, a worker row's drop callbacks, and the debug workers.
 */
module Workers {
  import opened Wrappers
  import opened Elements
  import opened Sites

  /** A worker; `assignedRooms` is the `assigned` field. */
  datatype Worker = Worker(id: nat, name: string, assignedRooms: seq<Site>)

  /** The fields an update object may carry; absent ones leave the worker's own value. */
  datatype WorkerUpdate = WorkerUpdate(id: Option<nat>, name: Option<string>, assignedRooms: Option<seq<Site>>)

  /** `{...e, ...update}` */
  function Merge(w: Worker, u: WorkerUpdate): (r: Worker)
    ensures u.id.None? ==> r.id == w.id
    ensures u.id.Some? ==> r.id == u.id.value
    ensures u.name.None? ==> r.name == w.name
    ensures u.name.Some? ==> r.name == u.name.value
    ensures u.assignedRooms.None? ==> r.assignedRooms == w.assignedRooms
    ensures u.assignedRooms.Some? ==> r.assignedRooms == u.assignedRooms.value
  {
    Worker(if u.id.Some? then u.id.value else w.id,
           if u.name.Some? then u.name.value else w.name,
           if u.assignedRooms.Some? then u.assignedRooms.value else w.assignedRooms)
  }

  /** `updateWorker(id)(update)`: the update merged into each worker with that id. */
  function UpdateWorker(ws: seq<Worker>, id: nat, u: WorkerUpdate): (r: seq<Worker>)
    ensures |r| == |ws|
    ensures forall i :: 0 <= i < |ws| && ws[i].id != id ==> r[i] == ws[i]
    ensures forall i :: 0 <= i < |ws| && ws[i].id == id ==> r[i] == Merge(ws[i], u)
  {
    seq(|ws|, i requires 0 <= i < |ws| => if ws[i].id != id then ws[i] else Merge(ws[i], u))
  }

  /** `workers.reduce((num, worker) => num + worker.assigned.length, 0)` */
  function TotalAssigned(ws: seq<Worker>): nat {
    if ws == [] then 0 else TotalAssigned(ws[..|ws| - 1]) + |ws[|ws| - 1].assignedRooms|
  }

  /** The total is additive over a split of the list. */
  lemma {:induction false} TotalAssignedConcat(a: seq<Worker>, b: seq<Worker>)
    ensures TotalAssigned(a + b) == TotalAssigned(a) + TotalAssigned(b)
    decreases |b|
  {
    if b == [] {
      assert a + b == a;
    } else {
      var b' := b[..|b| - 1];
      assert (a + b)[..|a + b| - 1] == a + b';
      TotalAssignedConcat(a, b');
    }
  }

  /** Ids are distinct. */
  predicate UniqueIds(ws: seq<Worker>) {
    forall i, j :: 0 <= i < j < |ws| ==> ws[i].id != ws[j].id
  }

  /**
   * Giving the worker at index `j` a new `assigned` list changes the total by exactly the
   * difference in length, when ids are distinct; no other worker changes.
   */
  lemma UpdateAssignedTotal(ws: seq<Worker>, j: nat, items: seq<Site>)
    requires j < |ws| && UniqueIds(ws)
    ensures var r := UpdateWorker(ws, ws[j].id, WorkerUpdate(None, None, Some(items)));
      r == ws[j := ws[j].(assignedRooms := items)] &&
      TotalAssigned(r) + |ws[j].assignedRooms| == TotalAssigned(ws) + |items|
  {
    var r := UpdateWorker(ws, ws[j].id, WorkerUpdate(None, None, Some(items)));
    assert r == ws[j := ws[j].(assignedRooms := items)];
    assert ws == ws[..j] + [ws[j]] + ws[j + 1..];
    assert r == ws[..j] + [r[j]] + ws[j + 1..];
    TotalAssignedConcat(ws[..j] + [ws[j]], ws[j + 1..]);
    TotalAssignedConcat(ws[..j], [ws[j]]);
    TotalAssignedConcat(ws[..j] + [r[j]], ws[j + 1..]);
    TotalAssignedConcat(ws[..j], [r[j]]);
    assert TotalAssigned([ws[j]]) == |ws[j].assignedRooms| by { assert [ws[j]][..0] == []; }
    assert TotalAssigned([r[j]]) == |items| by { assert [r[j]][..0] == []; }
  }

  /** A worker row's `onAdd(added)`: the projected payload after the row's rooms, pushed to the worker. */
  function RowOnAdd(ws: seq<Worker>, id: nat, items: seq<Site>, added: seq<Props>): (seq<Site>, seq<Worker>) {
    var newItems := SiteReduce(items, Add(added)).value;
    (newItems, UpdateWorker(ws, id, WorkerUpdate(None, None, Some(newItems))))
  }

  /** A worker row's `onRemove(removed)`: the rooms whose id is not removed, pushed to the worker. */
  function RowOnRemove(ws: seq<Worker>, id: nat, items: seq<Site>, removed: seq<Props>): (seq<Site>, seq<Worker>) {
    var newItems := SiteReduce(items, Remove(removed)).value;
    (newItems, UpdateWorker(ws, id, WorkerUpdate(None, None, Some(newItems))))
  }

  /**
   * A drop onto worker `j`'s row appends the offered rooms after the row's own and raises
   * the total by their number; a removal keeps exactly the rooms not named and lowers the
   * total by what it dropped.
   */
  lemma RowDropCallbacks(ws: seq<Worker>, j: nat, added: seq<Props>, removed: seq<Props>)
    requires j < |ws| && UniqueIds(ws)
    ensures var (items, r) := RowOnAdd(ws, ws[j].id, ws[j].assignedRooms, added);
      items[..|ws[j].assignedRooms|] == ws[j].assignedRooms && |items| == |ws[j].assignedRooms| + |added| &&
      TotalAssigned(r) == TotalAssigned(ws) + |added|
    ensures var (items, r) := RowOnRemove(ws, ws[j].id, ws[j].assignedRooms, removed);
      (forall x :: x in items <==> x in ws[j].assignedRooms && x.id !in PayloadIds(removed)) &&
      TotalAssigned(r) + |ws[j].assignedRooms| == TotalAssigned(ws) + |items|
  {
    SiteReduceSemantics(ws[j].assignedRooms, added, "");
    var (items, r) := RowOnAdd(ws, ws[j].id, ws[j].assignedRooms, added);
    UpdateAssignedTotal(ws, j, items);
    var (kept, r') := RowOnRemove(ws, ws[j].id, ws[j].assignedRooms, removed);
    UpdateAssignedTotal(ws, j, kept);
  }

  /** The four debug workers, ids 0 to 3, none assigned anything. */
  const DebugWorkers: seq<Worker> :=
    [Worker(0, "Noah", []), Worker(1, "James", []), Worker(2, "Ethan", []), Worker(3, "Henry", [])]

  /** `menuDebugWorkers`: the debug workers after the existing ones. */
  function MenuDebugWorkers(ws: seq<Worker>): seq<Worker> {
    ws + DebugWorkers
  }

  /**
   * The debug menu keeps the existing workers in front, adds four workers with ids 0..3 and
   * empty lists, and leaves the total unchanged.
   */
  lemma DebugWorkersAdded(ws: seq<Worker>)
    ensures var r := MenuDebugWorkers(ws);
      |r| == |ws| + 4 && r[..|ws|] == ws &&
      (forall i :: |ws| <= i < |r| ==> r[i].id == i - |ws| && r[i].assignedRooms == []) &&
      TotalAssigned(r) == TotalAssigned(ws)
  {
    TotalAssignedConcat(ws, DebugWorkers);
    NothingAssigned(DebugWorkers);
  }

  /** Workers with empty lists add nothing to the total. */
  lemma {:induction false} NothingAssigned(ws: seq<Worker>)
    requires forall i :: 0 <= i < |ws| ==> ws[i].assignedRooms == []
    ensures TotalAssigned(ws) == 0
  {
    if ws != [] {
      NothingAssigned(ws[..|ws| - 1]);
    }
  }
}
