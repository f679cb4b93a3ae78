/**
 * lib/features/outline/outline.ts: the debounced persistence of the outline maps, and
 * the conversion between the maps and the rows of the storage tables.
 *
 * `createOutlinePersistenceScheduler` owns a private `Scheduler` and a set of the task
 * ids it scheduled. A callback pushed to the scheduler is data here (see `Sched`); its
 * `tag` is the index of the payload it was pushed with in `payloads`. Each persist
 * callback starts a save and, when the save settles, deletes its task id from the set:
 * that settlement is the event `Complete`. The save itself (SQL) is not part of this
 * model; its effect on the tables of one book is `SaveOps` applied by `ApplyAll`.
 */
module OutlinePersistence {
  import opened Wrappers
  import opened OutlineTree
  import opened Sched

  // ---------------------------------------------------------------------------
  // Scheduling

  /** `getStorageSchedulerId(\`outline-persist-${bookId}\`)`. */
  function TaskId(bookId: string): string {
    "storage-" + "outline-persist-" + bookId
  }

  /** Two books never share a task id, so coalescing happens per book and only per book. */
  lemma TaskIdInjective(a: string, b: string)
    ensures TaskId(a) == TaskId(b) <==> a == b
  {
    if TaskId(a) == TaskId(b) {
      var n := |"storage-outline-persist-"|;
      assert a == TaskId(a)[n..] && b == TaskId(b)[n..];
    }
  }

  /** The default `waitMs` of `createOutlinePersistenceScheduler`. */
  const DefaultWaitMs := 250

  datatype Payload = Payload(bookId: string, maps: Maps)

  /** The task a `schedule(payload, immediate)` pushes. */
  function PersistTask(bookId: string, immediate: bool, waitMs: int, now: int, tag: nat, serial: nat): (t: Task)
    ensures t.id == TaskId(bookId) && t.callback == Callback(tag, Returns, 0) && t.serial == serial
    ensures immediate ==> t.priority == Sync && t.expiredTime == now
    ensures !immediate ==> t.priority == Default && t.expiredTime == now + waitMs
  {
    var p := if immediate then Sync else Default;
    Task(TaskId(bookId), p, Callback(tag, Returns, 0), Deadline(now, p, Some(if immediate then 0 else waitMs)), serial)
  }

  /** `payloads[tag]` is the latest payload scheduled for its book. */
  ghost predicate Latest(payloads: seq<Payload>, tag: nat) {
    tag < |payloads| && forall j | tag < j < |payloads| :: payloads[j].bookId != payloads[tag].bookId
  }

  /**
   * A live map of persist tasks: each task carries, under its book's task id, the latest
   * payload scheduled for that book; and its callback resolves (a failed save is caught
   * inside the callback, so no persist task ever throws into the scheduler).
   */
  ghost predicate LiveLatest(m: map<string, Task>, payloads: seq<Payload>) {
    forall id | id in m ::
      && Latest(payloads, m[id].callback.tag)
      && TaskId(payloads[m[id].callback.tag].bookId) == id
      && m[id].callback.outcome == Returns
  }

  class PersistenceScheduler {
    const scheduler: Scheduler
    const waitMs: int
    var scheduledTaskIds: set<string>
    /** What each pushed callback closes over, by tag. */
    var payloads: seq<Payload>
    /** Which invocations in `scheduler.executed` have settled. */
    var settled: set<nat>
    /** The payloads whose save succeeded, in order of settlement. */
    var saved: seq<Payload>

    /**
     * The scheduler is in its own invariant, its live tasks are as `LiveLatest` says, and
     * every invocation it made ran one of our callbacks.
     */
    ghost predicate Wired()
      reads this, scheduler, scheduler.timeQueue, scheduler.taskQueue
    {
      && scheduler.Valid()
      && LiveLatest(scheduler.taskIdMap, payloads)
      && (forall i | 0 <= i < |scheduler.executed| ::
            scheduler.executed[i].callback.tag < |payloads| && scheduler.executed[i].callback.outcome == Returns)
    }

    /** Every task still pending in the scheduler is recorded in `scheduledTaskIds`. */
    ghost predicate Tracked()
      reads this, scheduler
    {
      forall id | id in scheduler.taskIdMap :: id in scheduledTaskIds
    }

    constructor (clock: int, waitMs: int)
      ensures Wired() && Tracked() && fresh(scheduler) && fresh(scheduler.timeQueue) && fresh(scheduler.taskQueue)
      ensures scheduler.now == clock && scheduler.nextSerial == 0 && settled == {}
      ensures this.waitMs == waitMs && scheduledTaskIds == {} && payloads == [] && saved == []
      ensures scheduler.taskIdMap == map[] && scheduler.executed == []
    {
      scheduler := new Scheduler(clock);
      this.waitMs := waitMs;
      scheduledTaskIds := {};
      payloads := [];
      settled := {};
      saved := [];
    }

    /**
     * `schedule(payload, immediate)`: records the book's task id and pushes the persist
     * task under it, superseding any pending persist of the same book. An immediate
     * persist runs at once (priority Sync, no delay); otherwise it waits `waitMs` at
     * priority Default, and the book's live task is the one carrying this payload.
     */
    method Schedule(payload: Payload, immediate: bool)
      requires Wired()
      modifies this, scheduler, scheduler.timeQueue, scheduler.taskQueue
      ensures Wired() && (old(Tracked()) ==> Tracked())
      ensures scheduledTaskIds == old(scheduledTaskIds) + {TaskId(payload.bookId)}
      ensures payloads == old(payloads) + [payload] && saved == old(saved) && settled == old(settled)
      ensures var task := PersistTask(payload.bookId, immediate, waitMs, old(scheduler.now), |old(payloads)|, old(scheduler.nextSerial));
        && (!immediate ==>
              && scheduler.taskIdMap == old(scheduler.taskIdMap)[task.id := task]
              && scheduler.executed == old(scheduler.executed))
        && (immediate ==>
              && old(scheduler.executed) <= scheduler.executed
              && task in scheduler.executed[|old(scheduler.executed)|..]
              && !scheduler.HasTaskById(task.id))
    {
      var taskId := TaskId(payload.bookId);
      scheduledTaskIds := scheduledTaskIds + {taskId};
      var tag := |payloads|;
      payloads := payloads + [payload];
      ghost var m0, e0 := scheduler.taskIdMap, scheduler.executed;
      ghost var task := PersistTask(payload.bookId, immediate, waitMs, scheduler.now, tag, scheduler.nextSerial);
      scheduler.Push(taskId, Some(if immediate then Sync else Default), Some(if immediate then 0 else waitMs),
                     Callback(tag, Returns, 0));
      LatestAfterPush(m0, payloads[..tag], payload, task);
      RunKeepsTags(e0, scheduler.executed, m0[taskId := task], |payloads|);
    }

    /**
     * The persist callback of invocation `i` settles: its save succeeded (`ok`) or failed
     * and was caught. Then `scheduledTaskIds.delete(taskId)`, as written: the id is
     * dropped even when a newer persist of the same book is pending under it.
     */
    method CompleteAsWritten(i: nat, ok: bool)
      requires Wired() && i < |scheduler.executed| && i !in settled
      modifies this
      ensures Wired() && settled == old(settled) + {i}
      ensures var task := scheduler.executed[i];
        && saved == old(saved) + (if ok then [payloads[task.callback.tag]] else [])
        && scheduledTaskIds == old(scheduledTaskIds) - {task.id}
    {
      var task := scheduler.executed[i];
      settled := settled + {i};
      if ok {
        saved := saved + [payloads[task.callback.tag]];
      }
      scheduledTaskIds := scheduledTaskIds - {task.id};
    }

    /**
     * The settlement with the id kept while the scheduler still has a pending task under
     * it, so that `scheduledTaskIds` keeps covering every pending persist.
     */
    method Complete(i: nat, ok: bool)
      requires Wired() && i < |scheduler.executed| && i !in settled
      modifies this
      ensures Wired() && settled == old(settled) + {i}
      ensures old(Tracked()) ==> Tracked()
      ensures var task := scheduler.executed[i];
        && saved == old(saved) + (if ok then [payloads[task.callback.tag]] else [])
        && scheduledTaskIds == if scheduler.HasTaskById(task.id) then old(scheduledTaskIds)
                               else old(scheduledTaskIds) - {task.id}
    {
      var task := scheduler.executed[i];
      settled := settled + {i};
      if ok {
        saved := saved + [payloads[task.callback.tag]];
      }
      if !scheduler.HasTaskById(task.id) {
        scheduledTaskIds := scheduledTaskIds - {task.id};
      }
    }

    /**
     * `cancel()`: cancels every recorded task id in the scheduler, then empties the set.
     * With every pending persist recorded, nothing is left pending.
     */
    method Cancel()
      requires Wired()
      modifies this, scheduler
      ensures Wired() && scheduledTaskIds == {}
      ensures scheduler.taskIdMap == old(scheduler.taskIdMap) - old(scheduledTaskIds)
      ensures old(Tracked()) ==> scheduler.taskIdMap == map[]
      ensures scheduler.executed == old(scheduler.executed) && payloads == old(payloads)
      ensures saved == old(saved) && settled == old(settled)
    {
      var ids := scheduledTaskIds;
      while ids != {}
        invariant Wired() && ids <= old(scheduledTaskIds)
        invariant scheduler.taskIdMap == old(scheduler.taskIdMap) - (old(scheduledTaskIds) - ids)
        invariant scheduler.executed == old(scheduler.executed) && payloads == old(payloads)
        invariant saved == old(saved) && settled == old(settled) && scheduledTaskIds == old(scheduledTaskIds)
        decreases ids
      {
        var taskId :| taskId in ids;
        scheduler.Cancel(taskId);
        ids := ids - {taskId};
      }
      scheduledTaskIds := {};
    }

    /** The host clock moves forward. */
    method AdvanceClock(dt: nat)
      requires Wired()
      modifies scheduler
      ensures Wired() && (old(Tracked()) ==> Tracked())
      ensures scheduler.taskIdMap == old(scheduler.taskIdMap) && scheduler.executed == old(scheduler.executed)
    {
      scheduler.AdvanceClock(dt);
    }

    /**
     * The scheduler's deadline timer fires at `at`. Every persist it runs carries the
     * latest payload scheduled for its book: an earlier payload of the same book was
     * superseded and is never written.
     */
    method FireTimer(at: int)
      requires Wired() && scheduler.timerArmed && at >= scheduler.now && at >= scheduler.scheduleTimestamp
      modifies scheduler, scheduler.timeQueue, scheduler.taskQueue
      ensures Wired() && (old(Tracked()) ==> Tracked())
      ensures old(scheduler.executed) <= scheduler.executed
      ensures forall t | t in scheduler.executed[|old(scheduler.executed)|..] ::
        Latest(payloads, t.callback.tag) && TaskId(payloads[t.callback.tag].bookId) == t.id
    {
      ghost var m0, e0 := scheduler.taskIdMap, scheduler.executed;
      scheduler.FireTimer(at);
      RunKeepsTags(e0, scheduler.executed, m0, |payloads|);
    }

    /** The scheduler's zero-delay continuation fires; it too runs only latest payloads. */
    method FireContinuation()
      requires Wired() && scheduler.flushScheduled
      modifies scheduler, scheduler.timeQueue, scheduler.taskQueue
      ensures Wired() && (old(Tracked()) ==> Tracked())
      ensures old(scheduler.executed) <= scheduler.executed
      ensures forall t | t in scheduler.executed[|old(scheduler.executed)|..] ::
        Latest(payloads, t.callback.tag) && TaskId(payloads[t.callback.tag].bookId) == t.id
    {
      ghost var m0, e0 := scheduler.taskIdMap, scheduler.executed;
      scheduler.FireContinuation();
      RunKeepsTags(e0, scheduler.executed, m0, |payloads|);
    }

    /** Pushing the newest payload of a book under its id keeps every live task the latest of its book. */
    static lemma LatestAfterPush(m: map<string, Task>, payloads: seq<Payload>, payload: Payload, task: Task)
      requires LiveLatest(m, payloads)
      requires task.id == TaskId(payload.bookId) && task.callback.tag == |payloads| && task.callback.outcome == Returns
      ensures LiveLatest(m[task.id := task], payloads + [payload])
    {
      var ps := payloads + [payload];
      forall id | id in m && id != task.id
        ensures Latest(ps, m[id].callback.tag)
      {
        TaskIdInjective(payloads[m[id].callback.tag].bookId, payload.bookId);
      }
    }

    /** Every invocation the scheduler adds ran a task live at that time, so it carries one of our payloads. */
    static lemma RunKeepsTags(e0: seq<Task>, e1: seq<Task>, m: map<string, Task>, n: nat)
      requires e0 <= e1 && forall t | t in e1[|e0|..] :: LiveIn(m, t)
      requires forall i | 0 <= i < |e0| :: e0[i].callback.tag < n && e0[i].callback.outcome == Returns
      requires forall id | id in m :: m[id].callback.tag < n && m[id].callback.outcome == Returns
      ensures forall i | 0 <= i < |e1| :: e1[i].callback.tag < n && e1[i].callback.outcome == Returns
    {
      forall i | 0 <= i < |e1|
        ensures e1[i].callback.tag < n && e1[i].callback.outcome == Returns
      {
        if i >= |e0| {
          assert e1[i] == e1[|e0|..][i - |e0|];
          assert e1[i] in e1[|e0|..];
        }
      }
    }
  }

  /**
   * The race in the settlement as written: book "b" is persisted at once, then edited
   * again before that save settles; the settlement drops the shared id, so `cancel()`
   * no longer reaches the pending persist, which still runs later.
   */
  method CancelMissesPendingPersist(m: Maps) returns (pending: bool)
    ensures pending
  {
    var p := new PersistenceScheduler(0, DefaultWaitMs);
    p.Schedule(Payload("b", m), true);
    var first := PersistTask("b", true, DefaultWaitMs, 0, 0, 0);
    assert first in p.scheduler.executed[0..];
    var i :| 0 <= i < |p.scheduler.executed| && p.scheduler.executed[i] == first;
    p.Schedule(Payload("b", m), false);
    p.CompleteAsWritten(i, true);
    p.Cancel();
    pending := p.scheduler.HasTaskById(TaskId("b"));
  }

  /** With the corrected settlement the same steps leave nothing pending after `cancel()`. */
  method CancelReachesPendingPersist(m: Maps) returns (pending: bool)
    ensures !pending
  {
    var p := new PersistenceScheduler(0, DefaultWaitMs);
    p.Schedule(Payload("b", m), true);
    var first := PersistTask("b", true, DefaultWaitMs, 0, 0, 0);
    assert first in p.scheduler.executed[0..];
    var i :| 0 <= i < |p.scheduler.executed| && p.scheduler.executed[i] == first;
    p.Schedule(Payload("b", m), false);
    p.Complete(i, true);
    p.Cancel();
    pending := p.scheduler.HasTaskById(TaskId("b"));
  }

  // ---------------------------------------------------------------------------
  // Rows of the storage tables

  /** A row of `SELECT id, type, text` on the nodes table (all three columns are NOT NULL). */
  datatype NodeRow = NodeRow(id: string, kind: string, text: string)

  /** A row of `SELECT parentId, childId, position` on the edges table. */
  datatype EdgeRow = EdgeRow(parentId: string, childId: string, position: int)

  /** The children of `p`, in the order of the edge rows. */
  function ChildIds(rows: seq<EdgeRow>, p: string): seq<string> {
    if rows == [] then []
    else
      var last := rows[|rows| - 1];
      ChildIds(rows[..|rows| - 1], p) + if last.parentId == p then [last.childId] else []
  }

  /** The maps `loadOutlineMaps` builds, row by row: a later node row with the same id wins. */
  function DataOf(nodes: seq<NodeRow>): map<string, Node> {
    if nodes == [] then map[]
    else
      var row := nodes[|nodes| - 1];
      DataOf(nodes[..|nodes| - 1])[row.id := Node(Some(row.id), Some(row.kind), row.text)]
  }

  /** `childrenMap[row.parentId].push(row.childId)`, starting a list at the first row of a parent. */
  function ChildrenOf(edges: seq<EdgeRow>): map<string, seq<string>> {
    if edges == [] then map[]
    else
      var row := edges[|edges| - 1];
      var cm := ChildrenOf(edges[..|edges| - 1]);
      cm[row.parentId := Children(cm, row.parentId) + [row.childId]]
  }

  /** `parentMap[row.childId] = row.parentId`: a later row for the same child wins. */
  function ParentsOf(edges: seq<EdgeRow>): map<string, string> {
    if edges == [] then map[]
    else
      var row := edges[|edges| - 1];
      ParentsOf(edges[..|edges| - 1])[row.childId := row.parentId]
  }

  /**
   * The loops of `loadOutlineMaps` over the rows of one book (the rows are inputs; the
   * queries are not part of this model).
   */
  method LoadMaps(nodes: seq<NodeRow>, edges: seq<EdgeRow>) returns (m: Maps)
    ensures m == Maps(DataOf(nodes), ParentsOf(edges), ChildrenOf(edges))
  {
    var dataMap: map<string, Node> := map[];
    for i := 0 to |nodes|
      invariant dataMap == DataOf(nodes[..i])
    {
      var row := nodes[i];
      assert nodes[..i + 1][..i] == nodes[..i];
      dataMap := dataMap[row.id := Node(Some(row.id), Some(row.kind), row.text)];
    }
    var childrenMap: map<string, seq<string>> := map[];
    var parentMap: map<string, string> := map[];
    for i := 0 to |edges|
      invariant childrenMap == ChildrenOf(edges[..i]) && parentMap == ParentsOf(edges[..i])
    {
      var row := edges[i];
      assert edges[..i + 1][..i] == edges[..i];
      if row.parentId !in childrenMap {
        childrenMap := childrenMap[row.parentId := []];
      }
      childrenMap := childrenMap[row.parentId := childrenMap[row.parentId] + [row.childId]];
      parentMap := parentMap[row.childId := row.parentId];
    }
    assert nodes[..|nodes|] == nodes && edges[..|edges|] == edges;
    m := Maps(dataMap, parentMap, childrenMap);
  }

  /** The loaded `childrenMap` lists `p` when it has an edge row, with its children in row order. */
  lemma {:induction false} ChildrenOfList(edges: seq<EdgeRow>, p: string)
    ensures p in ChildrenOf(edges) <==> ChildIds(edges, p) != []
    ensures Children(ChildrenOf(edges), p) == ChildIds(edges, p)
  {
    if edges != [] {
      ChildrenOfList(edges[..|edges| - 1], p);
    }
  }

  /** The loaded `parentMap` names, for each child with an edge row, the parent of its last row. */
  lemma {:induction false} ParentsOfLastRow(edges: seq<EdgeRow>, c: string)
    ensures c in ParentsOf(edges) <==> exists r | r in edges :: r.childId == c
    ensures c in ParentsOf(edges) ==> exists r | r in edges :: r.childId == c && r.parentId == ParentsOf(edges)[c]
  {
    if edges != [] {
      var prefix := edges[..|edges| - 1];
      ParentsOfLastRow(prefix, c);
      assert edges == prefix + [edges[|edges| - 1]];
      if c in ParentsOf(prefix) {
        var r :| r in prefix && r.childId == c && r.parentId == ParentsOf(prefix)[c];
        assert r in edges;
      }
    }
  }

  /** A child is listed under `p` exactly when some row joins them. */
  lemma {:induction false} ChildIdsMembers(edges: seq<EdgeRow>, p: string, c: string)
    ensures c in ChildIds(edges, p) <==> exists r | r in edges :: r.parentId == p && r.childId == c
  {
    if edges != [] {
      var prefix := edges[..|edges| - 1];
      ChildIdsMembers(prefix, p, c);
      assert edges == prefix + [edges[|edges| - 1]];
    }
  }

  // ---------------------------------------------------------------------------
  // Saving

  /** `keys` lists the members of `s` once each: the enumeration order of an object's keys. */
  ghost predicate Enumerates(keys: seq<string>, s: set<string>) {
    NoDup(keys) && forall k :: k in keys <==> k in s
  }

  /** `children.map((childId, position) => ({ parentId, childId, position }))`. */
  function ListEdges(p: string, children: seq<string>): (r: seq<EdgeRow>)
    ensures |r| == |children| && forall i | 0 <= i < |r| :: r[i] == EdgeRow(p, children[i], i)
  {
    seq(|children|, i requires 0 <= i < |children| => EdgeRow(p, children[i], i))
  }

  /** `Object.entries(childrenMap).flatMap(...)`, with the entries in the order `keys`. */
  function FlatEdges(cm: map<string, seq<string>>, keys: seq<string>): seq<EdgeRow>
    requires forall k | k in keys :: k in cm
  {
    if keys == [] then [] else ListEdges(keys[0], cm[keys[0]]) + FlatEdges(cm, keys[1..])
  }

  /** `Object.values(dataMap)`, with the values in the order `keys`. */
  function SavedNodes(dm: map<string, Node>, keys: seq<string>): (r: seq<Node>)
    requires forall k | k in keys :: k in dm
    ensures |r| == |keys| && forall i | 0 <= i < |keys| :: r[i] == dm[keys[i]]
  {
    if keys == [] then [] else [dm[keys[0]]] + SavedNodes(dm, keys[1..])
  }

  /** A node the nodes table can hold: its `id` and `type` are set. */
  predicate Storable(n: Node) {
    n.id.Some? && n.kind.Some?
  }

  /** The row a stored node reads back as. */
  function RowOf(n: Node): NodeRow
    requires Storable(n)
  {
    NodeRow(n.id.value, n.kind.value, n.text)
  }

  /** The title a book row gets when a save creates it. */
  const UntitledBookTitle := "未命名笔记"

  /** The storage calls of `saveOutlineMaps`, in order (the SQL itself is not part of this model). */
  datatype StorageOp =
    | InsertBookRowIfNotExists(bookId: string, title: string)
    | ClearRowsByBook(bookId: string)
    | InsertNodeRows(bookId: string, nodes: seq<Node>)
    | InsertEdgeRows(bookId: string, edges: seq<EdgeRow>)
    | TouchBookRow(bookId: string)

  /** The optional insert of a non-empty batch, as `saveOutlineMaps` guards it. */
  function NodeOps(bookId: string, nodes: seq<Node>): seq<StorageOp> {
    if |nodes| > 0 then [InsertNodeRows(bookId, nodes)] else []
  }

  function EdgeOps(bookId: string, edges: seq<EdgeRow>): seq<StorageOp> {
    if |edges| > 0 then [InsertEdgeRows(bookId, edges)] else []
  }

  /**
   * `saveOutlineMaps(bookId, maps)`: make sure the book row exists, clear the book's rows,
   * insert the nodes and the edges (each only when there are some), then touch the book.
   */
  function SaveOps(bookId: string, m: Maps, dataKeys: seq<string>, childKeys: seq<string>): (ops: seq<StorageOp>)
    requires forall k | k in dataKeys :: k in m.dataMap
    requires forall k | k in childKeys :: k in m.childrenMap
    ensures var nodes := SavedNodes(m.dataMap, dataKeys);
      var edges := FlatEdges(m.childrenMap, childKeys);
      && |ops| == 3 + (if nodes == [] then 0 else 1) + (if edges == [] then 0 else 1)
      && ops[0] == InsertBookRowIfNotExists(bookId, UntitledBookTitle) && ops[1] == ClearRowsByBook(bookId)
      && (nodes != [] ==> ops[2] == InsertNodeRows(bookId, nodes))
      && (edges != [] ==> ops[|ops| - 2] == InsertEdgeRows(bookId, edges))
      && ops[|ops| - 1] == TouchBookRow(bookId)
  {
    WriteOps(bookId, SavedNodes(m.dataMap, dataKeys), FlatEdges(m.childrenMap, childKeys))
  }

  /** The three tables, as the rows of each book (the books table only as the set of ids). */
  datatype Tables = Tables(books: set<string>, nodes: map<string, seq<Node>>, edges: map<string, seq<EdgeRow>>)

  function RowsOf<R>(rows: map<string, seq<R>>, bookId: string): seq<R> {
    if bookId in rows then rows[bookId] else []
  }

  /**
   * How many of `nodes` are inserted before the first one the nodes table refuses: each
   * row is its own statement, and a missing `id` or `type` breaks the NOT NULL
   * constraint of its column.
   */
  function StorablePrefix(nodes: seq<Node>): (k: nat)
    ensures k <= |nodes|
    ensures forall i | 0 <= i < k :: Storable(nodes[i])
    ensures k < |nodes| ==> !Storable(nodes[k])
  {
    if nodes == [] || !Storable(nodes[0]) then 0 else 1 + StorablePrefix(nodes[1..])
  }

  /** A storage call that throws: an insert of nodes one of which the table refuses. */
  predicate Fails(op: StorageOp) {
    op.InsertNodeRows? && StorablePrefix(op.nodes) < |op.nodes|
  }

  /** What one storage call does to the tables, up to the statement that throws. */
  function Apply(t: Tables, op: StorageOp): Tables {
    match op
    case InsertBookRowIfNotExists(b, _) => t.(books := t.books + {b})
    case ClearRowsByBook(b) => t.(nodes := t.nodes - {b}, edges := t.edges - {b})
    case InsertNodeRows(b, ns) => t.(nodes := t.nodes[b := RowsOf(t.nodes, b) + ns[..StorablePrefix(ns)]])
    case InsertEdgeRows(b, es) => t.(edges := t.edges[b := RowsOf(t.edges, b) + es])
    case TouchBookRow(_) => t
  }

  /**
   * The calls run in order, with no transaction around them: a call that throws stops
   * the run, and what the calls before it did stays.
   */
  function ApplyAll(t: Tables, ops: seq<StorageOp>): Tables
    decreases |ops|
  {
    if ops == [] then t
    else if Fails(ops[0]) then Apply(t, ops[0])
    else ApplyAll(Apply(t, ops[0]), ops[1..])
  }

  /**
   * Inserting node rows appends them to that book's node rows, up to the first one the
   * table refuses, and touches nothing else.
   */
  lemma NodeOpsAppend(t: Tables, bookId: string, nodes: seq<Node>)
    ensures var r := ApplyAll(t, NodeOps(bookId, nodes));
      && r.books == t.books && r.edges == t.edges
      && RowsOf(r.nodes, bookId) == RowsOf(t.nodes, bookId) + nodes[..StorablePrefix(nodes)]
      && forall b | b != bookId :: RowsOf(r.nodes, b) == RowsOf(t.nodes, b)
  {
    if |nodes| > 0 {
      ApplyOne(t, InsertNodeRows(bookId, nodes));
    } else {
      assert RowsOf(t.nodes, bookId) + nodes[..0] == RowsOf(t.nodes, bookId);
    }
  }

  /** Inserting edge rows appends them to that book's edge rows and touches nothing else. */
  lemma EdgeOpsAppend(t: Tables, bookId: string, edges: seq<EdgeRow>)
    ensures var r := ApplyAll(t, EdgeOps(bookId, edges));
      && r.books == t.books && r.nodes == t.nodes
      && RowsOf(r.edges, bookId) == RowsOf(t.edges, bookId) + edges
      && forall b | b != bookId :: RowsOf(r.edges, b) == RowsOf(t.edges, b)
  {
    if |edges| > 0 {
      ApplyOne(t, InsertEdgeRows(bookId, edges));
    } else {
      assert RowsOf(t.edges, bookId) + edges == RowsOf(t.edges, bookId);
    }
  }

  /** The calls of `saveOutlineMaps` for given node and edge rows. */
  function WriteOps(bookId: string, nodes: seq<Node>, edges: seq<EdgeRow>): seq<StorageOp> {
    [InsertBookRowIfNotExists(bookId, UntitledBookTitle)]
      + ([ClearRowsByBook(bookId)] + (NodeOps(bookId, nodes) + (EdgeOps(bookId, edges) + [TouchBookRow(bookId)])))
  }

  /**
   * A write whose nodes all have an id and a type replaces the book's rows: afterwards
   * the book exists and holds exactly those nodes and edges, whatever it held before,
   * and no other book changes.
   */
  lemma WriteReplacesRows(t: Tables, bookId: string, nodes: seq<Node>, edges: seq<EdgeRow>)
    requires forall n | n in nodes :: Storable(n)
    ensures var r := ApplyAll(t, WriteOps(bookId, nodes, edges));
      && r.books == t.books + {bookId}
      && RowsOf(r.nodes, bookId) == nodes && RowsOf(r.edges, bookId) == edges
      && (forall b | b != bookId :: RowsOf(r.nodes, b) == RowsOf(t.nodes, b) && RowsOf(r.edges, b) == RowsOf(t.edges, b))
  {
    var touch := [TouchBookRow(bookId)];
    var es := EdgeOps(bookId, edges);
    var ns := NodeOps(bookId, nodes);
    var t0 := Apply(t, InsertBookRowIfNotExists(bookId, UntitledBookTitle));
    var t1 := Apply(t0, ClearRowsByBook(bookId));
    NodeOpsComplete(bookId, nodes);
    NodeOpsAppend(t1, bookId, nodes);
    var t2 := ApplyAll(t1, ns);
    EdgeOpsAppend(t2, bookId, edges);
    var t3 := ApplyAll(t2, es);
    ApplyOne(t3, TouchBookRow(bookId));
    ApplyAllAppend(t2, es, touch);
    ApplyAllAppend(t1, ns, es + touch);
    ApplyCons(t0, ClearRowsByBook(bookId), ns + (es + touch));
    ApplyCons(t, InsertBookRowIfNotExists(bookId, UntitledBookTitle), [ClearRowsByBook(bookId)] + (ns + (es + touch)));
    assert RowsOf(t1.nodes, bookId) == [] && RowsOf(t1.edges, bookId) == [];
    assert [] + nodes == nodes && [] + edges == edges;
  }

  /** When every node has an id and a type, the insert does not throw and inserts them all. */
  lemma NodeOpsComplete(bookId: string, nodes: seq<Node>)
    requires forall n | n in nodes :: Storable(n)
    ensures StorablePrefix(nodes) == |nodes| && nodes[..StorablePrefix(nodes)] == nodes
    ensures forall op | op in NodeOps(bookId, nodes) :: !Fails(op)
  {
    assert forall i | 0 <= i < |nodes| :: Storable(nodes[i]);
    assert nodes[..|nodes|] == nodes;
  }

  /** A node without an id or a type stops the insert before the end. */
  lemma NodeOpsStop(nodes: seq<Node>)
    requires exists n | n in nodes :: !Storable(n)
    ensures StorablePrefix(nodes) < |nodes|
  {
    var n :| n in nodes && !Storable(n);
    assert exists i | 0 <= i < |nodes| :: !Storable(nodes[i]);
  }

  /**
   * A write with a node lacking its id or type loses the book's rows: the rows were
   * cleared, only the nodes before the refused one are inserted, no edge is, and the
   * book is not touched; other books do not change.
   */
  lemma WriteLosesRows(t: Tables, bookId: string, nodes: seq<Node>, edges: seq<EdgeRow>)
    requires exists n | n in nodes :: !Storable(n)
    ensures var r := ApplyAll(t, WriteOps(bookId, nodes, edges));
      && r.books == t.books + {bookId}
      && StorablePrefix(nodes) < |nodes|
      && RowsOf(r.nodes, bookId) == nodes[..StorablePrefix(nodes)] && RowsOf(r.edges, bookId) == []
      && (forall b | b != bookId :: RowsOf(r.nodes, b) == RowsOf(t.nodes, b) && RowsOf(r.edges, b) == RowsOf(t.edges, b))
  {
    var k := StorablePrefix(nodes);
    NodeOpsStop(nodes);
    var insert := InsertNodeRows(bookId, nodes);
    var rest := EdgeOps(bookId, edges) + [TouchBookRow(bookId)];
    var open, clear := InsertBookRowIfNotExists(bookId, UntitledBookTitle), ClearRowsByBook(bookId);
    var ops := WriteOps(bookId, nodes, edges);
    assert ops == [open] + ([clear] + ([insert] + rest));
    var t0 := Apply(t, open);
    var t1 := Apply(t0, clear);
    ApplyFailing(t1, insert, rest);
    ApplyCons(t0, clear, [insert] + rest);
    ApplyCons(t, open, [clear] + ([insert] + rest));
    var r := Apply(t1, insert);
    assert ApplyAll(t, ops) == r;
    assert t1.nodes == t.nodes - {bookId} && t1.edges == t.edges - {bookId};
    assert RowsOf(t1.nodes, bookId) == [] && [] + nodes[..k] == nodes[..k];
  }

  /**
   * A save whose nodes all have an id and a type replaces the book's rows: afterwards
   * the book exists and holds exactly the saved nodes and edges, whatever it held
   * before, and no other book changes.
   */
  lemma SaveReplacesRows(t: Tables, bookId: string, m: Maps, dataKeys: seq<string>, childKeys: seq<string>)
    requires forall k | k in dataKeys :: k in m.dataMap && Storable(m.dataMap[k])
    requires forall k | k in childKeys :: k in m.childrenMap
    ensures var t2 := ApplyAll(t, SaveOps(bookId, m, dataKeys, childKeys));
      && t2.books == t.books + {bookId}
      && RowsOf(t2.nodes, bookId) == SavedNodes(m.dataMap, dataKeys)
      && RowsOf(t2.edges, bookId) == FlatEdges(m.childrenMap, childKeys)
      && (forall b | b != bookId :: RowsOf(t2.nodes, b) == RowsOf(t.nodes, b) && RowsOf(t2.edges, b) == RowsOf(t.edges, b))
  {
    var nodes := SavedNodes(m.dataMap, dataKeys);
    var edges := FlatEdges(m.childrenMap, childKeys);
    assert SaveOps(bookId, m, dataKeys, childKeys) == WriteOps(bookId, nodes, edges);
    forall n | n in nodes ensures Storable(n) {
      var i :| 0 <= i < |nodes| && nodes[i] == n;
      assert n == m.dataMap[dataKeys[i]];
    }
    WriteReplacesRows(t, bookId, nodes, edges);
  }

  /**
   * A save of a `dataMap` holding a node without an id or a type (one `updateItemText`
   * made for an unknown id) leaves the book with no edge rows and only part of its node
   * rows; the error it throws is caught and logged by the persist callback.
   */
  lemma SaveLosesRows(t: Tables, bookId: string, m: Maps, dataKeys: seq<string>, childKeys: seq<string>, k: string)
    requires forall j | j in dataKeys :: j in m.dataMap
    requires forall j | j in childKeys :: j in m.childrenMap
    requires k in dataKeys && !Storable(m.dataMap[k])
    ensures var t2 := ApplyAll(t, SaveOps(bookId, m, dataKeys, childKeys));
      var nodes := SavedNodes(m.dataMap, dataKeys);
      && t2.books == t.books + {bookId}
      && |RowsOf(t2.nodes, bookId)| < |nodes| && RowsOf(t2.edges, bookId) == []
      && (forall b | b != bookId :: RowsOf(t2.nodes, b) == RowsOf(t.nodes, b) && RowsOf(t2.edges, b) == RowsOf(t.edges, b))
  {
    var nodes := SavedNodes(m.dataMap, dataKeys);
    var edges := FlatEdges(m.childrenMap, childKeys);
    assert SaveOps(bookId, m, dataKeys, childKeys) == WriteOps(bookId, nodes, edges);
    var i :| 0 <= i < |dataKeys| && dataKeys[i] == k;
    assert nodes[i] in nodes && !Storable(nodes[i]);
    WriteLosesRows(t, bookId, nodes, edges);
  }

  lemma ApplyCons(t: Tables, op: StorageOp, rest: seq<StorageOp>)
    requires !Fails(op)
    ensures ApplyAll(t, [op] + rest) == ApplyAll(Apply(t, op), rest)
  {
    assert ([op] + rest)[1..] == rest;
  }

  lemma ApplyOne(t: Tables, op: StorageOp)
    ensures ApplyAll(t, [op]) == Apply(t, op)
  {
    assert [op][1..] == [];
  }

  /** A call that throws ends the run. */
  lemma ApplyFailing(t: Tables, op: StorageOp, rest: seq<StorageOp>)
    requires Fails(op)
    ensures ApplyAll(t, [op] + rest) == Apply(t, op)
  {
    assert ([op] + rest)[0] == op;
  }

  lemma {:induction false} ApplyAllAppend(t: Tables, a: seq<StorageOp>, b: seq<StorageOp>)
    requires forall op | op in a :: !Fails(op)
    ensures ApplyAll(t, a + b) == ApplyAll(ApplyAll(t, a), b)
    decreases |a|
  {
    if a == [] {
      assert a + b == b;
    } else {
      assert (a + b)[1..] == a[1..] + b;
      assert a[0] in a;
      ApplyAllAppend(Apply(t, a[0]), a[1..], b);
    }
  }

  // ---------------------------------------------------------------------------
  // Loading what was saved

  /** The node a row reads back as (`dataMap[row.id] = { id, type, text }`). */
  function NodeOf(row: NodeRow): (n: Node)
    ensures Storable(n) && RowOf(n) == row
  {
    Node(Some(row.id), Some(row.kind), row.text)
  }

  /** The rows `insertNodeRows` writes for `nodes`. */
  function StoredRows(nodes: seq<Node>): (rows: seq<NodeRow>)
    requires forall n | n in nodes :: Storable(n)
    ensures |rows| == |nodes| && forall i | 0 <= i < |nodes| :: rows[i] == RowOf(nodes[i])
  {
    seq(|nodes|, i requires 0 <= i < |nodes| => RowOf(nodes[i]))
  }

  /** The loaded `dataMap` holds, for each id with a row, the node of its last row. */
  lemma {:induction false} DataOfLastRow(rows: seq<NodeRow>, k: string)
    ensures k in DataOf(rows) <==> exists r | r in rows :: r.id == k
    ensures k in DataOf(rows) ==> exists r | r in rows :: r.id == k && DataOf(rows)[k] == NodeOf(r)
  {
    if rows != [] {
      var prefix := rows[..|rows| - 1];
      DataOfLastRow(prefix, k);
      assert rows == prefix + [rows[|rows| - 1]];
      if k in DataOf(prefix) && k != rows[|rows| - 1].id {
        var r :| r in prefix && r.id == k && DataOf(prefix)[k] == NodeOf(r);
        assert r in rows;
      }
    }
  }

  lemma {:induction false} ChildIdsConcat(a: seq<EdgeRow>, b: seq<EdgeRow>, p: string)
    ensures ChildIds(a + b, p) == ChildIds(a, p) + ChildIds(b, p)
    decreases |b|
  {
    if b == [] {
      assert a + b == a;
    } else {
      var b' := b[..|b| - 1];
      assert (a + b)[..|a + b| - 1] == a + b';
      assert (a + b)[|a + b| - 1] == b[|b| - 1];
      ChildIdsConcat(a, b', p);
    }
  }

  /** The rows of one list give back that list under its parent and nothing under any other. */
  lemma {:induction false} ListEdgesChildIds(q: string, children: seq<string>, p: string)
    ensures ChildIds(ListEdges(q, children), p) == if q == p then children else []
    decreases |children|
  {
    if children != [] {
      var prefix := children[..|children| - 1];
      ListEdgesChildIds(q, prefix, p);
      assert ListEdges(q, children)[..|children| - 1] == ListEdges(q, prefix);
    }
  }

  /** A list without repeats loses none by dropping its head, which is not in the rest. */
  lemma NoDupTail(keys: seq<string>)
    requires keys != [] && NoDup(keys)
    ensures NoDup(keys[1..]) && keys[0] !in keys[1..]
  {
    var rest := keys[1..];
    forall i, j | 0 <= i < j < |rest| ensures rest[i] != rest[j] {
      assert rest[i] == keys[i + 1] && rest[j] == keys[j + 1];
    }
    forall i | 0 <= i < |rest| ensures rest[i] != keys[0] {
      assert rest[i] == keys[i + 1];
    }
  }

  /** The saved edge rows hold, per parent, the parent's list (one entry per key). */
  lemma {:induction false} FlatEdgesChildIds(cm: map<string, seq<string>>, keys: seq<string>, p: string)
    requires forall k | k in keys :: k in cm
    requires NoDup(keys)
    ensures ChildIds(FlatEdges(cm, keys), p) == if p in keys then cm[p] else []
    decreases |keys|
  {
    if keys != [] {
      var rest := keys[1..];
      NoDupTail(keys);
      FlatEdgesChildIds(cm, rest, p);
      ChildIdsConcat(ListEdges(keys[0], cm[keys[0]]), FlatEdges(cm, rest), p);
      ListEdgesChildIds(keys[0], cm[keys[0]], p);
    }
  }

  /**
   * Loading the edge rows of a save gives the lists back. `rows` is what the edges query
   * returns: ordered by parent and position, so each parent's children come in saved order.
   * A parent whose list was empty has no row and reads back as absent; with no empty list
   * the `childrenMap` is the saved one exactly.
   */
  lemma LoadChildrenAfterSave(pm: map<string, string>, cm: map<string, seq<string>>, keys: seq<string>, rows: seq<EdgeRow>)
    requires Linked(pm, cm) && Enumerates(keys, cm.Keys)
    requires forall p :: ChildIds(rows, p) == ChildIds(FlatEdges(cm, keys), p)
    ensures forall p :: Children(ChildrenOf(rows), p) == Children(cm, p)
    ensures (forall p | p in cm :: cm[p] != []) ==> ChildrenOf(rows) == cm
  {
    var loaded := ChildrenOf(rows);
    forall p ensures Children(loaded, p) == Children(cm, p) && (p in loaded ==> loaded[p] != []) {
      ChildrenOfList(rows, p);
      FlatEdgesChildIds(cm, keys, p);
    }
    if forall p | p in cm :: cm[p] != [] {
      SameListsSameMap(loaded, cm);
    }
  }

  /** Two maps without empty lists that agree on every parent's list are equal. */
  lemma SameListsSameMap(a: map<string, seq<string>>, b: map<string, seq<string>>)
    requires forall p | p in a :: a[p] != []
    requires forall p | p in b :: b[p] != []
    requires forall p :: Children(a, p) == Children(b, p)
    ensures a == b
  {
    forall p ensures p in a <==> p in b {
      assert Children(a, p) == Children(b, p);
    }
    forall p | p in a ensures a[p] == b[p] {
      assert Children(a, p) == Children(b, p);
    }
  }

  /** A child has an edge row exactly when it has a parent, and every such row names that parent. */
  lemma SavedRowParent(pm: map<string, string>, cm: map<string, seq<string>>, keys: seq<string>, rows: seq<EdgeRow>, c: string)
    requires Linked(pm, cm) && Enumerates(keys, cm.Keys)
    requires forall p :: ChildIds(rows, p) == ChildIds(FlatEdges(cm, keys), p)
    ensures (exists r | r in rows :: r.childId == c) <==> c in pm
    ensures forall r | r in rows && r.childId == c :: c in pm && r.parentId == pm[c]
  {
    forall r | r in rows && r.childId == c ensures c in pm && r.parentId == pm[c] {
      ChildIdsMembers(rows, r.parentId, c);
      FlatEdgesChildIds(cm, keys, r.parentId);
    }
    if c in pm {
      FlatEdgesChildIds(cm, keys, pm[c]);
      ChildIdsMembers(rows, pm[c], c);
    }
  }

  /** Loading the edge rows of a save gives the `parentMap` back. */
  lemma LoadParentsAfterSave(pm: map<string, string>, cm: map<string, seq<string>>, keys: seq<string>, rows: seq<EdgeRow>)
    requires Linked(pm, cm) && Enumerates(keys, cm.Keys)
    requires forall p :: ChildIds(rows, p) == ChildIds(FlatEdges(cm, keys), p)
    ensures ParentsOf(rows) == pm
  {
    forall c ensures c in ParentsOf(rows) <==> c in pm {
      ParentsOfLastRow(rows, c);
      SavedRowParent(pm, cm, keys, rows, c);
    }
    forall c | c in pm ensures ParentsOf(rows)[c] == pm[c] {
      ParentsOfLastRow(rows, c);
      SavedRowParent(pm, cm, keys, rows, c);
    }
  }

  /**
   * Loading the node rows of a save gives the `dataMap` back, in whatever order the
   * nodes query returns them, when every node is stored under its own id.
   */
  lemma LoadDataAfterSave(dm: map<string, Node>, keys: seq<string>, rows: seq<NodeRow>)
    requires Enumerates(keys, dm.Keys)
    requires forall k | k in dm :: Storable(dm[k]) && dm[k].id == Some(k)
    requires multiset(rows) == multiset(StoredRows(SavedNodes(dm, keys)))
    ensures DataOf(rows) == dm
  {
    SavedRowsAreNodes(dm, keys, rows);
    NodesHaveSavedRows(dm, keys, rows);
    var d := DataOf(rows);
    forall k ensures (k in d <==> k in dm) && (k in dm ==> d[k] == dm[k]) {
      LoadedEntry(dm, rows, k);
    }
  }

  /** One id of the loaded `dataMap`, when the rows are exactly the saved nodes. */
  lemma LoadedEntry(dm: map<string, Node>, rows: seq<NodeRow>, k: string)
    requires forall r | r in rows :: r.id in dm && NodeOf(r) == dm[r.id]
    requires forall k | k in dm :: exists r | r in rows :: r.id == k
    ensures k in DataOf(rows) <==> k in dm
    ensures k in dm ==> DataOf(rows)[k] == dm[k]
  {
    DataOfLastRow(rows, k);
  }

  /** Every loaded node row is the row of the node saved under its id. */
  lemma SavedRowsAreNodes(dm: map<string, Node>, keys: seq<string>, rows: seq<NodeRow>)
    requires Enumerates(keys, dm.Keys)
    requires forall k | k in dm :: Storable(dm[k]) && dm[k].id == Some(k)
    requires multiset(rows) == multiset(StoredRows(SavedNodes(dm, keys)))
    ensures forall r | r in rows :: r.id in dm && NodeOf(r) == dm[r.id]
  {
    var stored := StoredRows(SavedNodes(dm, keys));
    forall r | r in rows ensures r.id in dm && NodeOf(r) == dm[r.id] {
      assert r in multiset(stored);
      var i :| 0 <= i < |stored| && stored[i] == r;
      assert r == RowOf(dm[keys[i]]);
    }
  }

  /** Every saved node has a row among the loaded ones. */
  lemma NodesHaveSavedRows(dm: map<string, Node>, keys: seq<string>, rows: seq<NodeRow>)
    requires Enumerates(keys, dm.Keys)
    requires forall k | k in dm :: Storable(dm[k]) && dm[k].id == Some(k)
    requires multiset(rows) == multiset(StoredRows(SavedNodes(dm, keys)))
    ensures forall k | k in dm :: exists r | r in rows :: r.id == k
  {
    var stored := StoredRows(SavedNodes(dm, keys));
    forall k | k in dm ensures exists r | r in rows :: r.id == k {
      var i :| 0 <= i < |keys| && keys[i] == k;
      assert stored[i] in multiset(rows);
      assert stored[i].id == k;
    }
  }
}
