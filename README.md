# OutlineX core in Dafny

OutlineX is a mobile outliner: notes are books, and a book is a tree of text items kept in three maps.
`dataMap` holds the node of each id, `parentMap` holds its parent, and `childrenMap` holds each parent's
ordered list of children. "root" is the implicit top. This project models the outliner's core and the
repository's developer tooling, and proves what the code promises about them.

What is modelled, file by file:

- `heap.dfy` — `MinHeap`, the array-backed binary heap behind the scheduler. It is a class whose `queue`
  sequence is changed by `push`, `pop`, `_siftUp` and `_siftDown`. The comparator is a parameter and must
  be a strict weak order.
- `scheduler.dfy` — the cooperative `Scheduler`: a time-ordered heap, a (priority, deadline)-ordered ready
  heap, and the live map `taskIdMap`. A heap entry that is no longer the live task of its id is stale and
  is dropped when reached. The clock is a field advanced by explicit events. Firing the timer and running a
  requested continuation are explicit methods. Callbacks are data (ok or throws, and how long they take),
  and every task run is appended to an `executed` log.
- `transaction.dfy` — `Transaction`: steps run in add order, truthy undos are stacked, and the first
  failure rolls back in reverse push order. The failure list and the `rolledBack` flag are as the source
  builds them. A step is an outcome, and calls made while a step is suspended are explicit inputs.
- `async_serial_queue.dfy` — `AsyncSerialQueue`, FIFO with one task at a time. A promise settling is an
  explicit `Complete` step.
- `debounce.dfy` — the one-slot pending-call state machine of `debounce`. The timer firing is an explicit
  `Fire` step.
- `outline_tree.dfy`, `outline_removal.dfy`, `outline_store.dfy` — the copy-on-write tree edits of the
  outline store: add, edit text, indent, outdent, move within and across parents, recursive removal, and
  collapse bookkeeping. The carried invariant is `Tree`. It says every non-root node is in exactly one
  children list, that list agrees with `parentMap`, and the parent relation is acyclic, witnessed by a rank.
- `item_list.dfy` — the pure logic of the outline list component: the pre-order `visibleRows` walk, the
  drop-target rule and the dispatch of a drop to the store.
- `outline_persistence.dfy` — the per-book persistence scheduler over the modelled `Scheduler`; building
  the maps from stored rows on load; and flattening them into rows on save. Storage is a set of abstract
  tables.
- `bootstrap.dfy` — the schema check `isSchemaCompatible`, the init run (check and drop, create, default
  book) and the memoised `initOutlineFeature`.
- `book_store.dfy`, `theme.dfy` — the book list store and the theme store. The feature calls they await
  are inputs.
- `uuid.dfy` — the UUIDv7 byte layout of section 5.7 of RFC 9562 and its text form. The version nibble
  is 7 and the variant bits are `10`, as section 4.1 of RFC 9562 gives them. The clock and the random
  bytes are inputs.
- `debug_seed.dfy` — the flat debug outline of 10000 nodes.
- `agent_score.dfy`, `agent_list.dfy` — the post-commit score collector and the score dashboard.
  `JSON.parse`, `Number`, git and codex are parameters.
- `diff_gate.dfy`, `test_sync.dfy`, `doc_sync.dfy` — the test-first and document-first diff gates.
  Git's output is an input.
- `score_rubric.dfy` — Markdown section and bullet extraction and the penalty and severity table of the
  architecture rubric generator.
- `wrappers.dfy`, `seqs.dfy`, `strings.dfy`, `json.dfy` — `Option`/`Result`, sequence helpers,
  ECMAScript `trim` and friends, and JSON values with JavaScript truthiness.

Where the source changes state, the model is a class with `modifies` clauses. Such methods are proved
against specification functions, and the properties are proved about those functions. Pure code is
modelled as functions and lemmas.

## Model

| member | source | states |
|---|---|---|
| Heap.RootIsMinimum | lib/algorithms/heap.ts:58-60 | in a heap-ordered array nothing it holds compares below the root, so the head `peek` returns is a minimum |
| Heap.LowestOfFamilyIsLowest | lib/algorithms/heap.ts:14-23 | the slot `_siftDown` picks is the hole or one of its two children; it differs from the hole only when it compares below it, and no child compares below the pick |
| Heap.FamilyInOrder | lib/algorithms/heap.ts:25-30 | when `_siftDown` breaks because no child compares below the hole, the whole array is heap-ordered |
| Heap.UpInOrder | lib/algorithms/heap.ts:36-46 | when `_siftUp` breaks because the slot does not compare below its parent, the whole array is heap-ordered |
| Heap.LastToRoot | lib/algorithms/heap.ts:75-76 | moving the last element into the root holds every element but the old head and leaves only the root's edges out of order |
| Heap.SwapKeepsElements | lib/algorithms/heap.ts:26 | exchanging two slots keeps the multiset of elements |
| Heap.MinHeap.constructor | lib/algorithms/heap.ts:3-9 | a new heap is empty, keeps the comparator, and is valid when the comparator is a strict weak order |
| Heap.MinHeap.Len | lib/algorithms/heap.ts:50-52 | the length is the number of elements held, duplicates counted |
| Heap.MinHeap.IsEmpty | lib/algorithms/heap.ts:54-56 | true exactly when the heap holds no element |
| Heap.MinHeap.Peek | lib/algorithms/heap.ts:58-60 | nothing exactly when empty; otherwise an element held that no element held compares below |
| Heap.MinHeap.Push | lib/algorithms/heap.ts:62-65 | keeps heap order and adds exactly `val` to the elements; the length grows by one |
| Heap.MinHeap.Pop | lib/algorithms/heap.ts:67-79 | returns what `peek` returned before, removes exactly that one element and keeps heap order; an empty heap stays empty |
| Heap.MinHeap.Clear | lib/algorithms/heap.ts:81-83 | afterwards the heap is empty, and valid again under a strict weak order |
| Heap.MinHeap.SiftUp | lib/algorithms/heap.ts:34-48 | from an array whose only defect is the edge above `index`, restores heap order with the same elements |
| Heap.MinHeap.SwapUp | lib/algorithms/heap.ts:38-43 | exchanging a slot with a parent that compares above it moves the only defect up to the parent, same elements |
| Heap.MinHeap.SiftDownFromRoot | lib/algorithms/heap.ts:11-32 | from an array whose only defects are the root's edges, restores heap order with the same elements and length |
| Heap.MinHeap.SwapDown | lib/algorithms/heap.ts:25-27 | exchanging the hole with its lowest child, which compares below it, moves the only defect down to that child |
| Sched.ReadyOrderIsLexicographic | lib/scheduler/index.ts:40-45 | the ready queue orders tasks by priority value, then by deadline |
| Sched.ComparatorsAreStrictWeakOrders | lib/scheduler/index.ts:37-45 | both comparators are strict weak orders, so both heaps keep their guarantees |
| Sched.DeadlineOffsets | lib/scheduler/index.ts:64-76 | a missing priority is `Default`; `Sync`, `Input` and `Default` are due after the delay, `NextFrame` 16 ms and `Idle` 50 ms later; a missing delay is 0 |
| Sched.Scheduler.constructor | lib/scheduler/index.ts:36-54 | a new scheduler has no live task, no timer and no pending continuation |
| Sched.Scheduler.Cancel | lib/scheduler/index.ts:56-62 | after `cancel(id)`, `hasTaskById(id)` is false, exactly `id` left the live map, and nothing else changed |
| Sched.Scheduler.Push | lib/scheduler/index.ts:64-88 | the new task becomes the live task for its id, with the deadline above; a `Sync` task has run before `push` returns, every task run was live and queued, and each left the live map; any other task waits in the time queue, with a timer armed no later than its deadline |
| Sched.Scheduler.RunSync | lib/scheduler/index.ts:81-83 | the `Sync` branch: the pushed task is among the tasks the flush runs, each run task was live, and each left the live map |
| Sched.Scheduler.Schedule | lib/scheduler/index.ts:84-87 | the other branch: nothing runs, the task stays in the time queue and the timer is armed no later than its deadline |
| Sched.Scheduler.RequestFlush | lib/scheduler/index.ts:90-100 | afterwards a continuation is pending, and nothing else of the scheduler changed |
| Sched.Scheduler.Flush | lib/scheduler/index.ts:102-144 | no-op while a flush runs; otherwise the tasks run were live and queued, each at most once, in (priority, deadline) order, and left the live map; unless it stopped for the time slice, every live ready task ran and the timer is re-armed as `peekTimeQueue` does, so a live head of the time queue has a timer no later than its deadline; when it stopped, it ran a task and left the timer and the time queue untouched |
| Sched.Scheduler.DrainReady | lib/scheduler/index.ts:107-135 | the loop keeps: run tasks were live at the start, every popped live task ran, the run is in order and ahead of what is left; it stops only after requesting a continuation |
| Sched.Scheduler.DrainStep | lib/scheduler/index.ts:111-117 | one pop of the lowest ready entry keeps the loop invariant, whether the entry was live or stale |
| Sched.Scheduler.RunNext | lib/scheduler/index.ts:112-131 | pops a lowest entry; a stale one is skipped; a live one leaves the live map and runs; it stops exactly when the callback did not throw, no continuation was pending and more than `timeSliceMs` passed |
| Sched.Scheduler.StaleWasRun | lib/scheduler/index.ts:113-117 | a popped entry that is no longer live but was live when the drain began has already run |
| Sched.Scheduler.PeekTimeQueue | lib/scheduler/index.ts:146-168 | only stale entries leave the time queue; a live head keeps an armed timer for an earlier or equal deadline, otherwise the timer is re-armed for the head's deadline |
| Sched.Scheduler.DropStaleHeads | lib/scheduler/index.ts:147-151 | pops only stale entries, and stops at a live head or an empty queue |
| Sched.Scheduler.MoveDueTasks | lib/scheduler/index.ts:172-182 | every due entry leaves the time queue, exactly the live ones among them enter the ready queue, and no due entry stays behind |
| Sched.Scheduler.MoveStep | lib/scheduler/index.ts:178-181 | moving one due head keeps the move invariant |
| Sched.Scheduler.MoveHead | lib/scheduler/index.ts:178-181 | the head leaves the time queue and enters the ready queue exactly when it is live |
| Sched.Scheduler.FireTimer | lib/scheduler/index.ts:169-185 | when the timer fires, each task run was live and ready or due, and ran once; unless the flush stopped for its slice every live due task ran and any live entry left waits under a re-armed timer; when it stopped, no timer is armed; nothing due stays in the time queue |
| Sched.Scheduler.TimerCallback | lib/scheduler/index.ts:169-185 | the same, at the current time: re-armed for the head after a full drain, timer untouched after a time-slice stop |
| Sched.Scheduler.TimerFacts | lib/scheduler/index.ts:172-184 | what the move loop keeps, with what the flush did, gives the timer callback's promise |
| Sched.Scheduler.FireContinuation | lib/scheduler/index.ts:96-99 | the continuation either runs every live ready task and re-arms the timer for any live waiting task, or runs at least one, requests the next and leaves the timer alone |
| Sched.CancelledTaskNeverRuns | lib/scheduler/index.ts:60-62 | a task cancelled before its deadline never runs, although its timer fires |
| Sched.LatestPushWins | lib/scheduler/index.ts:78-79 | pushing again under the same id supersedes the first task: exactly one invocation happens, of the second callback |
| Sched.DistinctIdsCount | lib/scheduler/index.ts:113-117 | a run in which every task left the live map as it ran has as many distinct ids as invocations |
| Sched.SyncRunsAtOnce | lib/scheduler/index.ts:81-83 | a `Sync` push runs its callback before `push` returns |
| Transactions.UndoName | lib/scheduler/transaction.ts:94 | an undo is named by its own non-empty name, and never by an empty string |
| Transactions.Rejections | lib/scheduler/transaction.ts:35-38 | each call made while a step is suspended is rejected: `add` as flushing, `apply` as running |
| Transactions.ForwardWithoutThrow | lib/scheduler/transaction.ts:60-66 | without a throwing step every step runs in queue order and every truthy undo is stacked in push order |
| Transactions.ForwardStops | lib/scheduler/transaction.ts:60-67 | after a step has thrown, the later steps never run |
| Transactions.FirstThrowStops | lib/scheduler/transaction.ts:60-74 | the first throwing step ends the pass: the failure names it, the trace runs up to and including it, and only the undos of earlier steps are stacked |
| Transactions.ForwardFailsIffThrow | lib/scheduler/transaction.ts:59-67 | the forward pass fails exactly when some step throws |
| Transactions.RollbackIsReversed | lib/scheduler/transaction.ts:89-111 | rollback invokes every undo exactly once, in reverse push order, even after one throws, and records one rollback-phase failure per throwing undo |
| Transactions.CountFailingZero | lib/scheduler/transaction.ts:82 | no rollback failure exactly when no stacked undo throws |
| Transactions.ApplySucceedsIffNoThrow | lib/scheduler/transaction.ts:51-87 | `apply` succeeds exactly when no step throws, and then the trace is every step in order |
| Transactions.ApplyFailsAtFirstThrow | lib/scheduler/transaction.ts:67-82 | when step `k` throws first: the error's first failure is an apply failure naming it, the rest are rollback failures, one per throwing stacked undo; `rolledBack` holds exactly when none throws; the trace is the steps up to `k`, then the undos in reverse |
| Transactions.Transaction.constructor | lib/scheduler/transaction.ts:30-33 | a new transaction has an empty queue and undo stack and is not running |
| Transactions.Transaction.Add | lib/scheduler/transaction.ts:35-49 | rejected while running, then for a blank name, with nothing changed; otherwise appends the trimmed name and the callback to the queue |
| Transactions.Transaction.Apply | lib/scheduler/transaction.ts:51-87 | rejected without change while running; otherwise settles as the forward pass and rollback say, and always ends with an empty queue and undo stack, not running |
| Transactions.Transaction.RunTasks | lib/scheduler/transaction.ts:60-66 | the loop reaches the forward pass's undo stack, trace and failing step |
| Transactions.Transaction.RunStep | lib/scheduler/transaction.ts:61-65 | one step traces its start and the calls made while it waits, and stacks its undo when it returns one |
| Transactions.Transaction.ForwardStep | lib/scheduler/transaction.ts:60-67 | one more step extends the forward pass by its trace and undo, or ends it with the step's name when it throws |
| Transactions.Transaction.Interleave | lib/scheduler/transaction.ts:35-38 | calls made while a step is suspended are all rejected, in order, with nothing else changed |
| Transactions.Transaction.RollBack | lib/scheduler/transaction.ts:89-111 | pops every undo, tracing and collecting the failures as the rollback specification says, and leaves the stack empty |
| Transactions.Transaction.RollbackPop | lib/scheduler/transaction.ts:92-107 | popping the top undo moves its event and any failure from the rest of the unwinding to what is done |
| Transactions.Transaction.Clear | lib/scheduler/transaction.ts:113-116 | empties the queue and the undo stack and changes nothing else |
| Transactions.StepsRunInAddOrder | test/transaction.ts:7-31 | two steps added in order run in that order, and `apply` succeeds |
| Transactions.FailureRollsBack | test/transaction.ts:33-82 | a throwing second step: the trace is both starts then the first step's undo; the only failure is an apply failure naming it, with `rolledBack` set |
| Transactions.AddDuringApplyRejected | test/transaction.ts:84-104 | an `add` made while a step is suspended is rejected as flushing and the step completes |
| Transactions.BlankNameRejected | test/transaction.ts:106-119 | a whitespace-only name is rejected |
| SerialQueue.Tickets | lib/algorithms/async-serial-queue.ts:21-30 | the tickets handed out so far are exactly 0 to n - 1, in order |
| SerialQueue.AsyncSerialQueue.constructor | lib/algorithms/async-serial-queue.ts:9-11 | a new queue is idle and has no waiting, started or settled task |
| SerialQueue.AsyncSerialQueue.Size | lib/algorithms/async-serial-queue.ts:13-15 | `size` counts the tasks enqueued but not yet started; the running one is not counted |
| SerialQueue.AsyncSerialQueue.IsRunning | lib/algorithms/async-serial-queue.ts:17-19 | running exactly when some started task has not settled |
| SerialQueue.AsyncSerialQueue.Enqueue | lib/algorithms/async-serial-queue.ts:21-30 | the task gets the next ticket; on an idle queue it starts at once, otherwise it waits behind the others and the running task is unchanged |
| SerialQueue.AsyncSerialQueue.RunNext | lib/algorithms/async-serial-queue.ts:32-52 | does nothing while a task runs or none waits; otherwise starts exactly the first waiting task |
| SerialQueue.AsyncSerialQueue.Complete | lib/algorithms/async-serial-queue.ts:44-51 | the running task's own future settles with its outcome, resolved or rejected alike, then the next waiting task starts or the queue goes idle |
| SerialQueue.StartedInEnqueueOrder | lib/algorithms/async-serial-queue.ts:21-40 | the i-th task started is the i-th enqueued, and every ticket is started or waiting |
| SerialQueue.ThreeTasksInOrder | test/async-serial-queue.ts:7-36 | three tasks enqueued back to back start and settle in enqueue order, each future with its own value |
| SerialQueue.FailureDoesNotStall | lib/algorithms/async-serial-queue.ts:44-51 | a task whose future rejects does not stop the queue: the next task starts and settles |
| Debounce.CallInvokesNothing | lib/algorithms/debounce.ts:16-26 | a call never invokes `fn` at once, and its arguments become the pending ones |
| Debounce.BurstKeepsLatest | lib/algorithms/debounce.ts:16-26 | a burst of calls invokes nothing, and only the last call's arguments stay pending |
| Debounce.BurstThenFireInvokesOnce | lib/algorithms/debounce.ts:16-26 | a burst followed by the timer's expiry invokes `fn` exactly once, with the last call's arguments, and leaves nothing pending |
| Debounce.CancelThenFireInvokesNothing | lib/algorithms/debounce.ts:36-41 | after `cancel` nothing is pending, and a later expiry invokes nothing |
| Debounce.FlushInvokesWithOwnArgs | lib/algorithms/debounce.ts:28-34 | `flush` invokes `fn` once with its own arguments, whatever was pending, and leaves nothing pending |
| Debounce.Debounced.constructor | lib/algorithms/debounce.ts:10-14 | a new debounced function has no armed timer and has invoked nothing |
| Debounce.Debounced.Call | lib/algorithms/debounce.ts:16-26 | the timer is re-armed with the new arguments, due `waitMs` from now, replacing any earlier one; nothing is invoked |
| Debounce.Debounced.Fire | lib/algorithms/debounce.ts:22-25 | the expiry clears the timer and invokes `fn` with the armed arguments |
| Debounce.Debounced.Flush | lib/algorithms/debounce.ts:28-34 | clears any armed timer and invokes `fn` with flush's own arguments |
| Debounce.Debounced.Cancel | lib/algorithms/debounce.ts:36-41 | clears any armed timer without invoking `fn` |
| OutlineTree.IndexOf | stores/outline.ts:190 | `findIndex`: -1 exactly when the item is absent; otherwise a position holding it with no earlier copy |
| OutlineTree.RemoveAt | stores/outline.ts:201 | `splice(i, 1)`: one item shorter, the items before `i` kept, those after it shifted down by one |
| OutlineTree.InsertAt | stores/outline.ts:249 | `splice(i, 0, x)`: one item longer with `x` at `i`, the items before `i` kept, those after it shifted up by one |
| OutlineTree.Clamp | stores/outline.ts:278 | `Math.max(lo, Math.min(x, hi))` lies within the bounds and is `x` when `x` already does |
| OutlineTree.ParentlessUnlisted | stores/outline.ts:37-40 | in linked maps, a node without a parent is in no children list |
| OutlineTree.NotOwnAncestor | stores/outline.ts:311-317 | in a well-formed outline no node is its own ancestor, so the parent walk always ends |
| OutlineTree.ReparentKeepsRanked | stores/outline.ts:349 | re-parenting a node under a target whose ancestor walk does not pass through it keeps the parents acyclic |
| OutlineTree.RemoveAtMembers | stores/outline.ts:201 | `splice(i, 1)` on a duplicate-free list drops exactly its i-th item and keeps it duplicate-free |
| OutlineTree.InsertAtMembers | stores/outline.ts:249 | `splice(i, 0, x)` adds exactly `x`, and keeps a list duplicate-free when `x` is new to it |
| OutlineTree.AppendMembers | stores/outline.ts:205 | `push(x)` adds exactly `x`, and keeps a list duplicate-free when `x` is new to it |
| OutlineTree.InsertAfterIndex | stores/outline.ts:133-138 | splicing a new item in right after `x` leaves `x` at its index and puts the new item directly behind it |
| OutlineTree.Reordered | stores/outline.ts:283-284 | removing the item at `from` and inserting it at `to` keeps the same items, now with that item at `to`, and keeps a list duplicate-free |
| OutlineTree.Without | stores/outline.ts:325 | dropping `x` from a duplicate-free list leaves exactly the other items, still duplicate-free |
| OutlineTree.Relinked | stores/outline.ts:327-349 | the edit behind indent, outdent and move: the contents are kept, only `id`'s parent changes, and `t`'s list becomes the given one |
| OutlineTree.RelinkKeepsTree | stores/outline.ts:300-358 | re-listing a node under a target that is neither the node nor one of its descendants, with exactly the node added to the target's list, keeps the outline well formed |
| OutlineTree.AttachKeepsTree | stores/outline.ts:130-143 | listing a new node under a parent, beside that parent's children, keeps the outline well formed |
| OutlineTree.SameMembersKeepsTree | stores/outline.ts:283-289 | replacing a list by a duplicate-free list of the same members keeps the outline well formed |
| OutlineRemoval.RemoveSubTree | stores/outline.ts:371-395 | a node without a parent fails with the missing-parent error; a successful removal leaves the node in none of the three maps |
| OutlineRemoval.PrevSibling | stores/outline.ts:394 | nothing exactly when the node is first in the list; otherwise the entry just before it |
| OutlineRemoval.RemovedTreeIsTree | stores/outline.ts:386-392 | removing a subtree keeps the outline well formed |
| OutlineRemoval.UnlinkedSubtree | stores/outline.ts:386-392 | dropping a set of nodes closed under "child of", and splicing its root out of the remaining parent's list, keeps the maps linked |
| OutlineRemoval.SubtreeAfterRemoval | stores/outline.ts:382-384 | removing one child's subtree leaves every other subtree as it was, minus what was removed |
| OutlineRemoval.ChildSubtreeSmaller | stores/outline.ts:382-384 | a child's subtree lies strictly inside its parent's descendants, so the recursion shrinks |
| OutlineRemoval.SubtreeBound | stores/outline.ts:397 | a subtree holds at most the nodes with a parent plus its own root, which bounds the recursion depth |
| OutlineRemoval.NoChildrenNothingBelow | stores/outline.ts:381-384 | a node without children has no descendants: the loop over its children changes nothing |
| OutlineRemoval.ClearedAfterFirstChild | stores/outline.ts:382-384 | removing the first child's subtree keeps the outline well formed, leaves the other children, and takes one step towards clearing all descendants |
| OutlineRemoval.RemoveAllSpec | stores/outline.ts:381-384 | removing the children one by one, each with its subtree, removes exactly the descendants and leaves the node with an empty list |
| OutlineRemoval.RemovedFromCleared | stores/outline.ts:386-392 | deleting the node itself after its descendants gives the outline without its subtree, the node spliced out of its parent's list |
| OutlineRemoval.RemoveSubTreeSpec | stores/outline.ts:371-395 | on a well-formed outline `removeSubTree` succeeds, removes exactly the node and its descendants from all three maps and the node from its parent's list, and returns its previous sibling, nothing when it was first |
| OutlineRemoval.FinishRemoval | stores/outline.ts:386-394 | once the children are cleared, the rest of `removeSubTree` completes the removal and picks the previous sibling |
| OutlineStore.Initial | stores/outline.ts:63-71 | before any book is loaded the three maps are empty, nothing is active or collapsed, and the current book is the default book |
| OutlineStore.Edited | stores/outline.ts:208-219 | an edit installs the new maps, keeps the rest of the state, and persists exactly those maps for the current book |
| OutlineStore.PlaceAfter | stores/outline.ts:130-139 | the new id goes right after `afterId`, with the items before and after it kept; it is appended when there is no `afterId` or `afterId` is not in the list; exactly the id is added, and a new id keeps the list duplicate-free |
| OutlineStore.AddItemAfter | stores/outline.ts:121-161 | an empty text node filed under `afterId`'s parent (root without `afterId`; the key "undefined" when `afterId` has no parent), placed right after `afterId`; it becomes the active item and the maps are persisted at once |
| OutlineStore.AddItemAfterKeepsTree | stores/outline.ts:121-161 | adding a fresh id after an item of the outline, or at the top level, keeps the outline well formed, and the new item's parent is that item's parent (root at the top level) |
| OutlineStore.AddIsAttach | stores/outline.ts:141-143 | once the parent is known, adding is attaching the new node to that parent's list |
| OutlineStore.UpdateItemText | stores/outline.ts:163-183 | only the text of `id` changes; parents and lists are untouched; an unknown id gets a new entry holding only the text; the maps are persisted after the delay |
| OutlineStore.IndentItem | stores/outline.ts:184-220 | nothing changes for a first child or an id missing from its list; otherwise the item leaves its list and becomes the last child of its previous sibling, which becomes its parent, persisted at once |
| OutlineStore.IndentItemKeepsTree | stores/outline.ts:184-220 | indenting keeps a well-formed outline well formed, and the item now hangs at the end of its former previous sibling's children |
| OutlineStore.OutdentItemKeepsTree | stores/outline.ts:221-264 | outdenting keeps a well-formed outline well formed |
| OutlineStore.OutdentIsRelink | stores/outline.ts:221-250 | a successful outdent moves the item into the grandparent's list right after its old parent, with the grandparent as its parent |
| OutlineStore.OutdentItemFollowsParent | stores/outline.ts:221-264 | after a successful outdent the item hangs under its old grandparent, directly after its old parent |
| OutlineStore.MoveItemWithinParent | stores/outline.ts:265-299 | nothing changes exactly when the item has no parent, is missing from its list, or already sits at the index clamped to [0, n-1]; otherwise only that list changes, into a permutation of the same siblings with the item at the clamped index |
| OutlineStore.MoveWithinParentKeepsTree | stores/outline.ts:265-299 | reordering siblings keeps a well-formed outline well formed, with the same parents |
| OutlineStore.MoveAfterGuard | stores/outline.ts:319-358 | past the guards, the item leaves its list (nothing happens if it is not there) and is inserted into the target's list at the index clamped to [0, n], the target becoming its parent |
| OutlineStore.MoveItem | stores/outline.ts:300-359 | the loop of the guard walks up from the target and refuses the move exactly as the specification of `moveItem` says: no parent, the target is the item, or the walk meets the item |
| OutlineStore.MoveItemKeepsTree | stores/outline.ts:300-359 | a move the guard lets through creates no cycle: the outline stays well formed, and the item sits under the target at the clamped index |
| OutlineStore.RemoveItem | stores/outline.ts:360-416 | an item without a parent fails; a successful removal deletes it from all three maps, keeps the collapse state and book, and persists at once |
| OutlineStore.RemoveItemKeepsTree | stores/outline.ts:360-416 | removing an item that has a parent succeeds: exactly its subtree is gone, the rest stays well formed, and its previous sibling (none when it was first) becomes active |
| OutlineStore.ToggleCollapse | stores/outline.ts:102-105 | flips the collapse state of `id` and no other |
| OutlineStore.CollapseAll | stores/outline.ts:106-119 | exactly the non-root items with a non-empty children list are collapsed |
| OutlineStore.ExpandAll | stores/outline.ts:120 | nothing is collapsed afterwards |
| OutlinePersistence.TaskIdInjective | lib/features/outline/outline.ts:35 | two books share a persist task id exactly when they are the same book, so persists coalesce per book and only per book |
| OutlinePersistence.PersistTask | lib/features/outline/outline.ts:38-46 | the pushed task runs under the book's id; an immediate persist is `Sync` and due now, any other is `Default` and due `waitMs` later |
| OutlinePersistence.PersistenceScheduler.constructor | lib/features/outline/outline.ts:21-23 | a new persistence scheduler has no recorded id, no pending task and nothing saved |
| OutlinePersistence.PersistenceScheduler.Schedule | lib/features/outline/outline.ts:34-47 | records the book's task id and pushes the persist under it, superseding a pending persist of that book; an immediate persist has run before `schedule` returns, any other is the book's live task |
| OutlinePersistence.PersistenceScheduler.CompleteAsWritten | lib/features/outline/outline.ts:25-45 | a settled persist records its payload as saved only when the save succeeded (a failure is caught), then drops its id from the recorded set even when a newer persist is pending under it |
| OutlinePersistence.PersistenceScheduler.Complete | lib/features/outline/outline.ts:42-45 | the corrected settlement drops the id only when nothing is pending under it, and so keeps every pending persist recorded |
| OutlinePersistence.PersistenceScheduler.Cancel | lib/features/outline/outline.ts:48-53 | cancels every recorded id and empties the set; when every pending persist is recorded, nothing is left pending |
| OutlinePersistence.PersistenceScheduler.FireTimer | lib/features/outline/outline.ts:38-46 | every persist the timer runs carries the latest payload scheduled for its book; a superseded payload is never written |
| OutlinePersistence.PersistenceScheduler.FireContinuation | lib/features/outline/outline.ts:38-46 | a continuation, too, runs only the latest payload of each book |
| OutlinePersistence.PersistenceScheduler.LatestAfterPush | lib/features/outline/outline.ts:35-46 | pushing a book's newest payload under its id keeps every live task the latest payload of its book |
| OutlinePersistence.CancelMissesPendingPersist | lib/features/outline/outline.ts:42-53 | as written: persist book "b" at once, edit it again before that save settles; the settlement drops the shared id, and after `cancel()` a persist is still pending |
| OutlinePersistence.CancelReachesPendingPersist | lib/features/outline/outline.ts:48-53 | with the corrected settlement the same steps leave nothing pending after `cancel()` |
| OutlinePersistence.LoadMaps | lib/features/outline/outline.ts:63-79 | the loops build the data map from the node rows, later rows winning, and the children and parent maps from the edge rows in row order |
| OutlinePersistence.ChildrenOfList | lib/features/outline/outline.ts:71-77 | the loaded `childrenMap` has a list for a parent exactly when it has an edge row, holding its children in row order |
| OutlinePersistence.ParentsOfLastRow | lib/features/outline/outline.ts:71-77 | the loaded `parentMap` has a child exactly when it has an edge row, and names the parent of its last row |
| OutlinePersistence.ChildIdsMembers | lib/features/outline/outline.ts:71-77 | a child is listed under a parent exactly when some edge row joins them |
| OutlinePersistence.DataOfLastRow | lib/features/outline/outline.ts:63-66 | the loaded `dataMap` has an id exactly when it has a node row, holding the node of its last row |
| OutlinePersistence.ListEdges | lib/features/outline/outline.ts:101 | one edge row per child, in list order, with position equal to the list index |
| OutlinePersistence.SavedNodes | lib/features/outline/outline.ts:95 | the saved nodes are the data map's values, one per key |
| OutlinePersistence.SaveOps | lib/features/outline/outline.ts:82-108 | ensures the book row, clears the book's rows, inserts nodes and edges each only when there are some, then touches the book |
| OutlinePersistence.NodeOpsAppend | lib/storage/outline-db.ts:166-173 | inserting node rows appends them to that book's rows, one statement at a time up to the first node the table refuses, and touches nothing else |
| OutlinePersistence.StorablePrefix | lib/storage/outline-db.ts:166-173 | the inserted nodes are the longest prefix of nodes with an id and a type; the next one, if any, lacks one of them (NOT NULL columns of constants/db.ts:26-29) |
| OutlinePersistence.EdgeOpsAppend | lib/features/outline/outline.ts:103-105 | inserting edge rows appends them to that book's rows and touches nothing else |
| OutlinePersistence.WriteReplacesRows | lib/features/outline/outline.ts:86-107 | when every node has an id and a type, after the writes the book exists and holds exactly the given rows; no other book changes |
| OutlinePersistence.NodeOpsComplete | lib/storage/outline-db.ts:166-173 | when every node has an id and a type the insert does not throw and inserts them all |
| OutlinePersistence.NodeOpsStop | lib/storage/outline-db.ts:166-173 | a node without an id or a type stops the insert before the end |
| OutlinePersistence.WriteLosesRows | lib/features/outline/outline.ts:93-97 | with a node lacking its id or type the run stops at the refused insert, outside any transaction: the book keeps only the nodes before it and no edge rows; no other book changes |
| OutlinePersistence.ApplyFailing | lib/storage/outline-db.ts:39-44 | a call that throws ends the run of calls |
| OutlinePersistence.SaveReplacesRows | lib/features/outline/outline.ts:82-108 | a save of nodes that all have an id and a type is a full replace: afterwards the book holds exactly the saved nodes and edges, whatever it held before, and no other book changes |
| OutlinePersistence.SaveLosesRows | lib/features/outline/outline.ts:82-108 | a save whose data map holds a node without an id or a type (what `updateItemText` makes for an unknown id) leaves the book with fewer node rows than nodes and no edge rows; no other book changes |
| OutlinePersistence.NodeOf | lib/features/outline/outline.ts:65 | the node a row loads as is storable and is stored back as that same row |
| OutlinePersistence.StoredRows | lib/features/outline/outline.ts:97 | one node row per saved node, in order |
| OutlinePersistence.ListEdgesChildIds | lib/features/outline/outline.ts:100-102 | the rows of one list give back that list under its parent and nothing under any other |
| OutlinePersistence.FlatEdgesChildIds | lib/features/outline/outline.ts:100-102 | the saved edge rows hold, per parent, exactly that parent's list |
| OutlinePersistence.LoadChildrenAfterSave | lib/features/outline/outline.ts:68-102 | loading the saved edges, ordered by parent and position, gives every parent's list back; with no empty list the `childrenMap` is exactly the saved one |
| OutlinePersistence.SavedRowParent | lib/features/outline/outline.ts:100-102 | a child has an edge row exactly when it has a parent, and every such row names that parent |
| OutlinePersistence.LoadParentsAfterSave | lib/features/outline/outline.ts:71-102 | loading the saved edges gives the `parentMap` back, as the inverse of the lists |
| OutlinePersistence.LoadDataAfterSave | lib/features/outline/outline.ts:63-97 | loading the saved nodes gives the `dataMap` back, in whatever order the query returns them, when each node is stored under its own id |
| Bootstrap.IncludesAt | lib/features/outline/bootstrap.ts:27-29 | `includes` holds whenever the clause occurs at some offset of the statement |
| Bootstrap.IncludesWitness | lib/features/outline/bootstrap.ts:27-29 | and only then: a clause the statement includes occurs at some offset |
| Bootstrap.NoTablesCompatible | lib/features/outline/bootstrap.ts:18-20 | a database with none of the outline tables passes the check |
| Bootstrap.MissingTableIncompatible | lib/features/outline/bootstrap.ts:22-50 | once one outline table exists, a missing one reads as `""` and fails the check |
| Bootstrap.AsWrittenNodesLackUnique | constants/db.ts:24-31 | the nodes statement as written does not contain `UNIQUE (bookId, id)` |
| Bootstrap.InitSchemaIncompatible | lib/features/outline/bootstrap.ts:17-51 | the tables the init statements create never pass `isSchemaCompatible` (nodes lack the unique and foreign-key clauses) |
| Bootstrap.CorrectedSchemaCompatible | lib/features/outline/bootstrap.ts:17-51 | statements that add the clauses the check asks for do pass it |
| Bootstrap.CreateMissing | constants/db.ts:14-43 | `CREATE TABLE IF NOT EXISTS` adds exactly the missing tables and leaves every existing table's text as it was |
| Bootstrap.CreateIntoNone | lib/features/outline/bootstrap.ts:76 | applied to a database without the tables it builds them as the statements say |
| Bootstrap.CreateOverBuilt | lib/features/outline/bootstrap.ts:76 | applied over tables built from the same statements it changes nothing |
| Bootstrap.DroppedNone | lib/features/outline/bootstrap.ts:73 | after the drop none of the outline tables is left |
| Bootstrap.TableSqlMap | lib/features/outline/bootstrap.ts:66-70 | holds the creating text of exactly those outline tables that exist |
| Bootstrap.EnsureDefaultBook | lib/features/outline/bootstrap.ts:53-61 | adds the default book unless present and changes nothing else |
| Bootstrap.InitRunSteps | lib/features/outline/bootstrap.ts:66-77 | a complete run is check-and-drop, then create, then the default book, in that order |
| Bootstrap.FirstRunCreates | lib/features/outline/bootstrap.ts:63-77 | on a fresh database a run creates the three tables and the default book |
| Bootstrap.IncompatibleRunDrops | lib/features/outline/bootstrap.ts:72-77 | on tables that fail the check a run loses every row, keeps only the default book and rebuilds the tables |
| Bootstrap.CompatibleRunKeeps | lib/features/outline/bootstrap.ts:72-77 | on tables that pass the check and match the statements a run keeps every row and table and adds only the default book |
| Bootstrap.InitDropsSavedRows | lib/features/outline/bootstrap.ts:72-77 | as written: every start on tables the init statements built wipes all saved books, nodes and edges, and leaves tables that fail again next time |
| Bootstrap.CorrectedInitKeepsRows | lib/features/outline/bootstrap.ts:72-77 | with the corrected statements a start keeps every saved row and adds only the default book |
| Bootstrap.OutlineInit.constructor | lib/features/outline/bootstrap.ts:15 | no run is memoised, none is in flight and none has started |
| Bootstrap.OutlineInit.InitOutlineFeature | lib/features/outline/bootstrap.ts:63-85 | with a memoised run the caller awaits that same run and nothing starts; otherwise a new run starts and is memoised |
| Bootstrap.OutlineInit.Settle | lib/features/outline/bootstrap.ts:65-81 | the run applies the steps it completed; a completed run stays memoised, a failed one clears the memo so the next call retries |
| Bootstrap.RetryAfterFailure | lib/features/outline/bootstrap.ts:63-85 | two callers during one run share run 0, and after it fails the next call starts run 1 |
| ItemList.ListRowsShape | components/outline/outline-item-list.tsx:111-119 | the rows `walk` produces form a pre-order listing: the list's own items in order at the first level, every deeper row a child of its parent, and a row one level deeper only under a predecessor that is not collapsed |
| ItemList.EntryShape | components/outline/outline-item-list.tsx:113-117 | an item's rows are its own row, then, unless it is collapsed, its children's rows one level deeper |
| ItemList.VisibleRowsShape | components/outline/outline-item-list.tsx:108-129 | the depth-0 rows of `visibleRows` are the top items in order under "root"; every deeper row is a child of its parent; rows nest in pre-order |
| ItemList.CollapsedHidesDescendants | components/outline/outline-item-list.tsx:115-123 | a collapsed row is never followed by one of its descendants: the next row is no deeper |
| ItemList.ListRowsSnoc | components/outline/outline-item-list.tsx:113-118 | the rows of a list one item longer are the old rows followed by that item's rows |
| ItemList.Walk | components/outline/outline-item-list.tsx:111-119 | the loop appends exactly the rows below `p` to `rows` |
| ItemList.ComputeVisibleRows | components/outline/outline-item-list.tsx:108-129 | the loop builds exactly `visibleRows` |
| ItemList.AllChildrenConcat | components/outline/outline-item-list.tsx:111-119 | the children of two lists are the children of the first followed by those of the second |
| ItemList.LevelIdsConcat | components/outline/outline-item-list.tsx:111-119 | the items n levels below two lists are those below the first followed by those below the second |
| ItemList.ListRowsComplete | components/outline/outline-item-list.tsx:111-119 | once the items `fuel + 1` levels below a list run out, the walk with `fuel` gives the same rows as with any larger bound |
| ItemList.EntryRowsComplete | components/outline/outline-item-list.tsx:113-117 | the same for one item and its rows |
| ItemList.NoChildrenNoRows | components/outline/outline-item-list.tsx:111-112 | an item without children has no rows below it |
| ItemList.VisibleRowsComplete | components/outline/outline-item-list.tsx:108-129 | on an outline whose items `fuel + 1` levels down run out, `visibleRows` with `fuel` is what the unbounded recursion gives |
| ItemList.RowAt | components/outline/outline-item-list.tsx:139-140 | a row exists exactly for an in-range index, and is the row there |
| ItemList.SiblingTarget | components/outline/outline-item-list.tsx:142-158 | the target names the anchor's parent and depth, at an index within its list |
| ItemList.ResolveDropTarget | components/outline/outline-item-list.tsx:133-194 | always yields a target, at an index within the target parent's list |
| ItemList.TargetPlacement | components/outline/outline-item-list.tsx:160-191 | an item not yet in the target list lands directly behind an `After` anchor, in front of a `Before` or first-child anchor, at the end when that anchor is missing from the list, first when a first-child anchor is missing, and at index 0 of its own parent with no anchor |
| ItemList.Spliced | components/outline/outline-item-list.tsx:207-212 | the reordered rows are a permutation of the rows with the dragged row at the drop position |
| ItemList.PlannedMove | components/outline/outline-item-list.tsx:196-226 | no move when `from == to` or the row is missing; otherwise a reorder within the parent when the target names the row's parent, else a move to the target's parent, at the target index |
| ItemList.ApplyDrop | components/outline/outline-item-list.tsx:196-226 | the store change a drop performs is the one its planned move calls for |
| ItemList.MoveToOtherList | stores/outline.ts:300-359 | a successful move into another list inserts the item there at the index asked for |
| ItemList.DropToOtherParentPlacement | components/outline/outline-item-list.tsx:219-222 | a drop into another parent inserts the item into the target's list at the resolved index, next to the anchor row |
| ItemList.DropDownOvershoots | components/outline/outline-item-list.tsx:142-158 | as written: dragging `a` one row down among `a, b, c` shows `b, a, c`, but the drop asks for index 2 and the store yields `b, c, a` |
| ItemList.AdjustedIndex | components/outline/outline-item-list.tsx:145-151 | an index computed on the list that still holds the item is one less when it lies beyond the item's place, and unchanged otherwise |
| ItemList.CorrectedPlannedMove | components/outline/outline-item-list.tsx:219-222 | the corrected dispatch differs from the as-written one only by the adjusted index of a within-parent move |
| ItemList.ReorderedAfter | stores/outline.ts:265-299 | re-inserting an item at the adjusted index puts it directly behind the anchor |
| ItemList.ReorderedBefore | stores/outline.ts:265-299 | re-inserting it at the adjusted index puts it directly in front of the anchor |
| ItemList.ReorderedInPlace | stores/outline.ts:265-299 | moving an item to its own place leaves its list as it was |
| ItemList.WithinParentReorders | stores/outline.ts:265-299 | `moveItemWithinParent` to an in-range index reorders the parent's list |
| ItemList.WithinParentNextTo | stores/outline.ts:265-299 | with the adjusted index the item lands directly behind, or in front of, the sibling it was dropped against |
| ItemList.ListedAnchorIndex | components/outline/outline-item-list.tsx:142-191 | within the dragged row's parent, the target index is the anchor's index, plus one for an `After` anchor, and 0 without an anchor |
| ItemList.AdjustedLandsBy | stores/outline.ts:265-299 | `moveItemWithinParent` with the adjusted index of a listed anchor places the item next to that anchor as shown |
| ItemList.CorrectedDropWithinParent | components/outline/outline-item-list.tsx:196-226 | with the adjusted index a drop within the item's parent lands where the rows showed it: behind an `After` anchor, in front of a `Before` or first-child anchor, first with no anchor |
| BookStore.RenamedBook | stores/book-store.ts:50-58 | the book with the id takes the trimmed title, or keeps its own when that is blank, and is stamped `now`; any other book is unchanged; id and creation time never change |
| BookStore.Renamed | stores/book-store.ts:49-59 | the list keeps its length and order and each entry is renamed as above |
| BookStore.RenameUnlistedKeeps | stores/book-store.ts:49-59 | renaming a book that is not listed leaves the list as it was |
| BookStore.RenameIdempotent | stores/book-store.ts:49-59 | repeating a rename at the same time changes nothing more |
| BookStore.BookStoreState.constructor | stores/book-store.ts:23-25 | the store starts with no books, not hydrated and not loading |
| BookStore.BookStoreState.RefreshBooks | stores/book-store.ts:33-41 | replaces the list with the listing, or keeps it and rethrows when the listing throws; loading is off afterwards either way |
| BookStore.BookStoreState.Hydrate | stores/book-store.ts:26-32 | does nothing once hydrated; otherwise refreshes and counts as hydrated only when the listing succeeded |
| BookStore.BookStoreState.CreateBook | stores/book-store.ts:42-46 | the created book goes first and the rest keep their order; a failed creation changes nothing |
| BookStore.BookStoreState.RenameBook | stores/book-store.ts:47-60 | after a successful stored rename the listed book is renamed; a failed rename changes nothing |
| BookStore.BookStoreState.ClearAllBooks | stores/book-store.ts:61-65 | after clearing, the list is reloaded and the store counts as hydrated; if either call throws, the store is left as it was |
| Theme.ModeName | stores/theme.ts:3 | a mode is spelt "system" or "dark", and "dark" exactly for the dark mode |
| Theme.Toggled | stores/theme.ts:17 | toggling always gives the other mode |
| Theme.ToggleTwiceRestores | stores/theme.ts:16-19 | toggling twice restores the mode |
| Theme.ThemeStore.constructor | stores/theme.ts:13 | the store starts out following the system |
| Theme.ThemeStore.EnableDarkMode | stores/theme.ts:14 | the mode is dark afterwards, whatever it was |
| Theme.ThemeStore.DisableDarkMode | stores/theme.ts:15 | the mode is "system" afterwards, whatever it was |
| Theme.ThemeStore.ToggleDarkMode | stores/theme.ts:16-19 | the mode becomes the other one |
| Uuid.HexDigit | utils/uuid.ts:12 | `toString(16)` of a value below 16 is one lower-case hex digit of that value |
| Uuid.HexByte | utils/uuid.ts:11-13 | `hexByte` is exactly two lower-case hex digits, high nibble first, that encode the byte |
| Uuid.Position | utils/uuid.ts:33-54 | every byte's two digits sit off the dash positions |
| Uuid.FormatFrom | utils/uuid.ts:33-54 | the text of the bytes from `j` on has the length the layout leaves for it |
| Uuid.DecodeBytes | utils/uuid.ts:33-54 | a well-laid-out text spells sixteen bytes |
| Uuid.FormatFromLayout | utils/uuid.ts:33-54 | the text of the bytes from `j` on carries the dashes and digits of its stretch of the layout |
| Uuid.FormatLayout | utils/uuid.ts:33-54 | the text form is 36 characters, dashes at 8, 13, 18 and 23, lower-case hex elsewhere |
| Uuid.FormatAt | utils/uuid.ts:33-54 | the two characters at byte `j`'s position are its `hexByte` |
| Uuid.DecodeFormat | utils/uuid.ts:33-54 | the text form is lossless: decoding it gives back the sixteen bytes |
| Uuid.VersionChar | utils/uuid.ts:30 | a byte under the version mask shows as '7' at index 14 |
| Uuid.VariantChar | utils/uuid.ts:31 | a byte under the variant mask shows as 8, 9, a or b at index 19 |
| Uuid.WithVersion | utils/uuid.ts:30 | `(v & 0x0f) \| 0x70` keeps the low nibble under the version nibble 7 |
| Uuid.WithVariant | utils/uuid.ts:31 | `(v & 0x3f) \| 0x80` keeps the low six bits under the variant bits `10` |
| Uuid.FourBytes | utils/uuid.ts:23-26 | the four low-word bytes spell `timeLow` |
| Uuid.TimeBytes | utils/uuid.ts:16-26 | the six time bytes spell the millisecond clock modulo 2^48, big-endian |
| Uuid.V7Text | utils/uuid.ts:16-54 | bytes laid out as `uuidV7` lays them give a well-laid-out text that decodes back to them, starting with the clock and showing version 7 and variant 8–b |
| Uuid.UuidV7 | utils/uuid.ts:15-55 | fills the bytes in place and returns a 36-character v7 UUID: its first six bytes are the clock modulo 2^48, the rest are the random bytes under the version and variant masks, and it shows '7' at 14 and 8–b at 19 |
| DebugSeed.SeedNode | lib/features/debug/index.ts:15-19 | node `i` is a text node with its own id whose text is "节点 " followed by the decimal digits of `i` |
| DebugSeed.BuildLargeOutlineMaps | lib/features/debug/index.ts:8-29 | the loop makes every id a text node under the root, the root lists the ids in creation order, and with distinct ids node `ids[i]` is number `i + 1` |
| DebugSeed.SeededIsTree | lib/features/debug/index.ts:8-29 | with distinct ids other than the root's, the seeded maps form a well-formed outline |
| DebugSeed.FlatIsTree | lib/features/debug/index.ts:20-26 | distinct nodes listed only directly under the root form a well-formed outline |
| AgentScore.ScoreCategory | scripts/post-commit-agent-score.mjs:60-66 | the score is the maximum less the weighted issues, floored at zero; with positive weights only a category without issues keeps the full 1000 |
| AgentScore.ScoreCategoryMonotone | scripts/post-commit-agent-score.mjs:60-66 | more issues never score higher |
| AgentScore.Scored | scripts/post-commit-agent-score.mjs:202-211 | each category score is at most 1000, the total at most 3000, and all three are full exactly when there are no issues |
| AgentScore.AssertCount | scripts/post-commit-agent-score.mjs:41-45 | a count is accepted exactly when it is a non-negative integer, which it then is; otherwise the error names the field |
| AgentScore.ValidateCategory | scripts/post-commit-agent-score.mjs:50-56 | a category validates exactly when it is present, truthy and carries two non-negative integer counts, which are the counts returned; a missing one reports "Missing category" |
| AgentScore.ValidateQuantized | scripts/post-commit-agent-score.mjs:47-58 | the result validates exactly when all three categories do, with their counts; categories are checked security, then code_quality, then architecture, and the first failure is the error |
| AgentScore.ValidateRoundTrip | scripts/post-commit-agent-score.mjs:96-103 | an answer in the shape the prompt asks for validates to exactly its counts |
| AgentScore.NoneMarkerFrom | scripts/post-commit-agent-score.mjs:69 | the scan finds the marker exactly when it occurs at or after the start index |
| AgentScore.HasNoMustFix | scripts/post-commit-agent-score.mjs:68-70 | true exactly when "MUST_FIX:", whitespace and "(none)" occur somewhere, ASCII letters in either case |
| AgentScore.FenceSpan | scripts/post-commit-agent-score.mjs:28 | a match exactly when the text has a fence followed by a closing fence; the content starts past the first fence, an optional "json" and whitespace, ends before the whitespace ahead of the first closing fence, and holds no fence |
| AgentScore.ContentStart | scripts/post-commit-agent-score.mjs:28 | the fence content starts after the fence, past an optional case-insensitive "json" and the whitespace after it |
| AgentScore.ExtractJsonObject | scripts/post-commit-agent-score.mjs:23-39 | the whole trimmed text when it parses, and otherwise exactly the fallback on the trimmed text; any result is the parse of a contiguous piece of it |
| AgentScore.ExtractFallback | scripts/post-commit-agent-score.mjs:27-38 | with a code fence, the parse of its content, whose error is final; without one, the parse of the span from the first '{' to the last '}' when the last comes after the first, else "No JSON object found" |
| AgentScore.Attempt | scripts/post-commit-agent-score.mjs:114-124 | a codex failure is the attempt's error; a success is the validation of JSON parsed from a piece of codex's trimmed output |
| AgentScore.QuantizeWithRetry | scripts/post-commit-agent-score.mjs:109-132 | at most three attempts, the first with no hint and later ones asking to regenerate valid JSON; the answer is `FirstValid` of the outputs: the first valid answer, or after three failed attempts the last error |
| AgentScore.FirstValid | scripts/post-commit-agent-score.mjs:113-131 | a run of attempts succeeds exactly when one attempt does, with the answer of the first that does; otherwise it carries the last attempt's error |
| AgentScore.FirstValidAt | scripts/post-commit-agent-score.mjs:113-131 | when attempt k is the first valid one, or the last one after failures, it is the run's answer |
| AgentScore.AttemptHint | scripts/post-commit-agent-score.mjs:110-127 | the hint is empty exactly for the first attempt |
| AgentScore.ReadRoot | scripts/post-commit-agent-score.mjs:140-150 | a missing or blank file starts from `{}`; otherwise the root is the parsed text, which must be an object |
| AgentScore.AppendScoreRecord | scripts/post-commit-agent-score.mjs:152-164 | a falsy agent entry becomes `{}`; an object or array entry is extended as below and every other agent is left as it was; a string, number or `true` entry gives the path message or the strict-mode `TypeError` |
| AgentScore.AppendToObject | scripts/post-commit-agent-score.mjs:155-164 | under an object entry the version's list, created when falsy, gets the record at its end and no other version changes; a truthy non-list fails with the path message |
| AgentScore.AppendToArray | scripts/post-commit-agent-score.mjs:155-164 | under an array entry `length` fails the list test; an index gets the element's list, created when falsy, with the array grown to reach it; any other key leaves the written root as it was, so the record is lost |
| AgentScore.PrimitiveError | scripts/post-commit-agent-score.mjs:155-162 | under a string an index below its UTF-16 length or `length` fails the list test; under any other key, and under a number or `true`, the assignment throws "Cannot create property" |
| AgentScore.ArrayIndex | scripts/post-commit-agent-score.mjs:155 | a key names an array index only as the canonical decimal of a number below 2^32 - 1 |
| AgentScore.ArrayIndexOf | scripts/post-commit-agent-score.mjs:155 | and every such number written in decimal is an array index |
| AgentScore.SetIndex | scripts/post-commit-agent-score.mjs:156 | assigning element i keeps the other elements, grows the array to i + 1 when needed, and fills the holes with `null` as `JSON.stringify` writes them |
| AgentScore.NumberText | scripts/post-commit-agent-score.mjs:156 | an integer is written as its decimal digits, after a minus sign when negative, as `String(n)` writes integers below 10^21 |
| AgentScore.AppendToEmptyFile | scripts/post-commit-agent-score.mjs:140-164 | in a new score file the record becomes the only entry of its agent and version |
| AgentScore.StoreRecord | scripts/post-commit-agent-score.mjs:140-166 | with no file the record goes into an empty root; a readable file's root gets the record appended; a read error is the result |
| AgentScore.SlashIndex | scripts/post-commit-agent-score.mjs:177 | the first '/' of the string, or -1 when there is none |
| AgentScore.SplitSegment | scripts/post-commit-agent-score.mjs:177 | `([^/]+)\/` consumes a non-empty '/'-free segment and its slash |
| AgentScore.ParseBranch | scripts/post-commit-agent-score.mjs:177 | a recognised branch is `agents/<agent>/<version>/<task>` with '/'-free agent and version and a non-empty single-line task |
| AgentScore.ParseBranchName | scripts/post-commit-agent-score.mjs:177-187 | and every such branch is recognised, giving back its parts |
| AgentScore.ScoreRecord | scripts/post-commit-agent-score.mjs:213-223 | the record's `total_score` is the sum of the three category scores |
| AgentScore.CollectScore | scripts/post-commit-agent-score.mjs:168-227 | an empty review fails; a non-agent branch is skipped; otherwise the quantisation is full marks for "MUST_FIX: (none)" or `FirstValid` of codex's outputs; its error is the failure, and a valid one is scored and stored, giving `Collected` exactly when the store succeeds |
| AgentList.Spaces | scripts/agent-list.mjs:15 | `' '.repeat(n)` is exactly `n` spaces |
| AgentList.Pad | scripts/agent-list.mjs:10-16 | text shorter than the width is filled with spaces to exactly the width; longer text is kept whole |
| AgentList.Clamp | scripts/agent-list.mjs:22-24 | with `min <= max` the result lies in the range, and a number already in it is kept |
| AgentList.Round | scripts/agent-list.mjs:28 | `Math.round` is the nearest integer, halves rounded up |
| AgentList.Filled | scripts/agent-list.mjs:27-28 | the bar fills at most 20 cells, none for a non-positive total and all 20 from 3000 up |
| AgentList.FilledMonotone | scripts/agent-list.mjs:26-30 | a higher total never draws a shorter bar |
| AgentList.ScoreBar | scripts/agent-list.mjs:26-30 | 20 cells between brackets: the first `filled` are '#', the rest '-' |
| AgentList.TenthsText | scripts/agent-list.mjs:19 | the digits of a number of tenths, with the point before the last digit |
| AgentList.TenthsRoundTrip | scripts/agent-list.mjs:19 | reading that text back gives the number of tenths |
| AgentList.ToFixed1 | scripts/agent-list.mjs:19 | `toFixed(1)` has a minus sign exactly for a negative number, then digits with one decimal that read within half a tenth of the magnitude |
| AgentList.ReadScoreData | scripts/agent-list.mjs:32-47 | a missing file is `null`, a blank one `{}`, otherwise the parsed root, which must be an object |
| AgentList.ReadersAgree | scripts/agent-list.mjs:32-47 | the dashboard and the collector read an existing score file to the same root, or both fail |
| AgentList.NumberOf | scripts/agent-list.mjs:57 | `Number` keeps a stored number and gives NaN for a missing field |
| AgentList.NumberOfValue | scripts/agent-list.mjs:57 | `Number` of a present number is that number |
| AgentList.Totals | scripts/agent-list.mjs:56-58 | the finite totals are at most one per record, each the `total_score` of some record |
| AgentList.TotalsAppend | scripts/agent-list.mjs:56-58 | one more record adds its total at the end when it is finite, and nothing otherwise |
| AgentList.Min | scripts/agent-list.mjs:67 | `Math.min` is an element no larger than any other |
| AgentList.Max | scripts/agent-list.mjs:68 | `Math.max` is an element no smaller than any other |
| AgentList.SumBetween | scripts/agent-list.mjs:65 | a sum of numbers in a range lies between count times its ends |
| AgentList.AverageBetween | scripts/agent-list.mjs:65-68 | the average lies between the minimum and the maximum |
| AgentList.VersionRow | scripts/agent-list.mjs:51-78 | no row for a non-array, empty array or one without finite totals; otherwise the count and last of the finite totals, their average, and a minimum and maximum that are totals bounding all of them |
| AgentList.VersionRows | scripts/agent-list.mjs:51-79 | at most one row per listed version, each for this agent and one of its versions |
| AgentList.VersionRowsComplete | scripts/agent-list.mjs:51-79 | every listed version with a finite total has its row among the rows |
| AgentList.WithLast | scripts/agent-list.mjs:80 | the rows with a given last total, in order |
| AgentList.Insert | scripts/agent-list.mjs:80 | inserting a row adds exactly that row |
| AgentList.InsertSorted | scripts/agent-list.mjs:80 | and keeps a list sorted highest first sorted |
| AgentList.InsertKeepsTies | scripts/agent-list.mjs:80 | and places the row after the rows with the same total |
| AgentList.SortByLast | scripts/agent-list.mjs:80 | the sort yields the same rows, highest last total first |
| AgentList.SortByLastStable | scripts/agent-list.mjs:80 | and keeps rows with equal last totals in their original order |
| AgentList.ToVersionRows | scripts/agent-list.mjs:49-81 | the loop yields exactly the version rows, sorted |
| AgentList.AgentRowsTies | scripts/agent-list.mjs:108-114 | sorting each agent's rows first changes neither the rows nor the order of ties |
| AgentList.BuildDashboard | scripts/agent-list.mjs:101-125 | a read error fails, exactly a missing file is "not found"; a readable file whose entries are enumerated in full gives "no records" without rows and otherwise every object entry's rows sorted highest last total first |
| AgentList.AgentRowsComplete | scripts/agent-list.mjs:108-114 | every version of every listed object entry with a finite total has its row among the gathered rows |
| AgentList.DashboardComplete | scripts/agent-list.mjs:101-125 | with the file's keys enumerated in full, a table shows the row of every version of every object entry with a finite total |
| AgentList.DashboardOrder | scripts/agent-list.mjs:109-121 | the dashboard shows every version row, sorted, with ties in the file's enumeration order |
| AgentList.TableLines | scripts/agent-list.mjs:83-99 | title, blank line, header, rule, then one line per row in order |
| AgentList.RowAligned | scripts/agent-list.mjs:84-96 | when every field fits its column, the header is 67 wide with "Trend" at 62, and a row's bar starts at 62 |
| AgentList.CollectedTotalIsLast | scripts/agent-list.mjs:56-64 | after the collector appends a record under an object entry, that agent and version's dashboard row shows the record's total as its last; under an array entry the dashboard skips the agent |
| TestSync.IsApiSourceFile | scripts/check-test-sync.mjs:36-40 | a file counts as API source exactly when it has a JS/TS extension and starts with one of the five API roots (the `AGENTS.override.md` test can never fire on such a file) |
| TestSync.TestsAreNotApi | scripts/check-test-sync.mjs:36-40 | a `test/` file is never an API file, so the API change cannot meet the gate by itself |
| TestSync.AnyAddsExport | scripts/check-test-sync.mjs:45-47 | true exactly when some line starts with '+' and holds the word `export` |
| TestSync.HasExportDelta | scripts/check-test-sync.mjs:42-51 | false when `git diff` fails; otherwise true exactly when a line of the trimmed patch starts with '+' and holds the word `export` |
| TestSync.HeaderCountsAsExport | scripts/check-test-sync.mjs:47 | as written: a change to `utils/export.ts` whose only hunk adds `b` counts as an export delta, through the `+++ b/utils/export.ts` header line |
| TestSync.PlusLineAddsExport | scripts/check-test-sync.mjs:47 | the `+++ b/<path>` header passes the added-export test whenever the path holds the word |
| TestSync.HunkLines | scripts/check-test-sync.mjs:45-47 | the lines from the first hunk header on, a suffix of the patch |
| TestSync.HasExportDeltaInHunks | scripts/check-test-sync.mjs:42-51 | the corrected test is false when `git diff` fails |
| TestSync.HunkExportImpliesExport | scripts/check-test-sync.mjs:42-51 | the corrected test only drops matches that the written one finds |
| TestSync.HunkExportIgnoresHeader | scripts/check-test-sync.mjs:45-47 | with the corrected test the file header never matters: the verdict is that of the hunks alone |
| TestSync.TokenEnd | scripts/check-test-sync.mjs:60 | the end of the run of non-whitespace from `from` |
| TestSync.ParseChange | scripts/check-test-sync.mjs:60-61 | the status is the first token; the path is missing exactly when the line has no whitespace |
| TestSync.ParseChangeOf | scripts/check-test-sync.mjs:55-62 | a listing line of status, tab and path parses back into the two |
| TestSync.Changes | scripts/check-test-sync.mjs:55-62 | one entry per non-blank line of the listing |
| TestSync.HasTestChange | scripts/check-test-sync.mjs:64-65 | true only when some path starts with `test/`, false exactly when every entry has a path and none does, and a crash (`TypeError`) only on an entry without a path |
| TestSync.ApiChanged | scripts/check-test-sync.mjs:67-71 | the paths of exactly the API files that are new or gained an `export` line, in listing order |
| TestSync.Decide | scripts/check-test-sync.mjs:64-86 | crashes exactly when the test scan hits an entry without a path; skips when nothing qualifies; fails, listing the API files, exactly when something qualifies and no `test/` path changed; passes otherwise |
| TestSync.TestGate | scripts/check-test-sync.mjs:53-87 | `main` as written decides on the parsed listing with `hasExportDelta` as the per-path export test, header lines included; every file a failure lists is an API file from the listing |
| TestSync.CorrectedTestGate | scripts/check-test-sync.mjs:53-87 | the same gate with the export test restricted to the hunks |
| TestSync.GateOutcome | scripts/check-test-sync.mjs:55-86 | the gate over the trimmed, non-blank listing lines for any per-path export test; failures name API files from the listing |
| TestSync.DecideWithFewerDeltas | scripts/check-test-sync.mjs:67-84 | an export test that finds fewer deltas crashes exactly when the other does, keeps a skip a skip, and fails only on a subset of the files |
| TestSync.CorrectedGateOnlyDrops | scripts/check-test-sync.mjs:42-51 | the corrected gate never fails where the written one passes or skips, and lists no file the written one does not |
| TestSync.GateFailsIffUntested | scripts/check-test-sync.mjs:64-84 | on a listing where every entry has a path the gate fails exactly when an API addition comes without any `test/` change |
| DiffGate.Split | scripts/check-test-sync.mjs:45-46 | `split` gives at least one piece, none holding the separator, more than one exactly when the separator occurs, and the pieces join back to the string |
| DiffGate.SplitJoin | scripts/check-test-sync.mjs:45-46 | splitting undoes joining when no piece holds the separator |
| DiffGate.FirstSeparator | scripts/check-test-sync.mjs:21 | in joined pieces the first separator follows the first piece |
| DiffGate.FindArg | scripts/check-test-sync.mjs:18-19 | `args.find` yields an argument with the prefix, and none exactly when no argument has it |
| DiffGate.OptionValueOf | scripts/check-test-sync.mjs:21-24 | the value of `--name=value` is `value` when it holds no '=' |
| DiffGate.DetermineBaseHead | scripts/check-test-sync.mjs:16-34 | `--base=` and `--head=` come from the arguments; otherwise the head is HEAD and the base HEAD~1, or the empty tree when HEAD has no parent |
| DiffGate.ExplicitRange | scripts/check-doc-sync.mjs:25-43 | passing `--base=b --head=h` compares exactly `b` and `h`, whatever the repository |
| DiffGate.CodeIsNotMarkdown | scripts/check-doc-sync.mjs:46-48 | a path with a source extension never ends in a Markdown file name, so the Markdown exclusions change nothing for it |
| DiffGate.StartsWithAny | scripts/check-doc-sync.mjs:50 | `roots.some(startsWith)` holds exactly when the path starts with one of the roots |
| DiffGate.NonEmpty | scripts/check-doc-sync.mjs:63 | `filter(Boolean)` keeps exactly the non-empty strings |
| DiffGate.TrimAll | scripts/check-doc-sync.mjs:62 | every string trimmed, one for one |
| DiffGate.OutputLines | scripts/check-doc-sync.mjs:60-63 | the non-empty trimmed lines of the trimmed output, at most one per line |
| DocSync.IsMonitoredCodeFile | scripts/check-doc-sync.mjs:45-51 | a file is monitored exactly when it has a JS/TS extension and starts with one of the four monitored roots |
| DocSync.MonitoredIsApi | scripts/check-doc-sync.mjs:5-10 | every monitored file is also an API file of the test-first gate |
| DocSync.DirEnd | scripts/check-doc-sync.mjs:54 | the directory scan ends at a '/' at index 1 or later, or finds none |
| DocSync.Dirname | scripts/check-doc-sync.mjs:54 | `dirname` is never empty |
| DocSync.DirnameOfChild | scripts/check-doc-sync.mjs:54 | the directory of `dir/name` is `dir` |
| DocSync.DescriptionPathFor | scripts/check-doc-sync.mjs:53-56 | the description path always ends in `/DESCRIPTION.md` |
| DocSync.DescriptionBeside | scripts/check-doc-sync.mjs:53-56 | a file's description sits in its own directory and is never itself monitored |
| DocSync.Violation | scripts/check-doc-sync.mjs:69-83 | a file is reported exactly when it is monitored and its description is not among the changed files; "missing" when the description is not in HEAD either, "not updated" otherwise |
| DocSync.Judge | scripts/check-doc-sync.mjs:69-83 | the per-file verdict, for every path |
| DocSync.ViolationsEmptyIff | scripts/check-doc-sync.mjs:69-91 | the gate passes exactly when every monitored changed file has its description among the changed files; whether it exists only picks the message |
| DocSync.ViolationsNameMonitored | scripts/check-doc-sync.mjs:69-83 | each violation names a changed, monitored file whose description was not changed |
| DocSync.Members | scripts/check-doc-sync.mjs:65 | the set holds exactly the changed files |
| DocSync.DocGate | scripts/check-doc-sync.mjs:58-94 | the loop collects exactly the violations in file order; the exit status is 1 when there is any and 0 exactly when every monitored file's description changed too |
| ScoreRubric.RStrip | skills/check-architecture-clean-score/scripts/generate_score_rubric.py:33 | `rstrip` keeps the longest prefix that does not end in whitespace, dropping only whitespace |
| ScoreRubric.LStrip | skills/check-architecture-clean-score/scripts/generate_score_rubric.py:40 | `lstrip` keeps the longest suffix that does not start with whitespace, dropping only whitespace |
| ScoreRubric.Strip | skills/check-architecture-clean-score/scripts/generate_score_rubric.py:22-40 | `strip` leaves no whitespace at either end |
| ScoreRubric.StripClean | skills/check-architecture-clean-score/scripts/generate_score_rubric.py:42 | stripping leaves a string without edge whitespace unchanged |
| ScoreRubric.StripStable | skills/check-architecture-clean-score/scripts/generate_score_rubric.py:22-33 | `strip` is idempotent and ignores a prior `rstrip` |
| ScoreRubric.Lower | skills/check-architecture-clean-score/scripts/generate_score_rubric.py:47-48 | `lower` maps each ASCII capital to its small letter and keeps every other character |
| ScoreRubric.IncludesIffContains | skills/check-architecture-clean-score/scripts/generate_score_rubric.py:50-52 | `pat in s` holds exactly when `pat` occurs somewhere in `s` |
| ScoreRubric.Hashes | skills/check-architecture-clean-score/scripts/generate_score_rubric.py:13 | the run of '#' opening the line from `i` |
| ScoreRubric.SkipSpace | skills/check-architecture-clean-score/scripts/generate_score_rubric.py:13 | the end of the whitespace run from `i` |
| ScoreRubric.HeadingOf | skills/check-architecture-clean-score/scripts/generate_score_rubric.py:13-25 | a heading is one to six '#', whitespace, then a non-empty stripped single-line title ending the line; a line not starting with '#' is no heading |
| ScoreRubric.LineHeadingRStrip | skills/check-architecture-clean-score/scripts/generate_score_rubric.py:22-33 | right-stripping a line never changes whether, or which, heading it is |
| ScoreRubric.TitleMatches | skills/check-architecture-clean-score/scripts/generate_score_rubric.py:28 | a title names the section exactly when it equals the stripped section name, ASCII case aside |
| ScoreRubric.FirstOpening | skills/check-architecture-clean-score/scripts/generate_score_rubric.py:21-31 | the line found opens the section |
| ScoreRubric.FirstOpeningIsFirst | skills/check-architecture-clean-score/scripts/generate_score_rubric.py:21-31 | and no earlier line does; none is found when no line opens it |
| ScoreRubric.Body | skills/check-architecture-clean-score/scripts/generate_score_rubric.py:21-33 | the body holds at most one line per line of the document |
| ScoreRubric.BodyFrom | skills/check-architecture-clean-score/scripts/generate_score_rubric.py:32-33 | each body line is a kept line after the opening that is no heading |
| ScoreRubric.RStripStable | skills/check-architecture-clean-score/scripts/generate_score_rubric.py:33 | `rstrip` is idempotent |
| ScoreRubric.SectionClean | skills/check-architecture-clean-score/scripts/generate_score_rubric.py:16-34 | section lines are right-stripped and never headings, sub-headings included, and a document without the heading has no section lines |
| ScoreRubric.ExtractSectionLines | skills/check-architecture-clean-score/scripts/generate_score_rubric.py:16-34 | the loop returns exactly the section: the lines under the first matching heading, up to the next heading at its level or above, sub-headings skipped |
| ScoreRubric.ScanResult | skills/check-architecture-clean-score/scripts/generate_score_rubric.py:21-34 | when the loop breaks or runs out of lines it has kept exactly the section |
| ScoreRubric.ScanSection | skills/check-architecture-clean-score/scripts/generate_score_rubric.py:18-34 | the loop, over any heading match and title test, yields exactly the section |
| ScoreRubric.BulletOf | skills/check-architecture-clean-score/scripts/generate_score_rubric.py:40-42 | a line gives a bullet exactly when it starts with "- " once stripped; the bullet is the stripped rest |
| ScoreRubric.BulletsFromLines | skills/check-architecture-clean-score/scripts/generate_score_rubric.py:37-43 | every bullet is stripped and comes from a line starting with "- " |
| ScoreRubric.ExtractBullets | skills/check-architecture-clean-score/scripts/generate_score_rubric.py:37-43 | the loop returns exactly the bullets, in order |
| ScoreRubric.PenaltyForRule | skills/check-architecture-clean-score/scripts/generate_score_rubric.py:46-58 | 20 exactly for "must not", 15 for "must" without "not", otherwise 12 for Dependency Rules, 10 for Code Constraint and 8 for any other section, case aside |
| ScoreRubric.MustNotHasMust | skills/check-architecture-clean-score/scripts/generate_score_rubric.py:50-53 | text with "must not" holds "must", which is why "must not" is tested first |
| ScoreRubric.SeverityForPenalty | skills/check-architecture-clean-score/scripts/generate_score_rubric.py:61-66 | High exactly from 15, Medium exactly from 8 to 14, Low exactly up to 7 |
| ScoreRubric.RuleNeverLow | skills/check-architecture-clean-score/scripts/generate_score_rubric.py:46-66 | a rule costs 8, 10, 12, 15 or 20 points, is never Low, and is High exactly when it says "must" |
| ScoreRubric.RowIn | skills/check-architecture-clean-score/scripts/generate_score_rubric.py:83-85 | each rule of a section gets its penalty and severity |
| ScoreRubric.Rows | skills/check-architecture-clean-score/scripts/generate_score_rubric.py:82-85 | one row per rule |
| ScoreRubric.BuildRows | skills/check-architecture-clean-score/scripts/generate_score_rubric.py:77-85 | the loop yields the Dependency Rules rows, then the Code Constraint rows |
| ScoreRubric.TotalAppend | skills/check-architecture-clean-score/scripts/generate_score_rubric.py:87 | the total adds up section by section |
| ScoreRubric.TotalBounds | skills/check-architecture-clean-score/scripts/generate_score_rubric.py:87 | the total lies between 8 and 20 points per rule |
| ScoreRubric.RubricRows | skills/check-architecture-clean-score/scripts/generate_score_rubric.py:74-87 | the rows are those of the two sections' bullets in order, and the maximum penalty is their total, between 8 and 20 per rule |
| ScoreRubric.RuleLine | skills/check-architecture-clean-score/scripts/generate_score_rubric.py:110 | a rule line starts with its number and penalty and ends with the rule |
| ScoreRubric.PenaltyLines | skills/check-architecture-clean-score/scripts/generate_score_rubric.py:105-111 | the notice when there are no rules, otherwise one line per row numbered from 1 |
| Strings.TrimStart | scripts/post-commit-agent-score.mjs:24 | drops exactly the leading whitespace |
| Strings.TrimEnd | scripts/post-commit-agent-score.mjs:24 | drops exactly the trailing whitespace |
| Strings.TrimIsSlice | scripts/post-commit-agent-score.mjs:24 | `trim` gives a contiguous slice of the input, only whitespace cut on either side |
| Strings.TrimmedEnds | scripts/post-commit-agent-score.mjs:24 | the trimmed string neither starts nor ends with whitespace |
| Strings.TrimEmptyIffBlank | scripts/post-commit-agent-score.mjs:16 | the trimmed text is empty exactly when the input is all whitespace |
| Strings.TrimIdempotent | scripts/post-commit-agent-score.mjs:16-24 | trimming twice is trimming once |
| Strings.DecimalString | lib/features/debug/index.ts:18 | a number prints as decimal digits without leading zeros |
| Strings.DecimalRoundTrip | lib/features/debug/index.ts:18 | reading the digits back gives the number |
| Strings.DecimalStringInjective | lib/features/debug/index.ts:18 | different numbers print differently, so every seeded node's text is its own |
| Strings.IndexOf | scripts/post-commit-agent-score.mjs:32 | `indexOf` finds the first occurrence at or after `from`, or -1 when there is none |
| Strings.LastIndexOf | scripts/post-commit-agent-score.mjs:33 | `lastIndexOf` is the last position of the character, or -1 |
| Json.Get | scripts/post-commit-agent-score.mjs:53-54 | a property of an object is its own field; anything else is `undefined` |
| Json.NonNegativeInteger | scripts/post-commit-agent-score.mjs:42 | a value is a count exactly when it is a number, non-negative and integral, and then the count is that number |

## Left out

- Real time and timers (`performance.now`, `Date.now`, `setTimeout`, the continuation request): the clock is a field or a parameter, and timers firing and continuations running are explicit method calls.
- Promise interleaving and `await`: each asynchronous step is a sequential event. Settling a promise is `Complete` or `Settle`, and real concurrency is not modelled.
- Randomness (`crypto.getRandomValues`, `Math.random`): the ten random bytes of a UUID are an input.
- git, `execFileSync`/`execSync`, codex, stdin, file reads and writes: their results are inputs. `JSON.parse` and `Number` of a string are function parameters. `JSON.stringify` formatting, the prompt text and all console output are not modelled.
- Floating point: totals, averages and ratios in the dashboard are reals, and scheduler deadlines are integers. `toFixed(1)` rounds exact halves up, where the binary double can round them either way.
- lib/storage/outline-db.ts is modelled as abstract tables of node, edge and book rows that load and save act on. The order of the edges query (by parent, then position) is a premise of the load round-trip lemmas. The nodes query may return rows in any order.
- The next-frame commit of `removeItem` (stores/outline.ts:418-424) is not modelled; the store change is applied at once.
- `loadBook`, `hydrate` and `setActiveId` of stores/outline.ts are not modelled: they only await storage and copy its maps into the store.
- `createLargeDebugBook` and `clearDebugDatabase` (lib/features/debug/index.ts:31-44) are not modelled: they only call `createBook`, `saveOutlineMaps` and the storage clear, with a clock-built title.
- The rest of `build_rubric` (the fixed Markdown text, the SHA-256 prefix and the timestamp), `parse_args` and `main` of the rubric generator are not modelled. Only the rule rows, the total and the numbered penalty lines are.
- `markdown.splitlines()` is not modelled: `ExtractSectionLines` takes the lines as input.
- ScoreRubric.Lower: lower-cases ASCII letters only. Python's `str.lower` also folds other scripts.
- Transactions: the shared context object passed to every step is not modelled.
- OutlineStore.OutdentItem: carries no ensures of its own. Its behaviour is stated by `OutdentIsRelink`, `OutdentItemFollowsParent` and `OutdentItemKeepsTree`.
- OutlineRemoval.RemoveSubTree: recursion is bounded by a `fuel` argument and fails with `TooDeep` when that runs out. `RemoveItem` passes more fuel than any acyclic tree needs (`SubtreeBound`), so the error never arises there.
- DocSync.DocGate: takes the changed-file list and HEAD's contents as parameters. The script checks HEAD for an existing description whatever `--head` says, and the parameter models exactly that check.
- ScoreRubric.ScanSection: generic over the heading match, the title test and the kept-line transform. `ExtractSectionLines` instantiates it with `SECTION_RE` on the stripped line, the case-insensitive title test and `rstrip`.
- TestSync.ParseChange: a renamed or copied entry (`R100 old new`) splits into its status and the old path, as `split(/\s+/, 2)` does, so the gate judges a rename by its old path.
- AgentScore.AppendScoreRecord: an agent or version named after a prototype member (`__proto__`, `constructor`, `toString`, an array's `push`, a string's `concat`) is treated as an own key, where JavaScript finds the inherited member first.
- AgentScore.NumberText: writes integers only; a non-integer or an integer of 10^21 or more in the `TypeError` message is written by the model rounded down to an integer in decimal, where JavaScript uses its shortest round-trip form or exponent notation.
- AgentScore.SetIndex: an index far past the end gives an array of that many `null`s; `JSON.stringify` would fail on the size instead.
- AgentList.Pad: measures text in characters, where `text.length` counts UTF-16 code units, so a name with a character beyond U+FFFF pads one space more than the source does.
- OutlinePersistence.SaveReplacesRows: the primary key on node ids across books and the edge uniqueness constraints are not modelled; only the NOT NULL columns make an insert fail.
- ItemList.ComputeVisibleRows: the walk is bounded by `fuel` levels, where the source recurses without a bound; `VisibleRowsComplete` shows the bound changes nothing once the outline's levels run out, and on a cyclic `childrenMap`, where the source never returns, the model stops at the bound.
- ItemList.Walk: bounded by the same `fuel` as `ComputeVisibleRows`.
- ItemList.VisibleRowsShape: states the shape of the rows for any `fuel`, the complete listing included.

## Findings

| source | as written | input that shows it | evidently intended | confidence | as-written member | corrected member |
|---|---|---|---|---|---|---|
| lib/features/outline/outline.ts:42-53 | a settled persist deletes its task id from `scheduledTaskIds` even when a newer persist of the same book is pending under that id | persist book "b" immediately, schedule "b" again before the first save settles, let the first settle, then `cancel()`: the second persist is still pending | drop the id only when no persist is pending under it, so `cancel()` reaches every pending persist | not executed | OutlinePersistence.CancelMissesPendingPersist | OutlinePersistence.CancelReachesPendingPersist |
| constants/db.ts:24-44 | the nodes table is created without `UNIQUE (bookId, id)` or a foreign key, and the edges table without foreign keys, all of which `isSchemaCompatible` (lib/features/outline/bootstrap.ts:30-48) requires | any database whose tables the init statements created, holding any saved books, nodes and edges: the next start drops all of them | create the tables with the clauses the check asks for, so a start keeps the saved rows | not executed | Bootstrap.InitDropsSavedRows | Bootstrap.CorrectedInitKeepsRows |
| components/outline/outline-item-list.tsx:142-158 | the index of a drop within the item's own parent is computed on the sibling list that still holds the dragged item | root items `a, b, c`; drag `a` one row down: the list shows `b, a, c`, `moveItemWithinParent("a", 2)` is called, and the store holds `b, c, a` | subtract one from an index beyond the item's current place, so the item lands next to the anchor row as shown | not executed | ItemList.DropDownOvershoots | ItemList.CorrectedDropWithinParent |
| scripts/check-test-sync.mjs:45-47 | `/^\+/` also matches the `+++ b/<path>` file header of `git diff -U0` | a change to `utils/export.ts` whose only hunk replaces `a` by `b`: counted as an export delta | count only added lines inside hunks | not executed | TestSync.HeaderCountsAsExport | TestSync.HunkExportIgnoresHeader |
