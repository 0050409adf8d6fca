# Task manager simulation: first-fit memory pool and tick scheduler

This project models the core of a small task-manager simulation written in C#. It is stated in Dafny and its properties are proved.

- **Memory pool.** A linear pool of `TotalMemory` units (1000 by default) is kept as an ordered list of `MemoryBlock` objects. The list always partitions `[0, TotalMemory)`.
  - `Allocate` scans the list in order and splits the first free block that is large enough.
  - `Free` finds a block by reference and marks it free in place. It never merges neighbours.
  - `Reset` starts over with one free block.
- **Task.** A `TaskItem` has a name, a memory size, a deadline (`MaxStartTime`) and a duration. It moves Waiting → Running → Finished, or Waiting → TimeOut.
- **Scheduler.** A `SimulationManager` holds a tick counter and four lists: queue, running, timeout and finished. `Step` does three things in order:
  1. It advances the tick.
  2. It ticks every running task. A task that finishes returns its block and moves to finished.
  3. It walks the queue in arrival order. A task whose deadline has passed times out. Any other task asks the allocator for a block and starts running if it gets one.

The model follows the source's own form:
- `MemoryBlock`, `MemoryManager`, `TaskItem` and `SimulationManager` are classes whose methods change their fields in place.
- Both loops of `Step` and the scan of `Allocate` are `while` loops with invariants.
- Each method is specified against a function on values, and the properties are proved as lemmas about those functions:
  - `SplitResult`, `AllocateResult` and `FreeResult` for the allocator;
  - `Judge`, `Admit`, `Retired`, `Admitted` and `Stepped` for the scheduler.
- Thrown exceptions are modelled as `Outcome.Fault` with the exception and its parameter name.
- `null` is modelled as a nullable reference or `Option.None`.

Modules, in dependency order:

| module | file | contents |
|---|---|---|
| `Common` | `common.dfy` | `ushort`/`int` ranges, `Option`, `Outcome`, the exceptions, `Math.Max` |
| `Lists` | `lists.dfy` | `List<T>.IndexOf`/`Remove`/`Insert` on sequences, filters, distinctness |
| `Tasks` | `task_item.dfy` | `TaskState`, constructor checks, the `TaskItem` class, lifecycle lemmas |
| `Blocks` | `memory_block.dfy` | `BlockView`, `SplitResult`, the `MemoryBlock` class |
| `Layout` | `layout.dfy` | the partition invariant (`Tiles`), free iff unowned, coverage lemmas |
| `Memory` | `memory_manager.dfy` | `FirstFit`, `AllocateResult`, `FreeResult`, the `MemoryManager` class |
| `Schedule` | `schedule.dfy` | the step rules on values (`Board`, `Admit`, `Retired`, `Stepped`) and the scheduler invariant `Coherent` |
| `Simulation` | `simulation_manager.dfy` | the `SimulationManager` class |

## Model

| member | source | states |
|---|---|---|
| Common.Max | Models/TaskItem.cs:116 | `Math.Max`: the result is one of the two arguments and no smaller than either. |
| Lists.IndexOf | Models/MemoryManager.cs:56 | `List<T>.IndexOf`: -1 exactly when the element is absent; otherwise an index holding it with no earlier occurrence. |
| Lists.Remove | Models/SimulationManager.cs:58 | `List<T>.Remove`: an absent element leaves the list as it is; a present one makes it one shorter. |
| Lists.RemoveOne | Models/SimulationManager.cs:71 | `Remove` takes out exactly one occurrence of the element and keeps every other element with its multiplicity. |
| Lists.Insert | Models/MemoryManager.cs:41 | `List<T>.Insert(k, x)`: the list grows by one, `x` sits at index `k`, the elements before `k` stay and those from `k` on move up by one. |
| Tasks.IsBlank | Models/TaskItem.cs:80 | `string.IsNullOrWhiteSpace` for a non-null string: the empty string and every string made only of white space (such as two spaces) are blank, and a string with any non-white-space character is not. |
| Tasks.TaskArgumentsError | Models/TaskItem.cs:80-90 | The constructor accepts exactly a non-blank name, a positive size, a positive deadline and a positive duration. Otherwise it throws the exception of the first check that fails, in source order: `ArgumentNull("name")` for a blank name, then `ArgumentOutOfRange("size")`, then `ArgumentOutOfRange("maxStartTick")`, then `ArgumentOutOfRange("durationTicks")`. |
| Tasks.TaskItem.New | Models/TaskItem.cs:78-97 | Bad arguments give the fault `TaskArgumentsError` names. Otherwise the result is a fresh Waiting task with the given fields, remaining duration equal to the duration, no start tick and no block. |
| Tasks.TaskItem.constructor | Models/TaskItem.cs:92-96 | For accepted arguments: the fields as given, Waiting, full remaining duration, no start tick, no block. |
| Tasks.TaskItem.StartTask | Models/TaskItem.cs:99-109 | Succeeds exactly when the state is Waiting and the block is non-null. It then records the tick and the block and sets Running. Otherwise the task is unchanged. The move is allowed by the lifecycle. |
| Tasks.TaskItem.Tick | Models/TaskItem.cs:111-125 | A task that is not Running is unchanged and not finished. A running task loses one unit of duration, floored at 0, and finishes exactly when it reaches 0, which is when it had at most 1 left. A duration within `[0, initial]` stays there. |
| Tasks.TaskItem.MarkTimeOut | Models/TaskItem.cs:127-133 | Waiting becomes TimeOut; every other state is left as it is. |
| Tasks.TerminalStatesAbsorb | Models/TaskItem.cs:99-133 | Along any sequence of moves the task methods allow, a task that is TimeOut or Finished stays in that state. |
| Tasks.NeverWaitingAgain | Models/TaskItem.cs:99-133 | Once a task has left Waiting, no later state in the sequence is Waiting. |
| Blocks.MemoryBlock.New | Models/MemoryBlock.cs:87-99 | A size of 0 throws `ArgumentOutOfRange("size")`. Otherwise the result is a fresh block with the given offset, size and free flag and no owner. |
| Blocks.MemoryBlock.constructor | Models/MemoryBlock.cs:87-99 | For a size of at least 1: the given offset, size and free flag, no owner. |
| Blocks.MemoryBlock.SetIsFree | Models/MemoryBlock.cs:55-70 | The flag takes the new value. The owner is cleared exactly when the block actually changes from occupied to free. Offset and size do not change. |
| Blocks.SplitResult | Models/MemoryBlock.cs:107-133 | The split of a block view. A block that is not free fails with `InvalidOperation`. A request larger than the block fails with `ArgumentOutOfRange("requestedSize")`. A request of 0 that is not an exact fit fails with `ArgumentOutOfRange("size")` from the piece's constructor. An exact fit gives one occupied piece at the same offset. Any other request gives an occupied piece of the requested size and a free, unowned remainder starting at the `ushort`-wrapped end of the first piece; the two sizes add up to the original. |
| Blocks.SplitTilesRange | Models/MemoryBlock.cs:124-132 | Inside the `ushort` range the wrap never happens: the pieces start at the block's offset, are contiguous, and end where the block ended. |
| Blocks.MemoryBlock.Split | Models/MemoryBlock.cs:107-133 | Does what `SplitResult` says. A failure leaves the block unchanged. An exact fit occupies and returns this block itself. A proper split returns two fresh, distinct blocks and leaves this block unchanged. |
| Layout.TilesTotal | Models/MemoryManager.cs:14-19 | The block sizes of a partition of the pool add up to its total. |
| Layout.TilesOrdered | Models/MemoryManager.cs:34-42 | In a partition, a later block starts at or after the end of every earlier block, so no two blocks overlap. |
| Layout.TilesCoverOnce | Models/MemoryManager.cs:14-19 | Every address of the pool lies in exactly one block. |
| Memory.FirstFit | Models/MemoryManager.cs:23-31 | The result is the lowest index of a free block at least as large as the request. No earlier block fits, and None means no block fits. |
| Memory.AllocateResult | Models/MemoryManager.cs:21-49 | When no block fits, the result is no block and nothing changes. Otherwise the first fit is replaced by its split: the blocks before it are unchanged, the occupied piece takes its index, and a remainder follows at the next index, before the untouched rest. |
| Memory.AllocateFaultOnlyForZero | Models/MemoryManager.cs:21-49 | On a partition, allocation throws exactly when the request is 0 and some block is free. |
| Memory.AllocatePreservesTiles | Models/MemoryManager.cs:32-42 | A successful allocation keeps the block list a gap-free, overlap-free partition of the pool, with every block free exactly when it has no owner. |
| Memory.AllocateAt | Models/MemoryManager.cs:29-42 | Allocation at first-fit index `i` is the split of block `i` put in its place. On success the new list is still a partition, free iff unowned. |
| Memory.ReplaceTiles | Models/MemoryManager.cs:36-41 | Replacing one block of a partition by contiguous pieces that cover the same range gives a partition. |
| Memory.FreeResult | Models/MemoryManager.cs:51-68 | Freeing succeeds exactly when the block is in the list and occupied. It then frees and unowns that block only, and every offset, size and other block is unchanged. Otherwise nothing changes. |
| Memory.FreePreservesTiles | Models/MemoryManager.cs:56-64 | Freeing keeps the partition and "free iff unowned", and merges nothing. Freeing the same block a second time returns false and changes nothing. |
| Memory.MemoryManager.constructor | Models/MemoryManager.cs:12-19 | A new manager has a pool of 1000 held by one fresh free block at offset 0, which is the whole of its frame of block objects, and its invariant holds. |
| Memory.MemoryManager.Allocate | Models/MemoryManager.cs:21-49 | Keeps the invariant and does what `AllocateResult` says. The returned block is occupied, owned by the task, has the requested size and sits at the first-fit index. On an exact fit the block-object list is unchanged. On a proper split the block at `i` is a new object, a new remainder follows it, the rest of the list keeps its objects, and the old block object itself is untouched. Blocks that were occupied before stay listed and unchanged. No other block becomes occupied. |
| Memory.MemoryManager.SplitAt | Models/MemoryManager.cs:32-45 | Once block `i` is the first fit, the list becomes the old list with block `i` replaced by the pieces of its split, both as views and as block objects: the same objects for an exact fit, two new objects for a proper split. A failed split changes nothing. |
| Memory.MemoryManager.ReplaceBySplit | Models/MemoryManager.cs:32-42 | The block list after `_blocks[i] = allocated` and, for a proper split, the `Insert` of the remainder: as above, with the rest of the object list kept, and the block objects stay distinct. |
| Memory.MemoryManager.InsertPieces | Models/MemoryManager.cs:40-41 | The list becomes the old list with position `i` replaced by the two new blocks, and it stays distinct. |
| Memory.MemoryManager.Free | Models/MemoryManager.cs:51-68 | A null block throws `ArgumentNull("block")`. Otherwise it returns true exactly when the block is listed and was occupied, and the block list changes as `FreeResult` says. The invariant holds and the list of objects is unchanged. |
| Memory.MemoryManager.GetBlocksSnapshot | Models/MemoryManager.cs:70-73 | Returns the block list itself, in address order: a partition whose sizes add up to the pool size. |
| Memory.MemoryManager.Reset | Models/MemoryManager.cs:75-83 | A size below 1 throws `ArgumentOutOfRange("totalMemory")` and changes nothing. Otherwise the pool gets the new size and exactly one fresh free block `[0, total)`, which becomes the whole frame of block objects, and the invariant holds. |
| Schedule.Judge | Models/SimulationManager.cs:69-93 | A waiting task times out exactly when the tick is past its deadline (so a deadline equal to the tick still gets an allocation attempt). It starts exactly when it is not late and some block fits. The block list it leaves is the allocator's result. |
| Schedule.AdmitAppend | Models/SimulationManager.cs:67-94 | FIFO: judging `q1 + q2` is judging `q1` and then `q2` against the blocks `q1` left, with the outcome lists concatenated in order. |
| Schedule.AdmitStep | Models/SimulationManager.cs:67-94 | Judging one more task of the queue appends exactly that task's outcome. A task that stays does not stop later tasks from being tried. |
| Schedule.AdmitTimedOut | Models/SimulationManager.cs:69-78 | The tasks that time out in a pass are exactly the queued tasks whose deadline is before the tick, in queue order, however memory stands. |
| Schedule.OverdueMembers | Models/SimulationManager.cs:69 | The overdue tasks are exactly the queued tasks past their deadline. |
| Schedule.AdmitPartition | Models/SimulationManager.cs:67-94 | Each queued task ends up in exactly one of waiting, started and timed out. |
| Schedule.AdmitOnTime | Models/SimulationManager.cs:69-78 | Every task left waiting has a deadline the tick has not passed. |
| Schedule.AdmitPreservesTiles | Models/SimulationManager.cs:80-93 | The admission pass keeps the block list a partition of the pool, free iff unowned. |
| Schedule.ReleaseOwners | Models/SimulationManager.cs:52-56 | Every block owned by a finishing task becomes free and unowned. All other blocks, and every offset and size, are unchanged. |
| Schedule.ReleasePreservesTiles | Models/SimulationManager.cs:52-56 | Releasing keeps the partition and "free iff unowned". |
| Schedule.ReleaseTwice | Models/SimulationManager.cs:47-65 | Releasing the owners one batch after another, as the loop does, equals releasing them all at once. |
| Schedule.HeadRoutes | Models/SimulationManager.cs:69-93 | `Head`, the admission of one task: the task goes to exactly one of timed out, started and waiting. It times out exactly when late, starts exactly when on time and a block fits, and the block list is unchanged unless it starts. |
| Schedule.Admit | Models/SimulationManager.cs:67-94 | The admission pass over a queue places as many tasks in waiting, started and timed out together as the queue holds. |
| Schedule.AdmitIdle | Models/SimulationManager.cs:67-94 | An admission pass that starts no task leaves the block list as it was. |
| Schedule.RetiredLists | Models/SimulationManager.cs:47-65 | `Retired`, the value form of the retire pass: the queue and the timed-out list are untouched, finished only grows at its end, and running and finished together hold as many tasks as before. |
| Schedule.AdmittedLists | Models/SimulationManager.cs:67-94 | `Admitted`, the value form of the admission pass: finished is untouched, running and timed out only grow at their ends, the tasks appended to timed out are exactly the overdue queued tasks in queue order, and no task is lost. |
| Schedule.SteppedLists | Models/SimulationManager.cs:43-97 | `Stepped`, the value form of `Step`: finished and timed out only grow at their ends, the tasks that time out are exactly the overdue waiting tasks in queue order, and the four lists together hold as many tasks as before. |
| Schedule.AdmitTurnLists | Models/SimulationManager.cs:69-93 | `AdmitTurnBoard`, one admission turn: the task moves to timed out exactly when late and to running exactly when on time and a block fits; otherwise nothing changes. Finished is untouched and no task is lost. |
| Schedule.RetireTurnLists | Models/SimulationManager.cs:49-64 | `RetireTurnBoard`, one retire turn: the task is appended to finished exactly when it is done; the queue and timed out are untouched and no task is lost. |
| Schedule.StepKeepsTasks | Models/SimulationManager.cs:43-97 | A step neither loses nor duplicates a task: the four lists together hold the same multiset of tasks before and after. |
| Schedule.SameTickReuse | Models/SimulationManager.cs:47-94 | Suppose a block owned by a task that finishes in this step is large enough for the first waiting task, and that task is not past its deadline. Then the same step starts it. |
| Schedule.AdmitTurnStep | Models/SimulationManager.cs:67-94 | One turn of the admission loop turns the board after `k` tasks into the board after `k + 1`. The next snapshot task is still in the queue. |
| Schedule.RetireTurnStep | Models/SimulationManager.cs:47-65 | One turn of the retire loop turns the board after `k` tasks into the board after `k + 1`. The next snapshot task is still running. |
| Simulation.SimulationManager.ListsDisjoint | Models/SimulationManager.cs:14-17 | One-to-one membership: no task occurs twice in the four lists taken together. |
| Simulation.SimulationManager.Settle | Models/SimulationManager.cs:81-93 | A task that is back in order in its list restores the full scheduler invariant. |
| Simulation.SimulationManager.constructor | Models/SimulationManager.cs:23-26 | Tick 0, four empty lists, the given allocator, and the invariant holds. |
| Simulation.SimulationManager.GetQueueSnapshot | Models/SimulationManager.cs:28 | The queue in arrival order. Each task in it is Waiting, holds nothing and is not past its deadline. |
| Simulation.SimulationManager.GetRunningSnapshot | Models/SimulationManager.cs:29 | The running list. Each task in it is Running and holds an occupied block it owns. |
| Simulation.SimulationManager.GetTimedOutSnapshot | Models/SimulationManager.cs:30 | The timed-out list. Each task in it is TimeOut and holds nothing. |
| Simulation.SimulationManager.GetFinishedSnapshot | Models/SimulationManager.cs:31 | The finished list. Each task in it is Finished and holds nothing. |
| Simulation.SimulationManager.EnQueue | Models/SimulationManager.cs:33-41 | Accepts exactly a non-null task whose deadline is after the current tick, making it Waiting at the end of the queue; of the task only its state changes. The write of Waiting is a move the task lifecycle allows exactly when the task was already Waiting. Otherwise nothing changes. The invariant holds. |
| Simulation.SimulationManager.RetireOne | Models/SimulationManager.cs:48-64 | Ticks one running task, which loses one unit of duration. It finishes exactly when it had at most 1 left. It then leaves running for the end of finished and releases its block, as `RetireTurnBoard` says. The durations of other tasks are unchanged. |
| Simulation.SimulationManager.TickRunning | Models/SimulationManager.cs:49 | `Tick` on a running task, against the scheduler invariant. |
| Simulation.SimulationManager.Release | Models/SimulationManager.cs:52-56 | The finished task's block is freed and the task lets go of it: the block views are `ReleaseOwners` of the old views for that task, and it owns no block. |
| Simulation.SimulationManager.FreeHeld | Models/SimulationManager.cs:52-56 | `Free` of the held block, then the task's reference is cleared. That block is free and unowned, and every other block is unchanged. |
| Simulation.SimulationManager.Finish | Models/SimulationManager.cs:58-61 | The task is removed from running and appended to finished. The invariant holds again. |
| Simulation.SimulationManager.AdmitOne | Models/SimulationManager.cs:69-93 | One turn of the admission loop: the board changes as `AdmitTurnBoard` says, and a started task records the current tick. |
| Simulation.SimulationManager.TimeOutTask | Models/SimulationManager.cs:69-78 | The task is removed from the queue and appended to timeout, in state TimeOut; Waiting to TimeOut is a move the task lifecycle allows. |
| Simulation.SimulationManager.TryStart | Models/SimulationManager.cs:80-93 | When a block fits, the task leaves the queue for the end of running, with the allocator's new block list and the current tick recorded. When none fits, the lists and blocks are unchanged. |
| Simulation.SimulationManager.Reserve | Models/SimulationManager.cs:80 | The allocator call: a block exactly when the allocation places one, and then the allocator's block list. |
| Simulation.SimulationManager.AllocationKeeps | Models/SimulationManager.cs:80 | After an allocation for a waiting task, the only newly occupied block is the one it was given. |
| Simulation.SimulationManager.Place | Models/SimulationManager.cs:81-93 | Starts the task on the block it was given, or leaves it in place when there was none. |
| Simulation.SimulationManager.Start | Models/SimulationManager.cs:81-93 | Records the tick and block, sets Running, and moves the task from the queue to the end of running. |
| Simulation.SimulationManager.Occupy | Models/SimulationManager.cs:83-88 | The start tick, the block and the Running state are set; Waiting to Running is a move the task lifecycle allows. |
| Simulation.SimulationManager.MoveToRunning | Models/SimulationManager.cs:86-90 | The task leaves the queue and is appended to running. |
| Simulation.SimulationManager.RetireTurn | Models/SimulationManager.cs:47-65 | One turn over the running snapshot extends the retired prefix by one task. |
| Simulation.SimulationManager.RetireFinished | Models/SimulationManager.cs:47-65 | The retire loop. Every running task loses one tick. The finishing ones leave running, in list order, for the end of finished, and free their blocks; the others keep their order. That is `Retired`. |
| Simulation.SimulationManager.QueueUnstarted | Models/SimulationManager.cs:67-94 | Before the admission pass every queued task is Waiting, so each one's start tick agrees with `StartsRecorded`. |
| Simulation.SimulationManager.AdmitTurn | Models/SimulationManager.cs:67-94 | One turn over the queue snapshot extends the admitted prefix by one task. The judged task was Waiting; if it is now Running its start tick is the current tick, and otherwise its start tick is as before. Every task of the snapshot still has the start tick `StartsRecorded` allows. |
| Simulation.SimulationManager.AdmitQueue | Models/SimulationManager.cs:67-94 | The admission loop gives exactly `Admitted`: the queue judged in order against the blocks the earlier tasks left. Every task of the queue that started has the current tick as its start tick, and every other task keeps its start tick. |
| Simulation.SimulationManager.AdmitWaiting | Models/SimulationManager.cs:67-94 | As `AdmitQueue`. Afterwards no waiting task is past its deadline, and the durations of the tasks the retire pass ticked are untouched. The start ticks are as in `AdmitQueue`. Every block object the memory manager gained was newly allocated. |
| Simulation.SimulationManager.TickAndRetire | Models/SimulationManager.cs:45-65 | The tick goes up by exactly one, then the retire loop runs: the result is `Retired`, and every running task lost one tick of work. |
| Simulation.SimulationManager.Passes | Models/SimulationManager.cs:45-94 | The tick goes up by one, then retire, then admit against the blocks the retired tasks gave back. Together that is `Stepped`. The tasks that started record the new tick, and the other waiting tasks keep their start ticks. Every block object the memory manager gained was newly allocated. |
| Simulation.SimulationManager.Step | Models/SimulationManager.cs:43-97 | The tick goes up by exactly one. The lists and blocks become `Stepped` of the old ones. Every task running at the start loses one tick of work. Every task waiting at the start, including those the step starts, keeps its remaining duration, so admitted tasks are not ticked in the step that admits them. Of the tasks waiting at the start, those now Running started at the new tick, and the others keep their start ticks. The invariant holds. Every block object the memory manager gained in the step was newly allocated, so a caller can step the scheduler again. |

Some invariants are kept through every method rather than stated by one lemma:
- **Partition and ownership.** `MemoryManager.Valid` requires three things: the block objects are distinct, their views tile `[0, TotalMemory)`, and each block is free exactly when it has no owner.
- **Scheduler.** `Schedule.Coherent` adds:
  - each list holds each task once and only in that list's state;
  - a running task has work left and holds an occupied block that it owns;
  - a waiting, timed-out or finished task holds nothing;
  - every occupied block is the block of a running task.

## Left out

- Events and `INotifyPropertyChanged`: `MemoryChanged`, `TaskStarted`, `TaskFinished`, `TaskTimedOut`, `TickAdvanced` and the property-changed notifications. They are observer plumbing; no core logic reads them.
- Block `Id` (a `Guid`): identity is object identity.
- Display strings (`BlockStatus`, `OwnerName`, `ToString`) and the unused `_tickInterval`.
- The `Owner` and `Offset`/`Size` setters are plain field assignments in the model. Their equality guards only suppress events.
- The `MemoryBlock` constructor's `offset < 0` check is not modelled: a `ushort` offset cannot be negative.
- `IMemoryManager`: the scheduler uses `MemoryManager` directly. The interface holds signatures only.
- `CurrentTick` is an unbounded integer. The model does not capture the 32-bit wrap after 2^31 - 1 steps.
- `StartTick` holds an unbounded integer for the same reason.
- `Memory.MemoryManager.GetBlocksSnapshot`: returns the current block sequence and claims nothing about the live read-only view the source hands out. In the source, later changes to the blocks show through that view. The method's name, and the `Snapshot` property the memory-changed event carries (Models/MemoryManager.cs:102), suggest a point-in-time copy, but `AsReadOnly()` (Models/MemoryManager.cs:72) returns a live view. The model follows the code and claims neither.
- `Tasks.TaskArgumentsError`: a task name is a non-null string. A null name, which the source rejects with the same exception as a blank one, is not representable.
- `Simulation.SimulationManager.EnQueue`: requires a task that is in no list, holds no block and has work left. The source enqueues any task, including one already listed, and re-marks it Waiting. The invariants do not hold for such a re-enqueue.
- `Simulation.SimulationManager.EnQueue`: the lifecycle lemmas `TerminalStatesAbsorb` and `NeverWaitingAgain` cover the `TaskItem` methods and the scheduler's `TimeOutTask` and `Occupy`, not `EnQueue`. The source re-marks any accepted task Waiting, so a task started outside the scheduler and then enqueued moves back to Waiting; the contract states exactly when the write is a lifecycle move.
- `Simulation.SimulationManager.constructor`: requires an allocator in which every block is free. The composition root passes a fresh `MemoryManager`. A pool with blocks owned by tasks the scheduler does not know would break the ownership invariant.
- `Simulation.SimulationManager.Finish`: leaves out the source's `task.State = TaskState.Finished` after the move. `Tick` has already set that state and the setter ignores an unchanged value.
- `Simulation.SimulationManager.Start`: the source interleaves the start-tick, block and state writes with the queue removal and the running append. The model does the field writes, then the two list operations. Nothing observes the order in between.
- `Memory.MemoryManager.Reset`: not called by the scheduler. A reset while tasks hold blocks would leave them holding blocks that are no longer listed. The model states `Reset` on its own and proves nothing about such a call.
- The allocator's `repr` set is a ghost frame: it is every block object the manager has made since its construction or its last reset.
