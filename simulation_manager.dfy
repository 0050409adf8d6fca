/**
 * The tick scheduler as an object: four lists of tasks and the allocator,
 * changed in place by `EnQueue` and `Step` as the rules of `Schedule` say.
 */
module Simulation {
  import opened Common
  import opened Lists
  import opened Tasks
  import opened Blocks
  import opened Memory
  import opened Schedule

  class SimulationManager {
    var currentTick: int
    var queue: seq<TaskItem>
    var running: seq<TaskItem>
    var timeout: seq<TaskItem>
    var finished: seq<TaskItem>
    const memory: MemoryManager

    /**
     * The scheduler's invariant, with at most one task `exempt` that is part
     * way through moving between lists. It is `Schedule.Coherent` applied to
     * this scheduler's fields and adds nothing to it.
     */
    ghost predicate ConsistentBut(exempt: TaskItem?)
      reads this`queue, this`running, this`timeout, this`finished, memory, memory.blocks, queue, running, timeout, finished
    {
      Coherent(memory, queue, running, timeout, finished, exempt)
    }

    /** Waiting task `t` got `block` (or null) from the allocator and is about to be placed: `Schedule.Ready` applied to this scheduler's fields. */
    ghost predicate ReadyToPlace(t: TaskItem, block: MemoryBlock?)
      reads this`queue, this`running, this`timeout, this`finished, memory, memory.blocks, queue, running, timeout, finished, t
    {
      Ready(memory, queue, running, timeout, finished, t, block)
    }

    /** The scheduler's invariant, with no exemption: `ConsistentBut(null)`. */
    ghost predicate Consistent()
      reads this`queue, this`running, this`timeout, this`finished, memory, memory.blocks, queue, running, timeout, finished
    {
      ConsistentBut(null)
    }

    /** Once the exempt task is back in order in whichever list holds it, the full invariant holds. */
    lemma Settle(t: TaskItem)
      requires ConsistentBut(t)
      requires t in queue ==> Waits(t)
      requires t in running ==> Runs(memory, t)
      requires forall b {:trigger b in memory.blocks} :: b in memory.blocks && !b.isFree && b.owner == t ==> t in running && t.allocBlock == b
      ensures Consistent()
    {
    }

    /** Before the admission pass no waiting task is Running, so each has its start tick as recorded in `st0`. */
    lemma QueueUnstarted(st0: seq<Option<int>>, tick: int)
      requires Consistent() && st0 == StartTicks(queue)
      ensures StartsRecorded(queue, st0, tick)
    {
      forall j | 0 <= j < |queue| ensures StartRecorded(queue[j].state, queue[j].startTick, st0[j], tick) {
        assert Waits(queue[j]);
      }
    }

    /** Between steps no waiting task is past its deadline. */
    ghost predicate Valid()
      reads this, memory, memory.blocks, queue, running, timeout, finished
    {
      && Consistent()
      && (forall t :: t in queue ==> currentTick <= t.maxStartTime)
    }

    /** One-to-one membership: a task is in at most one list, and at most once. */
    lemma ListsDisjoint()
      requires Consistent()
      ensures Distinct(queue + running + timeout + finished)
    {
      var all := queue + running + timeout + finished;
      var nq, nr, nt := |queue|, |queue| + |running|, |queue| + |running| + |timeout|;
      assert forall k :: 0 <= k < nq ==> all[k] == queue[k];
      assert forall k :: nq <= k < nr ==> all[k] == running[k - nq];
      assert forall k :: nr <= k < nt ==> all[k] == timeout[k - nr];
      assert forall k :: nt <= k < |all| ==> all[k] == finished[k - nt];
      forall i, j | 0 <= i < j < |all| ensures all[i] != all[j] {
        if j < nq || (nq <= i && j < nr) || (nr <= i && j < nt) || nt <= i {
        } else {
          if i < nq { assert all[i] in queue; } else if i < nr { assert all[i] in running; } else { assert all[i] in timeout; }
          if j < nr { assert all[j] in running; } else if j < nt { assert all[j] in timeout; } else { assert all[j] in finished; }
        }
      }
    }

    /** `new SimulationManager(memoryManager)`: tick 0 and four empty lists over an allocator with nothing allocated. */
    constructor (memoryManager: MemoryManager)
      requires memoryManager.Valid()
      requires forall b {:trigger b in memoryManager.blocks} :: b in memoryManager.blocks ==> b.isFree
      ensures Valid() && memory == memoryManager && currentTick == 0
      ensures queue == [] && running == [] && timeout == [] && finished == []
    {
      memory := memoryManager;
      currentTick := 0;
      queue := [];
      running := [];
      timeout := [];
      finished := [];
    }

    /** `GetQueueSnapshot()`: the waiting tasks in arrival order, none of them past its deadline. */
    method GetQueueSnapshot() returns (s: seq<TaskItem>)
      requires Valid()
      ensures s == queue
      ensures forall t :: t in s ==> t.state == Waiting && t.allocBlock == null && currentTick <= t.maxStartTime
    {
      s := queue;
    }

    /** `GetRunningSnapshot()`: the running tasks, each holding an occupied block it owns. */
    method GetRunningSnapshot() returns (s: seq<TaskItem>)
      requires Valid()
      ensures s == running
      ensures forall t :: t in s ==> t.state == Running && Runs(memory, t)
    {
      s := running;
    }

    /** `GetTimedOutSnapshot()`: the timed-out tasks in the order they timed out. */
    method GetTimedOutSnapshot() returns (s: seq<TaskItem>)
      requires Valid()
      ensures s == timeout
      ensures forall t :: t in s ==> t.state == TimeOut && t.allocBlock == null
    {
      s := timeout;
    }

    /** `GetFinishedSnapshot()`: the finished tasks in the order they finished. */
    method GetFinishedSnapshot() returns (s: seq<TaskItem>)
      requires Valid()
      ensures s == finished
      ensures forall t :: t in s ==> t.state == Finished && t.allocBlock == null
    {
      s := finished;
    }

    /**
     * `EnQueue(task)`: refuses null and a task whose deadline is not after the
     * current tick; otherwise the task becomes Waiting at the end of the queue.
     */
    method EnQueue(task: TaskItem?) returns (ok: bool)
      requires Valid()
      requires task != null ==>
        && task !in queue && task !in running && task !in timeout && task !in finished
        && task.allocBlock == null && task.remainingDuration >= 1
      modifies this`queue, (if task == null then {} else {task})`state
      ensures Valid()
      ensures ok == (task != null && currentTick < task.maxStartTime)
      ensures ok ==> queue == old(queue) + [task] && task.state == Waiting
      ensures ok ==> (CanMove(old(task.state), task.state) <==> old(task.state) == Waiting)
      ensures !ok ==> queue == old(queue) && (task != null ==> unchanged(task))
    {
      if task == null || task.maxStartTime <= currentTick {
        return false;
      }
      task.state := Waiting;
      queue := queue + [task];
      return true;
    }

    /**
     * One turn of the retire loop: ticks running task `t`; if that finishes
     * it, frees its block, drops its reference to the block and moves it
     * from running to the end of finished.
     */
    method RetireOne(t: TaskItem, ghost others: seq<TaskItem>) returns (done: bool)
      requires Consistent() && t in running
      modifies this`running, this`finished, t`remainingDuration, t`state, t`allocBlock, memory`views, memory.blocks`isFree, memory.blocks`owner
      ensures Consistent()
      ensures done == (old(t.remainingDuration) <= 1)
      ensures t.remainingDuration == old(t.remainingDuration) - 1
      ensures Observed() == RetireTurnBoard(old(Observed()), t, done)
      ensures forall i :: 0 <= i < |others| && others[i] != t ==> others[i].remainingDuration == old(others[i].remainingDuration)
    {
      done := TickRunning(t);
      if done {
        Release(t);
        Finish(t);
      }
    }

    /**
     * `Tick` on a running task, in place: afterwards the invariant holds for
     * every task but `t`, which still holds its block and is finished when
     * `done` and running otherwise.
     */
    method TickRunning(t: TaskItem) returns (done: bool)
      requires Consistent() && t in running
      modifies t`remainingDuration, t`state
      ensures ConsistentBut(t) && Holds(memory, t) && t !in queue && t !in finished
      ensures forall b {:trigger b in memory.blocks} :: b in memory.blocks && !b.isFree && b.owner == t ==> b == t.allocBlock
      ensures done == (old(t.remainingDuration) <= 1)
      ensures t.remainingDuration == old(t.remainingDuration) - 1
      ensures if done then t.state == Finished else Consistent()
    {
      assert Runs(memory, t) && t !in finished && t !in queue && t !in timeout;
      done := t.Tick();
      assert ConsistentBut(t) && Holds(memory, t) by {
        assert memory.Valid() by {
          assert old(memory.Valid());
        }
        forall u | u in running && u != t ensures Runs(memory, u) {
          assert old(Runs(memory, u));
        }
        forall u | u in queue ensures Waits(u) {
          assert old(Waits(u));
        }
        forall u | u in timeout ensures Rests(u, TimeOut) {
          assert old(Rests(u, TimeOut));
        }
        forall u | u in finished ensures Rests(u, Finished) {
          assert old(Rests(u, Finished));
        }
        forall b {:trigger b in memory.blocks} | b in memory.blocks && !b.isFree ensures b.owner in running && b.owner.allocBlock == b {
          assert old(b.owner.allocBlock) == b;
        }
      }
      assert forall b {:trigger b in memory.blocks} :: b in memory.blocks && !b.isFree && b.owner == t ==> b == t.allocBlock;
      if !done {
        Settle(t);
      }
    }

    /** Frees the block of task `t`, which the tick has just finished, and drops its reference to it. */
    method Release(t: TaskItem)
      requires ConsistentBut(t) && t in running && t !in queue && Holds(memory, t)
      requires forall b {:trigger b in memory.blocks} :: b in memory.blocks && !b.isFree && b.owner == t ==> b == t.allocBlock
      modifies t`allocBlock, memory`views, memory.blocks`isFree, memory.blocks`owner
      ensures ConsistentBut(t) && t.allocBlock == null
      ensures forall b {:trigger b in memory.blocks} :: b in memory.blocks && !b.isFree ==> b.owner != t
      ensures memory.views == ReleaseOwners(old(memory.views), {t})
    {
      ghost var vs := memory.views;
      ghost var md := t.allocBlock as MemoryBlock;
      FreeHeld(t);
      forall u | u in running && u != t ensures Runs(memory, u) {
        assert old(Runs(memory, u));
        assert old(u.allocBlock) == u.allocBlock && u.allocBlock != md;
      }
      forall u | u in queue ensures Waits(u) {
        assert u != t && old(Waits(u));
      }
      forall u | u in timeout ensures Rests(u, TimeOut) {
        assert u != t && old(Rests(u, TimeOut));
      }
      forall u | u in finished ensures Rests(u, Finished) {
        assert u != t && old(Rests(u, Finished));
      }
      forall b {:trigger b in memory.blocks} | b in memory.blocks && !b.isFree ensures b.owner != t && b.owner in running && b.owner.allocBlock == b {
        assert b != md;
        assert old(b.owner) == b.owner && !old(b.isFree);
        var j := IndexOf(memory.blocks, b);
        assert vs[j].owner == b.owner;
      }
    }

    /** The block `t` holds is freed through the allocator, and `t` lets go of it. */
    method FreeHeld(t: TaskItem)
      requires memory.Valid() && Holds(memory, t)
      requires forall b {:trigger b in memory.blocks} :: b in memory.blocks && !b.isFree && b.owner == t ==> b == t.allocBlock
      modifies t`allocBlock, memory`views, memory.blocks`isFree, memory.blocks`owner
      ensures memory.Valid() && t.allocBlock == null && memory.blocks == old(memory.blocks)
      ensures memory.views == ReleaseOwners(old(memory.views), {t})
      ensures var md := old(t.allocBlock) as MemoryBlock; md.isFree && md.owner == null
      ensures forall b {:trigger b in memory.blocks} :: b in memory.blocks && b != old(t.allocBlock) ==> b.isFree == old(b.isFree) && b.owner == old(b.owner)
    {
      ghost var vs := memory.views;
      var md := t.allocBlock as MemoryBlock;
      if t.allocBlock is MemoryBlock {
        var k := IndexOf(memory.blocks, md);
        forall j | 0 <= j < |vs| ensures (vs[j].owner == t <==> j == k) {
          if vs[j].owner == t {
            assert memory.blocks[j].owner == t && !memory.blocks[j].isFree && memory.blocks[j] in memory.blocks;
          }
        }
        var freed := memory.Free(md);
        assert memory.views == ReleaseOwners(vs, {t});
        forall b {:trigger b in memory.blocks} | b in memory.blocks && b != md ensures b.isFree == old(b.isFree) && b.owner == old(b.owner) {
          var j := IndexOf(memory.blocks, b);
          assert memory.views[j] == vs[j];
        }
        t.allocBlock := null;
      }
    }

    /** Moves task `t`, finished and holding nothing, from running to the end of finished. */
    method Finish(t: TaskItem)
      requires ConsistentBut(t) && t in running && t !in queue && t !in finished && Rests(t, Finished)
      requires forall b {:trigger b in memory.blocks} :: b in memory.blocks && !b.isFree ==> b.owner != t
      modifies this`running, this`finished
      ensures Consistent()
      ensures running == Remove(old(running), t) && finished == old(finished) + [t]
    {
      RemoveDistinct(running, t);
      running := Remove(running, t);
      finished := finished + [t];
      // The source sets the state to Finished here; `Tick` already has, and the setter ignores an unchanged value.
      forall u | u in running ensures Runs(memory, u) {
        assert u in old(running) && u != t;
      }
      forall u | u in finished ensures Rests(u, Finished) {
        if u != t {
          assert u in old(finished);
        }
      }
      forall b {:trigger b in memory.blocks} | b in memory.blocks && !b.isFree ensures b.owner in running && b.owner.allocBlock == b {
        assert b.owner in old(running) && b.owner != t;
      }
    }

    /**
     * One turn of the admission loop for waiting task `t`: past its deadline
     * it times out; otherwise it asks the allocator for a block of its size
     * and starts running if it gets one, or keeps its place if it does not.
     */
    method AdmitOne(t: TaskItem)
      requires Consistent() && t in queue
      modifies this`queue, this`running, this`timeout, t`startTick, t`allocBlock, t`state
      modifies memory`blocks, memory`views, memory`repr, memory.repr`isFree, memory.repr`owner
      ensures Consistent()
      ensures fresh(memory.repr - old(memory.repr))
      ensures Observed() == AdmitTurnBoard(old(Observed()), currentTick, t)
      ensures StartRecorded(t.state, t.startTick, old(t.startTick), currentTick)
    {
      assert Waits(t) && t !in running && t !in timeout && t !in finished;
      if currentTick > t.maxStartTime {
        TimeOutTask(t);
        return;
      }
      TryStart(t);
    }

    /**
     * The allocation request of waiting task `t`, whose deadline the tick has
     * not passed: it starts running on the first block that fits, if any.
     */
    method TryStart(t: TaskItem)
      requires Consistent() && t in queue && t !in running
      modifies this`queue, this`running, t`startTick, t`allocBlock, t`state
      modifies memory`blocks, memory`views, memory`repr, memory.repr`isFree, memory.repr`owner
      ensures Consistent()
      ensures fresh(memory.repr - old(memory.repr))
      ensures timeout == old(timeout)
      ensures FirstFit(old(memory.views), t.sizeBytes).Some? ==>
        && queue == Remove(old(queue), t) && running == old(running) + [t]
        && Ok(Placed(FirstFit(old(memory.views), t.sizeBytes).value, memory.views)) == AllocateResult(old(memory.views), t.sizeBytes, t)
        && t.startTick == Some(currentTick) && t.state == Running
      ensures FirstFit(old(memory.views), t.sizeBytes).None? ==>
        && queue == old(queue) && running == old(running) && memory.views == old(memory.views)
        && t.startTick == old(t.startTick) && t.state == old(t.state)
    {
      assert Waits(t) && t !in timeout && t !in finished;
      AllocateFaultOnlyForZero(memory.views, memory.totalMemory, t.sizeBytes, t);
      var block := Reserve(t);
      Place(t, block);
    }

    /** Starts `t` on the block `Reserve` found, or leaves it waiting when there was none. */
    method Place(t: TaskItem, block: MemoryBlock?)
      requires ReadyToPlace(t, block)
      modifies this`queue, this`running, t`startTick, t`allocBlock, t`state
      ensures Consistent()
      ensures block != null ==> queue == Remove(old(queue), t) && running == old(running) + [t] && t.startTick == Some(currentTick) && t.state == Running
      ensures block == null ==> queue == old(queue) && running == old(running) && t.startTick == old(t.startTick) && t.state == old(t.state)
    {
      if block != null {
        Start(t, block);
      } else {
        Settle(t);
      }
    }

    /** Moves waiting task `t` from the queue to the end of the timed-out list. */
    method TimeOutTask(t: TaskItem)
      requires Consistent() && t in queue && t !in timeout
      modifies this`queue, this`timeout, t`state
      ensures Consistent()
      ensures queue == Remove(old(queue), t) && timeout == old(timeout) + [t] && t.state == TimeOut
      ensures CanMove(old(t.state), t.state)
    {
      assert Waits(t);
      RemoveDistinct(queue, t);
      queue := Remove(queue, t);
      timeout := timeout + [t];
      t.state := TimeOut;
      forall u | u in queue ensures Waits(u) {
        assert u in old(queue) && u != t;
      }
      forall u | u in timeout ensures Rests(u, TimeOut) {
        if u != t {
          assert u in old(timeout);
        }
      }
    }

    /**
     * The allocation request of waiting task `t`. A block it gets is occupied
     * and owned by `t`, which therefore stands exempt from the invariant until
     * it is moved to running.
     */
    method Reserve(t: TaskItem) returns (block: MemoryBlock?)
      requires Consistent() && t in queue && t !in running
      requires AllocateResult(memory.views, t.sizeBytes, t).Ok?
      modifies memory`blocks, memory`views, memory`repr, memory.repr`isFree, memory.repr`owner
      ensures ReadyToPlace(t, block)
      ensures var a := AllocateResult(old(memory.views), t.sizeBytes, t).value;
        && (block != null <==> a.Placed?)
        && (a.Placed? ==> memory.views == a.views)
        && (a.NoFit? ==> memory.views == old(memory.views))
      ensures fresh(memory.repr - old(memory.repr))
    {
      ghost var a := AllocateResult(memory.views, t.sizeBytes, t).value;
      var r := memory.Allocate(t.sizeBytes, t);
      block := r.value;
      assert block != null <==> a.Placed?;
      AllocationKeeps(t, block);
    }

    /**
     * What an allocation for waiting task `t` leaves of the invariant: the
     * blocks occupied before are still listed and unchanged, and the only
     * block newly occupied is `block`, owned by `t`.
     */
    twostate lemma AllocationKeeps(t: TaskItem, new block: MemoryBlock?)
      requires old(Consistent()) && old(t in queue) && t !in running
      requires unchanged(this) && unchanged(t) && unchanged(queue) && unchanged(running) && unchanged(timeout) && unchanged(finished)
      requires memory.Valid()
      requires forall b {:trigger b in old(memory.blocks)} :: b in old(memory.blocks) && !old(b.isFree) ==> b in memory.blocks && unchanged(b)
      requires forall b {:trigger b in memory.blocks} :: b in memory.blocks && !b.isFree ==> (b in old(memory.blocks) && !old(b.isFree)) || b == block
      requires block != null ==> block in memory.blocks && !block.isFree && block.owner == t
      ensures ReadyToPlace(t, block)
    {
      assert old(Waits(t));
      forall u | u in running ensures Runs(memory, u) {
        assert old(Runs(memory, u));
      }
      forall b {:trigger b in memory.blocks} | b in memory.blocks && !b.isFree
        ensures (block != null && b == block) || (b.owner in running && b.owner.allocBlock == b && b.owner != t)
      {
        if b != block {
          assert b in old(memory.blocks) && !old(b.isFree);
        }
      }
    }

    /**
     * Starts waiting task `t` on `block`, which it has just been given, and
     * moves it from the queue to the end of running. The source interleaves
     * the field writes with the two list operations; nothing observes the
     * order in between.
     */
    method Start(t: TaskItem, block: MemoryBlock)
      requires ConsistentBut(t) && t in queue && Waits(t) && t !in running && t !in timeout && t !in finished
      requires block in memory.blocks && !block.isFree && block.owner == t
      requires forall b {:trigger b in memory.blocks} :: b in memory.blocks && !b.isFree && b.owner == t ==> b == block
      modifies this`queue, this`running, t`startTick, t`allocBlock, t`state
      ensures Consistent()
      ensures queue == Remove(old(queue), t) && running == old(running) + [t]
      ensures t.startTick == Some(currentTick) && t.allocBlock == block && t.state == Running
    {
      Occupy(t, block);
      MoveToRunning(t);
    }

    /** The field writes of starting `t`: its start tick, its block and the running state. */
    method Occupy(t: TaskItem, block: MemoryBlock)
      requires ConsistentBut(t) && t in queue && Waits(t) && t !in running && t !in timeout && t !in finished
      requires block in memory.blocks && !block.isFree && block.owner == t
      modifies t`startTick, t`allocBlock, t`state
      ensures ConsistentBut(t) && Runs(memory, t)
      ensures t.startTick == Some(currentTick) && t.allocBlock == block && t.state == Running
      ensures CanMove(old(t.state), t.state)
    {
      t.startTick := Some(currentTick);
      t.allocBlock := block;
      t.state := Running;
      forall u | u in queue && u != t ensures Waits(u) {
        assert old(Waits(u));
      }
      forall u | u in running ensures Runs(memory, u) {
        assert old(Runs(memory, u));
      }
      forall u | u in timeout ensures Rests(u, TimeOut) {
        assert old(Rests(u, TimeOut));
      }
      forall u | u in finished ensures Rests(u, Finished) {
        assert old(Rests(u, Finished));
      }
      forall b {:trigger b in memory.blocks} | b in memory.blocks && !b.isFree && b.owner != t ensures b.owner in running && b.owner.allocBlock == b {
        assert old(b.owner.allocBlock) == b;
      }
    }

    /** The list operations of starting `t`: out of the queue, onto the end of running. */
    method MoveToRunning(t: TaskItem)
      requires ConsistentBut(t) && t in queue && Runs(memory, t) && t !in running
      requires forall b {:trigger b in memory.blocks} :: b in memory.blocks && !b.isFree && b.owner == t ==> b == t.allocBlock
      modifies this`queue, this`running
      ensures Consistent()
      ensures queue == Remove(old(queue), t) && running == old(running) + [t]
    {
      RemoveDistinct(queue, t);
      queue := Remove(queue, t);
      running := running + [t];
      forall u | u in queue ensures Waits(u) {
        assert u in old(queue) && u != t;
      }
      forall u | u in running ensures Runs(memory, u) {
        if u != t {
          assert u in old(running);
        }
      }
      forall b {:trigger b in memory.blocks} | b in memory.blocks && !b.isFree ensures b.owner in running && b.owner.allocBlock == b {
        if b.owner != t {
          assert b.owner in old(running);
        }
      }
    }

    /** The lists and the block views, as a value. */
    ghost function Observed(): Board
      reads this`queue, this`running, this`timeout, this`finished, memory`views
    {
      Board(queue, running, timeout, finished, memory.views)
    }

    /**
     * Progress of the retire loop over the running list of `s0` after `k`
     * turns: `gone` are the tasks of that list whose remaining duration `rd0`
     * was one tick or less, and the first `k` tasks have been ticked. It is
     * `Schedule.RetireProgress` applied to this scheduler's state.
     */
    ghost predicate RetiredUpTo(k: nat, gone: set<TaskItem>, s0: Board, rd0: seq<int>)
      reads this`queue, this`running, this`timeout, this`finished, memory`views, s0.running
    {
      RetireProgress(Observed(), s0, gone, k, rd0)
    }

    /** One turn of the retire loop: ticks `snap[k]` and, if that finishes it, retires it. */
    method RetireTurn(snap: seq<TaskItem>, k: nat, ghost gone: set<TaskItem>, ghost s0: Board, ghost rd0: seq<int>)
      requires Consistent() && snap == s0.running && RetiredUpTo(k, gone, s0, rd0) && k < |snap|
      modifies this`running, this`finished, snap`remainingDuration, snap`state, snap`allocBlock, memory`views, memory.blocks`isFree, memory.blocks`owner
      ensures Consistent() && RetiredUpTo(k + 1, gone, s0, rd0)
      ensures memory.blocks == old(memory.blocks)
    {
      var t := snap[k];
      RetireTurnStep(s0, gone, k);
      assert t in running && t.remainingDuration == rd0[k];
      var done := RetireOne(t, snap);
      assert done == (t in gone);
      assert forall j :: 0 <= j < k + 1 ==> snap[j].remainingDuration == rd0[j] - 1 by {
        forall j | 0 <= j < k + 1 ensures snap[j].remainingDuration == rd0[j] - 1 {
          if j < k {
            assert snap[j] != t;
          }
        }
      }
      assert forall j :: k + 1 <= j < |snap| ==> snap[j].remainingDuration == rd0[j] by {
        forall j | k + 1 <= j < |snap| ensures snap[j].remainingDuration == rd0[j] {
          assert snap[j] != t;
        }
      }
    }

    /**
     * The retire loop of `Step`, over a snapshot of the running list: every
     * running task is ticked; those with one tick of work or less left
     * (`Finishing`) release their blocks and move, in list order, to the end
     * of finished, while the others stay running in their order.
     */
    method RetireFinished(ghost s0: Board, ghost gone: set<TaskItem>, ghost rd0: seq<int>)
      requires Consistent() && Observed() == s0
      requires gone == Finishing(running) && rd0 == Durations(running)
      modifies this`running, this`finished, running`remainingDuration, running`state, running`allocBlock, memory`views, memory.blocks`isFree, memory.blocks`owner
      ensures Consistent() && Observed() == Retired(s0, gone)
      ensures forall i :: 0 <= i < |s0.running| ==> s0.running[i].remainingDuration == rd0[i] - 1
    {
      var snap := running;
      RetiredPrefixStart(s0, gone);
      var k := 0;
      while k < |snap|
        invariant memory.blocks == old(memory.blocks)
        invariant Consistent() && RetiredUpTo(k, gone, s0, rd0)
      {
        RetireTurn(snap, k, gone, s0, rd0);
        k := k + 1;
      }
      assert k == |s0.running| && RetiredUpTo(k, gone, s0, rd0);
      RetiredPrefixEnd(s0, gone);
    }

    /**
     * Every block object the memory manager holds now and did not hold in the
     * old state was allocated since, so a caller's frame covers it and the
     * scheduler can be stepped again.
     */
    twostate predicate BlocksFresh()
      reads this, memory
    {
      fresh(memory.repr - old(memory.repr))
    }

    /** The clock advances one tick, then the retire loop runs at the new tick. */
    method TickAndRetire(ghost s0: Board, ghost gone: set<TaskItem>, ghost rd0: seq<int>)
      requires Consistent() && Observed() == s0
      requires gone == Finishing(running) && rd0 == Durations(running)
      modifies this`currentTick, this`running, this`finished, running`remainingDuration, running`state, running`allocBlock, memory`views, memory.blocks`isFree, memory.blocks`owner
      ensures currentTick == old(currentTick) + 1
      ensures Consistent() && Observed() == Retired(s0, gone)
      ensures forall i :: 0 <= i < |s0.running| ==> s0.running[i].remainingDuration == rd0[i] - 1
    {
      currentTick := currentTick + 1;
      RetireFinished(s0, gone, rd0);
    }

    /** Progress of the admission loop over the queue of `s0` after `k` turns: `Schedule.AdmitProgress` applied to this scheduler's state. */
    ghost predicate AdmittedUpTo(k: nat, s0: Board)
      reads this, memory
    {
      AdmitProgress(Observed(), s0, currentTick, k)
    }

    /** One turn of the admission loop: judges `snap[k]` against the blocks the earlier turns left. */
    method AdmitTurn(snap: seq<TaskItem>, k: nat, ghost s0: Board, ghost st0: seq<Option<int>>)
      requires Consistent() && snap == s0.queue && AdmittedUpTo(k, s0) && k < |snap|
      requires StartsRecorded(snap, st0, currentTick)
      modifies this`queue, this`running, this`timeout, snap`startTick, snap`allocBlock, snap`state
      modifies memory`blocks, memory`views, memory`repr, memory.repr`isFree, memory.repr`owner
      ensures Consistent() && AdmittedUpTo(k + 1, s0)
      ensures fresh(memory.repr - old(memory.repr))
      ensures old(snap[k].state) == Waiting && StartRecorded(snap[k].state, snap[k].startTick, old(snap[k].startTick), currentTick)
      ensures StartsRecorded(snap, st0, currentTick)
    {
      var t := snap[k];
      AdmitTurnStep(s0, currentTick, k);
      AdmitOne(t);
      assert forall j :: 0 <= j < |snap| && snap[j] != t ==> snap[j].startTick == old(snap[j].startTick) && snap[j].state == old(snap[j].state);
    }

    /**
     * The admission loop of `Step`, over a snapshot of the queue: in arrival
     * order, each waiting task is timed out, started on the first block that
     * fits it, or left in place, as `Admit` says.
     */
    method AdmitQueue(ghost s0: Board, ghost st0: seq<Option<int>>)
      requires Consistent() && Observed() == s0 && StartsRecorded(queue, st0, currentTick)
      modifies this`queue, this`running, this`timeout, queue`startTick, queue`allocBlock, queue`state
      modifies memory`blocks, memory`views, memory`repr, memory.repr`isFree, memory.repr`owner
      ensures Consistent() && Observed() == Admitted(s0, currentTick)
      ensures fresh(memory.repr - old(memory.repr))
      ensures StartsRecorded(s0.queue, st0, currentTick)
    {
      var snap := queue;
      AdmittedPrefixStart(s0, currentTick);
      var k := 0;
      while k < |snap|
        invariant fresh(memory.repr - old(memory.repr))
        invariant Consistent()
        invariant AdmittedUpTo(k, s0)
        invariant StartsRecorded(snap, st0, currentTick)
      {
        AdmitTurn(snap, k, s0, st0);
        k := k + 1;
      }
      assert k == |s0.queue| && AdmitProgress(Observed(), s0, currentTick, k);
      AdmittedPrefixEnd(s0, currentTick);
    }

    /**
     * The admission pass: after it every task still waiting may still start
     * in time, and the remaining durations of the tasks `ticked` (the ones
     * the retire pass ticked) are left as they were.
     */
    method AdmitWaiting(ghost s0: Board, ghost ticked: seq<TaskItem>, ghost rd: seq<int>, ghost st0: seq<Option<int>>)
      requires Consistent() && Observed() == s0 && st0 == StartTicks(queue)
      requires |rd| == |ticked| && forall i :: 0 <= i < |ticked| ==> ticked[i].remainingDuration == rd[i]
      modifies this`queue, this`running, this`timeout, queue`startTick, queue`allocBlock, queue`state
      modifies memory`blocks, memory`views, memory`repr, memory.repr`isFree, memory.repr`owner
      ensures Valid() && Observed() == Admitted(s0, currentTick)
      ensures BlocksFresh()
      ensures forall i :: 0 <= i < |ticked| ==> ticked[i].remainingDuration == rd[i]
      ensures StartsRecorded(s0.queue, st0, currentTick)
    {
      QueueUnstarted(st0, currentTick);
      AdmitQueue(s0, st0);
      AdmitOnTime(s0.views, currentTick, s0.queue);
    }

    /**
     * `Step()`: advances the tick, retires the running tasks that finish and
     * then admits the waiting tasks, the later ones seeing the memory that
     * the retired tasks gave back. Every running task loses one tick of work.
     */
    method Step()
      requires Valid()
      modifies this`currentTick, this`queue, this`running, this`timeout, this`finished
      modifies running`remainingDuration, running`state, running`allocBlock
      modifies queue`startTick, queue`allocBlock, queue`state
      modifies memory`blocks, memory`views, memory`repr, memory.repr`isFree, memory.repr`owner, memory.blocks`isFree, memory.blocks`owner
      ensures Valid() && currentTick == old(currentTick) + 1
      ensures BlocksFresh()
      ensures Observed() == Stepped(old(Observed()), old(Finishing(running)), currentTick)
      ensures Durations(old(running)) == Lowered(old(Durations(running)))
      ensures forall t :: t in old(queue) ==> t.remainingDuration == old(t.remainingDuration)
      ensures StartsRecorded(old(queue), old(StartTicks(queue)), currentTick)
    {
      ghost var s0, gone, rd0, st0 := Observed(), Finishing(running), Durations(running), StartTicks(queue);
      forall t | t in queue ensures t !in running {
        assert Waits(t);
      }
      Passes(s0, gone, rd0, st0);
    }

    /**
     * The body of a step: the clock advances, then the retire pass, then the
     * admission pass. `s0` is the state before the step, `gone` the running
     * tasks that finish and `rd0` the remaining durations of the running tasks.
     */
    method Passes(ghost s0: Board, ghost gone: set<TaskItem>, ghost rd0: seq<int>, ghost st0: seq<Option<int>>)
      requires Consistent() && Observed() == s0
      requires gone == Finishing(running) && rd0 == Durations(running) && st0 == StartTicks(queue)
      modifies this`currentTick, this`queue, this`running, this`timeout, this`finished
      modifies running`remainingDuration, running`state, running`allocBlock
      modifies queue`startTick, queue`allocBlock, queue`state
      modifies memory`blocks, memory`views, memory`repr, memory.repr`isFree, memory.repr`owner, memory.blocks`isFree, memory.blocks`owner
      ensures currentTick == old(currentTick) + 1
      ensures Valid() && Observed() == Stepped(s0, gone, currentTick)
      ensures BlocksFresh()
      ensures Durations(s0.running) == Lowered(rd0)
      ensures StartsRecorded(s0.queue, st0, currentTick)
    {
      TickAndRetire(s0, gone, rd0);
      AdmitWaiting(Retired(s0, gone), s0.running, Lowered(rd0), st0);
      LoweredDurations(s0.running, rd0);
    }
  }
}
