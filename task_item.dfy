/**
 * A task of the simulation: its fixed description (name, memory size,
 * deadline, duration) and its mutable run-time state (remaining duration,
 * start tick, the block it holds, and its lifecycle state).
 */
module Tasks {
  import opened Common

  /** A memory request: a `ushort` the constructor has checked to be positive. */
  type Size16 = x: int | 1 <= x < 0x1_0000 witness 1

  /** An `int` the constructor has checked to be positive. */
  type PositiveInt32 = x: int | 1 <= x < 0x8000_0000 witness 1

  /** `TaskState`. Each state has its own list in the scheduler. */
  datatype TaskState = Waiting | Running | TimeOut | Finished

  /** The characters `char.IsWhiteSpace` accepts (the Unicode White_Space set). */
  predicate IsWhiteSpace(c: char) {
    || c == ' '
    || '\t' <= c <= '\r'
    || c == '\U{0085}'
    || c == '\U{00A0}'
    || c == '\U{1680}'
    || '\U{2000}' <= c <= '\U{200A}'
    || c == '\U{2028}'
    || c == '\U{2029}'
    || c == '\U{202F}'
    || c == '\U{205F}'
    || c == '\U{3000}'
  }

  /** `string.IsNullOrWhiteSpace` for a non-null string: empty or only white space. */
  predicate IsBlank(s: string): (b: bool)
    ensures |s| == 0 ==> b
    ensures (forall i :: 0 <= i < |s| ==> IsWhiteSpace(s[i])) ==> b
    ensures (exists i :: 0 <= i < |s| && !IsWhiteSpace(s[i])) ==> !b
  {
    forall i :: 0 <= i < |s| ==> IsWhiteSpace(s[i])
  }

  /**
   * The constructor's argument checks, in the order it makes them: the
   * exception it throws, or None when it accepts the arguments.
   */
  function TaskArgumentsError(name: string, size: UShort, maxStartTick: Int32, durationTicks: Int32): (e: Option<Exception>)
    ensures e == None <==> !IsBlank(name) && size > 0 && maxStartTick > 0 && durationTicks > 0
    ensures IsBlank(name) ==> e == Some(ArgumentNull("name"))
    ensures !IsBlank(name) && size == 0 ==> e == Some(ArgumentOutOfRange("size"))
    ensures !IsBlank(name) && size > 0 && maxStartTick <= 0 ==> e == Some(ArgumentOutOfRange("maxStartTick"))
    ensures !IsBlank(name) && size > 0 && maxStartTick > 0 && durationTicks <= 0 ==> e == Some(ArgumentOutOfRange("durationTicks"))
    ensures e.Some? && e.value.ArgumentOutOfRange? ==> !IsBlank(name)
  {
    if IsBlank(name) then Some(ArgumentNull("name"))
    else if size <= 0 then Some(ArgumentOutOfRange("size"))
    else if maxStartTick <= 0 then Some(ArgumentOutOfRange("maxStartTick"))
    else if durationTicks <= 0 then Some(ArgumentOutOfRange("durationTicks"))
    else None
  }

  /** The lifecycle: Waiting -> Running -> Finished and Waiting -> TimeOut; staying put is allowed. */
  predicate CanMove(from: TaskState, to: TaskState) {
    || from == to
    || (from == Waiting && (to == Running || to == TimeOut))
    || (from == Running && to == Finished)
  }

  predicate IsTerminal(s: TaskState) {
    s == TimeOut || s == Finished
  }

  /** A sequence of states that a task can go through, one move at a time. */
  ghost predicate IsTrace(trace: seq<TaskState>) {
    forall i :: 0 < i < |trace| ==> CanMove(trace[i - 1], trace[i])
  }

  /** Once a task is timed out or finished, no sequence of moves takes it anywhere else. */
  lemma {:induction false} TerminalStatesAbsorb(trace: seq<TaskState>)
    requires |trace| >= 1 && IsTerminal(trace[0]) && IsTrace(trace)
    ensures forall i :: 0 <= i < |trace| ==> trace[i] == trace[0]
  {
    if |trace| > 1 {
      var prefix := trace[..|trace| - 1];
      assert IsTrace(prefix) by {
        forall i | 0 < i < |prefix| ensures CanMove(prefix[i - 1], prefix[i]) {
          assert prefix[i - 1] == trace[i - 1] && prefix[i] == trace[i];
        }
      }
      TerminalStatesAbsorb(prefix);
      assert trace[|trace| - 2] == prefix[|trace| - 2];
      assert CanMove(trace[|trace| - 2], trace[|trace| - 1]);
      forall i | 0 <= i < |trace| ensures trace[i] == trace[0] {
        if i < |trace| - 1 {
          assert trace[i] == prefix[i];
        }
      }
    }
  }

  /** A task that has left Waiting never comes back to it. */
  lemma {:induction false} NeverWaitingAgain(trace: seq<TaskState>, i: nat, j: nat)
    requires IsTrace(trace) && i <= j < |trace| && trace[i] != Waiting
    ensures trace[j] != Waiting
  {
    if i < j {
      NeverWaitingAgain(trace, i, j - 1);
      assert CanMove(trace[j - 1], trace[j]);
    }
  }

  class TaskItem {
    const taskName: string
    const sizeBytes: Size16
    const maxStartTime: PositiveInt32
    const initialDuration: PositiveInt32

    var startTick: Option<int>
    var remainingDuration: int
    /** The block the task holds while it runs; an opaque `object?` as in the source. */
    var allocBlock: object?
    var state: TaskState

    ghost predicate DurationInRange()
      reads this
    {
      0 <= remainingDuration <= initialDuration
    }

    /** The constructor proper, for arguments that `TaskArgumentsError` accepts. */
    constructor (name: string, size: UShort, maxStartTick: Int32, durationTicks: Int32)
      requires TaskArgumentsError(name, size, maxStartTick, durationTicks) == None
      ensures taskName == name && sizeBytes == size
      ensures maxStartTime == maxStartTick && initialDuration == durationTicks
      ensures state == Waiting && remainingDuration == durationTicks
      ensures startTick == None && allocBlock == null
      ensures DurationInRange()
    {
      taskName := name;
      sizeBytes := size;
      maxStartTime := maxStartTick;
      initialDuration := durationTicks;
      remainingDuration := durationTicks;
      startTick := None;
      allocBlock := null;
      state := Waiting;
    }

    /** `new TaskItem(...)`: throws on bad arguments, otherwise a Waiting task with its full duration. */
    static method New(name: string, size: UShort, maxStartTick: Int32, durationTicks: Int32) returns (r: Outcome<TaskItem>)
      ensures var e := TaskArgumentsError(name, size, maxStartTick, durationTicks);
        && (e.Some? ==> r == Fault(e.value))
        && (e.None? ==> r.Ok? && fresh(r.value))
      ensures r.Ok? ==>
        && r.value.taskName == name && r.value.sizeBytes == size
        && r.value.maxStartTime == maxStartTick && r.value.initialDuration == durationTicks
        && r.value.state == Waiting && r.value.remainingDuration == durationTicks
        && r.value.startTick == None && r.value.allocBlock == null
    {
      var e := TaskArgumentsError(name, size, maxStartTick, durationTicks);
      if e.Some? {
        return Fault(e.value);
      }
      var t := new TaskItem(name, size, maxStartTick, durationTicks);
      return Ok(t);
    }

    /** Admission to Running: only from Waiting and only with a block. */
    method StartTask(tick: int, block: object?) returns (started: bool)
      modifies this
      ensures started == (old(state) == Waiting && block != null)
      ensures started ==> state == Running && startTick == Some(tick) && allocBlock == block
      ensures started ==> remainingDuration == old(remainingDuration)
      ensures !started ==> unchanged(this)
      ensures CanMove(old(state), state)
    {
      if state != Waiting || block == null {
        return false;
      }
      startTick := Some(tick);
      allocBlock := block;
      state := Running;
      return true;
    }

    /** One tick of work: a running task loses one unit of duration (never below 0) and finishes at 0. */
    method Tick() returns (finished: bool)
      modifies this`remainingDuration, this`state
      ensures old(state) != Running ==> !finished && unchanged(this)
      ensures old(state) == Running ==>
        && remainingDuration == Max(0, old(remainingDuration) - 1)
        && finished == (remainingDuration == 0)
        && state == (if finished then Finished else Running)
      ensures finished <==> old(state) == Running && old(remainingDuration) <= 1
      ensures old(DurationInRange()) ==> DurationInRange()
      ensures CanMove(old(state), state)
    {
      if state != Running {
        return false;
      }
      remainingDuration := Max(0, remainingDuration - 1);
      if remainingDuration == 0 {
        state := Finished;
        return true;
      }
      return false;
    }

    /** Timing out is only possible from Waiting; in any other state nothing happens. */
    method MarkTimeOut()
      modifies this`state
      ensures state == if old(state) == Waiting then TimeOut else old(state)
      ensures CanMove(old(state), state)
    {
      if state != Waiting {
        return;
      }
      state := TimeOut;
    }
  }
}
