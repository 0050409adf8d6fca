/**
 * The rules of a scheduler step on values: which waiting tasks time out,
 * start or stay, which running tasks finish and what the block list becomes;
 * and the invariant that ties the scheduler's lists to the allocator.
 */
module Schedule {
  import opened Common
  import opened Lists
  import opened Tasks
  import opened Blocks
  import opened Layout
  import opened Memory

  /** What the admission pass decides for one waiting task. */
  datatype Verdict = Late | Started(views: seq<BlockView>) | Stays

  /**
   * One task of the admission pass, on values: a task whose deadline lies
   * before the current tick times out without an allocation attempt; a task
   * whose deadline is the current tick or later is offered to the allocator.
   */
  function Judge(vs: seq<BlockView>, tick: int, t: TaskItem): (v: Verdict)
    ensures v.Late? <==> tick > t.maxStartTime
    ensures v.Started? <==> tick <= t.maxStartTime && FirstFit(vs, t.sizeBytes).Some?
    ensures v.Started? ==> AllocateResult(vs, t.sizeBytes, t) == Ok(Placed(FirstFit(vs, t.sizeBytes).value, v.views))
  {
    if tick > t.maxStartTime then Late
    else
      match AllocateResult(vs, t.sizeBytes, t)
      case Ok(Placed(_, nvs)) => Started(nvs)
      case _ => Stays
  }

  /** The outcome of admitting a queue: the block list left behind and where each task went. */
  datatype Admission = Admission(views: seq<BlockView>, waiting: seq<TaskItem>, started: seq<TaskItem>, timedOut: seq<TaskItem>)

  /** `a` followed by `b`: the lists are concatenated, the block list is the one `b` leaves. */
  function Then(a: Admission, b: Admission): Admission {
    Admission(b.views, a.waiting + b.waiting, a.started + b.started, a.timedOut + b.timedOut)
  }

  /** The admission of a single task: where it goes and the block list it leaves. */
  function Head(vs: seq<BlockView>, tick: int, t: TaskItem): (a: Admission)
    ensures |a.waiting| + |a.started| + |a.timedOut| == 1
  {
    match Judge(vs, tick, t)
    case Late => Admission(vs, [], [], [t])
    case Started(nvs) => Admission(nvs, [], [t], [])
    case Stays => Admission(vs, [t], [], [])
  }

  /** The admission pass over queue `q`, one task after the other, each seeing the blocks its predecessors left. */
  function Admit(vs: seq<BlockView>, tick: int, q: seq<TaskItem>): (a: Admission)
    ensures |a.waiting| + |a.started| + |a.timedOut| == |q|
    decreases |q|
  {
    if q == [] then Admission(vs, [], [], [])
    else
      var h := Head(vs, tick, q[0]);
      Then(h, Admit(h.views, tick, q[1..]))
  }

  /** The admission of one task routes it to exactly one list: timed out when late, started when a block fits, waiting otherwise. */
  lemma HeadRoutes(vs: seq<BlockView>, tick: int, t: TaskItem)
    ensures var a := Head(vs, tick, t);
      && a.waiting + a.started + a.timedOut == [t]
      && (a.timedOut == [t] <==> tick > t.maxStartTime)
      && (a.started == [t] <==> tick <= t.maxStartTime && FirstFit(vs, t.sizeBytes).Some?)
      && (a.started == [] ==> a.views == vs)
  {
  }

  /** An admission pass that starts no task leaves the block list as it was. */
  lemma {:induction false} AdmitIdle(vs: seq<BlockView>, tick: int, q: seq<TaskItem>)
    ensures Admit(vs, tick, q).started == [] ==> Admit(vs, tick, q).views == vs
    decreases |q|
  {
    if q != [] {
      var h := Head(vs, tick, q[0]);
      HeadRoutes(vs, tick, q[0]);
      AdmitIdle(h.views, tick, q[1..]);
    }
  }

  lemma ThenAssociative(a: Admission, b: Admission, c: Admission)
    ensures Then(Then(a, b), c) == Then(a, Then(b, c))
  {
    assert (a.waiting + b.waiting) + c.waiting == a.waiting + (b.waiting + c.waiting);
    assert (a.started + b.started) + c.started == a.started + (b.started + c.started);
    assert (a.timedOut + b.timedOut) + c.timedOut == a.timedOut + (b.timedOut + c.timedOut);
  }

  /** The tasks of `q` whose deadline lies before `tick`, in queue order. */
  function Overdue(q: seq<TaskItem>, tick: int): (r: seq<TaskItem>)
    ensures forall i :: 0 <= i < |r| ==> tick > r[i].maxStartTime
    ensures |r| <= |q|
  {
    if q == [] then []
    else (if tick > q[0].maxStartTime then [q[0]] else []) + Overdue(q[1..], tick)
  }

  /** The overdue tasks are exactly the tasks of the queue whose deadline lies before the tick. */
  lemma {:induction false} OverdueMembers(q: seq<TaskItem>, tick: int)
    ensures forall i :: 0 <= i < |Overdue(q, tick)| ==> Overdue(q, tick)[i] in q
    ensures forall i :: 0 <= i < |q| && tick > q[i].maxStartTime ==> q[i] in Overdue(q, tick)
  {
    if q != [] {
      OverdueMembers(q[1..], tick);
      var r := Overdue(q[1..], tick);
      var h := if tick > q[0].maxStartTime then [q[0]] else [];
      assert Overdue(q, tick) == h + r;
      forall i | 0 <= i < |Overdue(q, tick)| ensures Overdue(q, tick)[i] in q {
        if i >= |h| {
          assert Overdue(q, tick)[i] == r[i - |h|];
          assert r[i - |h|] in q[1..];
        }
      }
      forall i | 0 <= i < |q| && tick > q[i].maxStartTime ensures q[i] in Overdue(q, tick) {
        if i > 0 {
          assert q[i] == q[1..][i - 1];
        }
      }
    }
  }

  /** FIFO: admitting `q1 + q2` is admitting `q1` and then `q2` against the blocks `q1` left. */
  lemma {:induction false} AdmitAppend(vs: seq<BlockView>, tick: int, q1: seq<TaskItem>, q2: seq<TaskItem>)
    ensures Admit(vs, tick, q1 + q2) == Then(Admit(vs, tick, q1), Admit(Admit(vs, tick, q1).views, tick, q2))
    decreases |q1|
  {
    if q1 == [] {
      assert q1 + q2 == q2;
    } else {
      assert (q1 + q2)[0] == q1[0];
      assert (q1 + q2)[1..] == q1[1..] + q2;
      var h := Head(vs, tick, q1[0]);
      AdmitAppend(h.views, tick, q1[1..], q2);
      ThenAssociative(h, Admit(h.views, tick, q1[1..]), Admit(Admit(vs, tick, q1).views, tick, q2));
    }
  }

  /** The exact deadline: the tasks that time out are precisely those whose deadline lies before the tick. */
  lemma {:induction false} AdmitTimedOut(vs: seq<BlockView>, tick: int, q: seq<TaskItem>)
    ensures Admit(vs, tick, q).timedOut == Overdue(q, tick)
    decreases |q|
  {
    if q != [] {
      AdmitTimedOut(Head(vs, tick, q[0]).views, tick, q[1..]);
    }
  }

  /** Every task of the queue ends up in exactly one of the three outcomes. */
  lemma {:induction false} AdmitPartition(vs: seq<BlockView>, tick: int, q: seq<TaskItem>)
    ensures var a := Admit(vs, tick, q);
      multiset(a.waiting) + multiset(a.started) + multiset(a.timedOut) == multiset(q)
    decreases |q|
  {
    if q != [] {
      assert q == [q[0]] + q[1..];
      AdmitPartition(Head(vs, tick, q[0]).views, tick, q[1..]);
    }
  }

  /** Admission keeps the block list a tiling of the pool, free exactly when unowned. */
  lemma {:induction false} AdmitPreservesTiles(vs: seq<BlockView>, total: UShort, tick: int, q: seq<TaskItem>)
    requires Tiles(vs, total) && OwnedIffOccupied(vs)
    ensures Tiles(Admit(vs, tick, q).views, total) && OwnedIffOccupied(Admit(vs, tick, q).views)
    decreases |q|
  {
    if q != [] {
      var h := Head(vs, tick, q[0]);
      if h.views != vs {
        AllocatePreservesTiles(vs, total, q[0].sizeBytes, q[0]);
      }
      AdmitPreservesTiles(h.views, total, tick, q[1..]);
    }
  }

  /** One turn of the admission loop: admitting one more task of the queue appends its own outcome. */
  lemma AdmitStep(vs: seq<BlockView>, tick: int, q: seq<TaskItem>, k: nat)
    requires k < |q|
    ensures var a := Admit(vs, tick, q[..k]);
      Admit(vs, tick, q[..k + 1]) == Then(a, Head(a.views, tick, q[k]))
  {
    var a := Admit(vs, tick, q[..k]);
    var h := Head(a.views, tick, q[k]);
    assert q[..k + 1] == q[..k] + [q[k]];
    AdmitAppend(vs, tick, q[..k], [q[k]]);
    assert [q[k]][1..] == [];
    assert h.waiting + [] == h.waiting && h.started + [] == h.started && h.timedOut + [] == h.timedOut;
  }

  /** Every task the admission pass leaves waiting has a deadline the tick has not passed. */
  lemma {:induction false} AdmitOnTime(vs: seq<BlockView>, tick: int, q: seq<TaskItem>)
    ensures forall t :: t in Admit(vs, tick, q).waiting ==> tick <= t.maxStartTime
    decreases |q|
  {
    if q != [] {
      var h := Head(vs, tick, q[0]);
      var r := Admit(h.views, tick, q[1..]);
      AdmitOnTime(h.views, tick, q[1..]);
      assert Admit(vs, tick, q).waiting == h.waiting + r.waiting;
      assert h.waiting == [] || (h.waiting == [q[0]] && tick <= q[0].maxStartTime);
    }
  }

  /** The retire phase on values: every block owned by a task of `gone` becomes free and unowned. */
  function ReleaseOwners(vs: seq<BlockView>, gone: set<TaskItem>): (r: seq<BlockView>)
    ensures |r| == |vs|
    ensures forall k :: 0 <= k < |vs| ==> r[k].offset == vs[k].offset && r[k].size == vs[k].size
    ensures forall k :: 0 <= k < |vs| && vs[k].owner !in gone ==> r[k] == vs[k]
    ensures forall k :: 0 <= k < |vs| && vs[k].owner in gone ==> r[k].isFree && r[k].owner == null
  {
    seq(|vs|, k requires 0 <= k < |vs| =>
      if vs[k].owner in gone then vs[k].(isFree := true, owner := null) else vs[k])
  }

  /** Releasing keeps the tiling and "free exactly when unowned". */
  lemma ReleasePreservesTiles(vs: seq<BlockView>, total: int, gone: set<TaskItem>)
    requires Tiles(vs, total) && OwnedIffOccupied(vs)
    ensures Tiles(ReleaseOwners(vs, gone), total) && OwnedIffOccupied(ReleaseOwners(vs, gone))
  {
    var r := ReleaseOwners(vs, gone);
    forall k | 0 < k < |r| ensures r[k].offset == End(r[k - 1]) {
      assert vs[k].offset == End(vs[k - 1]);
    }
  }

  /** Releasing the owners one batch after another is releasing them all at once. */
  lemma ReleaseTwice(vs: seq<BlockView>, a: set<TaskItem>, b: set<TaskItem>)
    requires forall k :: 0 <= k < |vs| && vs[k].owner in a ==> vs[k].owner !in b
    ensures ReleaseOwners(ReleaseOwners(vs, a), b) == ReleaseOwners(vs, a + b)
  {
    var r1 := ReleaseOwners(ReleaseOwners(vs, a), b);
    var r2 := ReleaseOwners(vs, a + b);
    forall k | 0 <= k < |vs| ensures r1[k] == r2[k] {
    }
  }

  /** The members of `gone` that occur in `s`. */
  ghost function Seen(s: seq<TaskItem>, gone: set<TaskItem>): set<TaskItem> {
    set t | t in s && t in gone
  }

  /** Retiring one more finished task releases one more owner. */
  lemma SeenStep(snap: seq<TaskItem>, k: nat, gone: set<TaskItem>, vs: seq<BlockView>)
    requires k < |snap| && Distinct(snap)
    ensures var t := snap[k];
      && (t in gone ==> ReleaseOwners(ReleaseOwners(vs, Seen(snap[..k], gone)), {t}) == ReleaseOwners(vs, Seen(snap[..k + 1], gone)))
      && (t !in gone ==> Seen(snap[..k + 1], gone) == Seen(snap[..k], gone))
  {
    var t := snap[k];
    assert t !in snap[..k];
    assert snap[..k + 1] == snap[..k] + [t];
    assert Seen(snap[..k + 1], gone) == Seen(snap[..k], gone) + (if t in gone then {t} else {});
    ReleaseTwice(vs, Seen(snap[..k], gone), {t});
  }

  /**
   * One turn of the retire loop on lists: with the first `k` tasks of the
   * snapshot done, task `snap[k]` is the head of what is left of the running
   * list, and retiring it or keeping it extends the filtered prefixes by one.
   */
  lemma RetireStep(snap: seq<TaskItem>, k: nat, gone: set<TaskItem>)
    requires k < |snap| && Distinct(snap)
    ensures var t := snap[k];
      var w := Without(snap[..k], gone);
      && (w + snap[k..])[|w|] == t
      && (t in gone ==> Without(snap[..k + 1], gone) == w && Within(snap[..k + 1], gone) == Within(snap[..k], gone) + [t])
      && (t !in gone ==> Without(snap[..k + 1], gone) == w + [t] && Within(snap[..k + 1], gone) == Within(snap[..k], gone))
      && Remove(w + snap[k..], t) == w + snap[k + 1..]
      && w + snap[k..] == w + [t] + snap[k + 1..]
  {
    var t := snap[k];
    var w := Without(snap[..k], gone);
    FilterStep(snap, k, gone);
    assert w + [] == w;
    assert Within(snap[..k], gone) + [] == Within(snap[..k], gone);
    assert t !in w by {
      FilterMembers(snap[..k], gone);
    }
    HeadOfRest(w, snap, k);
  }

  /** The remaining durations of `s`, position by position. */
  ghost function Durations(s: seq<TaskItem>): (r: seq<int>)
    reads s
    ensures |r| == |s| && forall i :: 0 <= i < |s| ==> r[i] == s[i].remainingDuration
  {
    seq(|s|, i requires 0 <= i < |s| reads s => s[i].remainingDuration)
  }

  /** The start ticks of `s`, position by position. */
  ghost function StartTicks(s: seq<TaskItem>): (r: seq<Option<int>>)
    reads s
    ensures |r| == |s| && forall i :: 0 <= i < |s| ==> r[i] == s[i].startTick
  {
    seq(|s|, i requires 0 <= i < |s| reads s => s[i].startTick)
  }

  /**
   * A waiting task whose start tick was `before` has been through an
   * admission pass at `tick` and is now in `state` with `startTick`: if it
   * is Running it started at `tick`, and otherwise its start tick is still
   * `before`.
   */
  predicate StartRecorded(state: TaskState, startTick: Option<int>, before: Option<int>, tick: int) {
    if state == Running then startTick == Some(tick) else startTick == before
  }

  /** `StartRecorded` for every task of `s`, against its start tick in `before`. */
  ghost predicate StartsRecorded(s: seq<TaskItem>, before: seq<Option<int>>, tick: int)
    reads s
  {
    |before| == |s| && forall j {:trigger before[j]} :: 0 <= j < |s| ==> StartRecorded(s[j].state, s[j].startTick, before[j], tick)
  }

  /** Each duration of `rd` less one tick. */
  function Lowered(rd: seq<int>): (r: seq<int>)
    ensures |r| == |rd| && forall i :: 0 <= i < |rd| ==> r[i] == rd[i] - 1
  {
    seq(|rd|, i requires 0 <= i < |rd| => rd[i] - 1)
  }

  /** Tasks that each lost one tick of work since their durations were `rd0` show the lowered durations. */
  lemma LoweredDurations(s: seq<TaskItem>, rd0: seq<int>)
    requires |rd0| == |s| && forall i :: 0 <= i < |s| ==> s[i].remainingDuration == rd0[i] - 1
    ensures Durations(s) == Lowered(rd0)
  {
    assert forall i :: 0 <= i < |s| ==> Durations(s)[i] == Lowered(rd0)[i];
  }

  /** The running tasks whose next tick finishes them: one tick of work or less remains. */
  ghost function Finishing(running: seq<TaskItem>): set<TaskItem>
    reads running
  {
    set t | t in running && t.remainingDuration <= 1
  }

  /** The observable state of the scheduler, as a value: its four lists and the block list. */
  datatype Board = Board(queue: seq<TaskItem>, running: seq<TaskItem>, timeout: seq<TaskItem>,
                         finished: seq<TaskItem>, views: seq<BlockView>)

  /** Every task the four lists hold, with multiplicity. */
  function AllTasks(s: Board): multiset<TaskItem> {
    multiset(s.queue) + multiset(s.running) + multiset(s.timeout) + multiset(s.finished)
  }

  /**
   * The retire pass on values, with `gone` the running tasks that finish:
   * they leave running, in list order, for the end of finished, and every
   * block they own becomes free.
   */
  function Retired(s: Board, gone: set<TaskItem>): Board {
    Board(s.queue, Without(s.running, gone), s.timeout, s.finished + Within(s.running, gone),
          ReleaseOwners(s.views, gone))
  }

  /** The admission pass on values, at tick `tick`: the queue is judged in order against the block list. */
  function Admitted(s: Board, tick: int): Board {
    var a := Admit(s.views, tick, s.queue);
    Board(a.waiting, s.running + a.started, s.timeout + a.timedOut, s.finished, a.views)
  }

  /** A step on values: retire, then admit against the blocks the retired tasks gave back. */
  function Stepped(s: Board, gone: set<TaskItem>, tick: int): Board {
    Admitted(Retired(s, gone), tick)
  }

  /**
   * What the retire pass does to the lists: the queue and the timed-out list
   * are untouched, finished only grows at its end, and no task is lost
   * between running and finished.
   */
  lemma RetiredLists(s: Board, gone: set<TaskItem>)
    ensures var r := Retired(s, gone);
      && r.queue == s.queue && r.timeout == s.timeout && |r.views| == |s.views|
      && |s.finished| <= |r.finished| && r.finished[..|s.finished|] == s.finished
      && |r.running| + |r.finished| == |s.running| + |s.finished|
  {
    FilterPartition(s.running, gone);
    assert |multiset(Within(s.running, gone)) + multiset(Without(s.running, gone))| == |multiset(s.running)|;
  }

  /**
   * What the admission pass does to the lists: finished is untouched, running
   * and timed out only grow at their ends, the tasks appended to timed out are
   * exactly the overdue tasks of the queue in queue order, and no task is lost.
   */
  lemma AdmittedLists(s: Board, tick: int)
    ensures var r := Admitted(s, tick);
      && r.finished == s.finished
      && |s.running| <= |r.running| && r.running[..|s.running|] == s.running
      && |s.timeout| <= |r.timeout| && r.timeout[..|s.timeout|] == s.timeout
      && r.timeout[|s.timeout|..] == Overdue(s.queue, tick)
      && |r.queue| + |r.running| + |r.timeout| == |s.queue| + |s.running| + |s.timeout|
  {
    AdmitTimedOut(s.views, tick, s.queue);
  }

  /**
   * What a whole step does to the lists: finished and timed out only grow at
   * their ends, the tasks that time out are exactly the overdue waiting tasks,
   * in queue order, and the four lists together hold as many tasks as before.
   */
  lemma SteppedLists(s: Board, gone: set<TaskItem>, tick: int)
    ensures var r := Stepped(s, gone, tick);
      && |s.finished| <= |r.finished| && r.finished[..|s.finished|] == s.finished
      && |s.timeout| <= |r.timeout| && r.timeout[..|s.timeout|] == s.timeout
      && r.timeout[|s.timeout|..] == Overdue(s.queue, tick)
      && |r.queue| + |r.running| + |r.timeout| + |r.finished| == |s.queue| + |s.running| + |s.timeout| + |s.finished|
  {
    RetiredLists(s, gone);
    AdmittedLists(Retired(s, gone), tick);
  }

  /** A whole step neither loses nor duplicates a task: the lists it leaves hold, together, exactly the tasks they held. */
  lemma StepKeepsTasks(s: Board, gone: set<TaskItem>, tick: int)
    ensures AllTasks(Stepped(s, gone, tick)) == AllTasks(s)
  {
    FilterPartition(s.running, gone);
    AdmitPartition(ReleaseOwners(s.views, gone), tick, s.queue);
  }

  /**
   * Same-tick reuse: when a block owned by a task that finishes in this step
   * is large enough for the first waiting task, and that task is not past its
   * deadline, the same step starts it.
   */
  lemma SameTickReuse(s: Board, gone: set<TaskItem>, tick: int, k: nat)
    requires |s.queue| >= 1 && tick <= s.queue[0].maxStartTime
    requires k < |s.views| && s.views[k].owner in gone && s.views[k].size >= s.queue[0].sizeBytes
    ensures s.queue[0] in Stepped(s, gone, tick).running
  {
    var rs := ReleaseOwners(s.views, gone);
    assert Fits(rs[k], s.queue[0].sizeBytes);
    assert FirstFit(rs, s.queue[0].sizeBytes).Some?;
    var h := Head(rs, tick, s.queue[0]);
    assert h.started == [s.queue[0]];
    assert Admit(rs, tick, s.queue).started == h.started + Admit(h.views, tick, s.queue[1..]).started;
  }

  /** One turn of the admission loop on values: what judging waiting task `t` does to the lists. */
  function AdmitTurnBoard(s: Board, tick: int, t: TaskItem): Board {
    match Judge(s.views, tick, t)
    case Late => s.(queue := Remove(s.queue, t), timeout := s.timeout + [t])
    case Started(nvs) => s.(queue := Remove(s.queue, t), running := s.running + [t], views := nvs)
    case Stays => s
  }

  /** One admission turn: `t` times out exactly when late, starts exactly when on time and a block fits, and otherwise nothing changes. */
  lemma AdmitTurnLists(s: Board, tick: int, t: TaskItem)
    ensures var r := AdmitTurnBoard(s, tick, t);
      && r.finished == s.finished
      && (r.timeout == s.timeout + [t] <==> tick > t.maxStartTime)
      && (r.running == s.running + [t] <==> tick <= t.maxStartTime && FirstFit(s.views, t.sizeBytes).Some?)
      && (tick <= t.maxStartTime && FirstFit(s.views, t.sizeBytes).None? ==> r == s)
      && (t in s.queue ==> |r.queue| + |r.running| + |r.timeout| == |s.queue| + |s.running| + |s.timeout|)
  {
  }

  /** The admission loop after its first `k` turns over the queue of `s0`. */
  function AdmittedPrefix(s0: Board, tick: int, k: nat): Board
    requires k <= |s0.queue|
  {
    var a := Admit(s0.views, tick, s0.queue[..k]);
    Board(a.waiting + s0.queue[k..], s0.running + a.started, s0.timeout + a.timedOut, s0.finished, a.views)
  }

  /** Before the first turn nothing has been admitted. */
  lemma AdmittedPrefixStart(s0: Board, tick: int)
    ensures AdmittedPrefix(s0, tick, 0) == s0
  {
    var q := s0.queue;
    assert q[..0] == [] && q[0..] == q;
    assert s0.running + [] == s0.running && s0.timeout + [] == s0.timeout;
  }

  /** After the last turn the whole queue has been judged. */
  lemma AdmittedPrefixEnd(s0: Board, tick: int)
    ensures AdmittedPrefix(s0, tick, |s0.queue|) == Admitted(s0, tick)
  {
    var q := s0.queue;
    assert q[..|q|] == q;
    var a := Admit(s0.views, tick, q);
    assert a.waiting + q[|q|..] == a.waiting;
  }

  /** Progress of the admission loop over the queue of `s0`: `cur` is the board after `k` turns. */
  ghost predicate AdmitProgress(cur: Board, s0: Board, tick: int, k: nat) {
    k <= |s0.queue| && cur == AdmittedPrefix(s0, tick, k)
  }

  /** The board after `k + 1` turns, through the single-task admission of the next task of the queue. */
  lemma AdmittedPrefixStep(s0: Board, tick: int, k: nat)
    requires k < |s0.queue|
    ensures var a := Admit(s0.views, tick, s0.queue[..k]);
      var h := Head(a.views, tick, s0.queue[k]);
      AdmittedPrefix(s0, tick, k + 1)
        == Board(a.waiting + h.waiting + s0.queue[k + 1..], s0.running + a.started + h.started,
                 s0.timeout + a.timedOut + h.timedOut, s0.finished, h.views)
  {
    var a := Admit(s0.views, tick, s0.queue[..k]);
    var h := Head(a.views, tick, s0.queue[k]);
    AdmitStep(s0.views, tick, s0.queue, k);
    AppendAssoc(a.waiting, h.waiting, s0.queue[k + 1..]);
    AppendAssoc(s0.running, a.started, h.started);
    AppendAssoc(s0.timeout, a.timedOut, h.timedOut);
  }

  /** One turn of the admission loop extends the admitted prefix of the queue by one task. */
  lemma AdmitTurnStep(s0: Board, tick: int, k: nat)
    requires k < |s0.queue| && Distinct(AdmittedPrefix(s0, tick, k).queue)
    ensures s0.queue[k] in AdmittedPrefix(s0, tick, k).queue
    ensures AdmitTurnBoard(AdmittedPrefix(s0, tick, k), tick, s0.queue[k]) == AdmittedPrefix(s0, tick, k + 1)
  {
    var a := Admit(s0.views, tick, s0.queue[..k]);
    NotBefore(a.waiting, s0.queue, k);
    HeadOfRest(a.waiting, s0.queue, k);
    match Judge(a.views, tick, s0.queue[k])
    case Late => AdmitTurnLate(s0, tick, k);
    case Started(nvs) => AdmitTurnStarted(s0, tick, k);
    case Stays => AdmitTurnStays(s0, tick, k);
  }

  /** A task that is late leaves the queue for the end of the timed-out list. */
  lemma AdmitTurnLate(s0: Board, tick: int, k: nat)
    requires k < |s0.queue|
    requires var a := Admit(s0.views, tick, s0.queue[..k]);
      s0.queue[k] !in a.waiting && Judge(a.views, tick, s0.queue[k]).Late?
    ensures var p := AdmittedPrefix(s0, tick, k);
      AdmittedPrefix(s0, tick, k + 1) == p.(queue := Remove(p.queue, s0.queue[k]), timeout := p.timeout + [s0.queue[k]])
  {
    var a := Admit(s0.views, tick, s0.queue[..k]);
    HeadOfRest(a.waiting, s0.queue, k);
    AdmittedPrefixStep(s0, tick, k);
    assert a.waiting + [] == a.waiting && s0.running + a.started + [] == s0.running + a.started;
  }

  /** A task that is started leaves the queue for the end of the running list and takes the block list its allocation leaves. */
  lemma AdmitTurnStarted(s0: Board, tick: int, k: nat)
    requires k < |s0.queue|
    requires var a := Admit(s0.views, tick, s0.queue[..k]);
      s0.queue[k] !in a.waiting && Judge(a.views, tick, s0.queue[k]).Started?
    ensures var p := AdmittedPrefix(s0, tick, k);
      var v := Judge(p.views, tick, s0.queue[k]);
      AdmittedPrefix(s0, tick, k + 1) == p.(queue := Remove(p.queue, s0.queue[k]), running := p.running + [s0.queue[k]], views := v.views)
  {
    var a := Admit(s0.views, tick, s0.queue[..k]);
    HeadOfRest(a.waiting, s0.queue, k);
    AdmittedPrefixStep(s0, tick, k);
    assert a.waiting + [] == a.waiting && s0.timeout + a.timedOut + [] == s0.timeout + a.timedOut;
  }

  /** A task that neither is late nor fits stays where it is, and nothing else changes. */
  lemma AdmitTurnStays(s0: Board, tick: int, k: nat)
    requires k < |s0.queue|
    requires var a := Admit(s0.views, tick, s0.queue[..k]);
      s0.queue[k] !in a.waiting && Judge(a.views, tick, s0.queue[k]).Stays?
    ensures AdmittedPrefix(s0, tick, k + 1) == AdmittedPrefix(s0, tick, k)
  {
    var a := Admit(s0.views, tick, s0.queue[..k]);
    HeadOfRest(a.waiting, s0.queue, k);
    AdmittedPrefixStep(s0, tick, k);
    var t := s0.queue[k];
    assert Head(a.views, tick, t) == Admission(a.views, [t], [], []);
    assert a.waiting + [t] + s0.queue[k + 1..] == a.waiting + s0.queue[k..];
    assert s0.running + a.started + [] == s0.running + a.started && s0.timeout + a.timedOut + [] == s0.timeout + a.timedOut;
  }

  /** One turn of the retire loop on values: task `t`, when the tick has finished it, leaves running for the end of finished and frees its block. */
  function RetireTurnBoard(s: Board, t: TaskItem, done: bool): Board {
    if done then s.(running := Remove(s.running, t), finished := s.finished + [t], views := ReleaseOwners(s.views, {t}))
    else s
  }

  /** One retire turn: `t` is appended to finished exactly when it is done, and no task is lost between running and finished. */
  lemma RetireTurnLists(s: Board, t: TaskItem, done: bool)
    ensures var r := RetireTurnBoard(s, t, done);
      && r.queue == s.queue && r.timeout == s.timeout && |r.views| == |s.views|
      && (r.finished == s.finished + [t] <==> done)
      && (t in s.running ==> |r.running| + |r.finished| == |s.running| + |s.finished|)
  {
  }

  /** The retire loop after its first `k` turns over the running list of `s0`. */
  ghost function RetiredPrefix(s0: Board, gone: set<TaskItem>, k: nat): Board
    requires k <= |s0.running|
  {
    var r := s0.running;
    Board(s0.queue, Without(r[..k], gone) + r[k..], s0.timeout, s0.finished + Within(r[..k], gone),
          ReleaseOwners(s0.views, Seen(r[..k], gone)))
  }

  /**
   * Progress of the retire loop after `k` turns over the running list of
   * `s0`, whose remaining durations were `rd0`: the lists and blocks are `cur`,
   * `gone` are the tasks with one tick of work or less, and exactly the first
   * `k` tasks have been ticked.
   */
  ghost predicate RetireProgress(cur: Board, s0: Board, gone: set<TaskItem>, k: nat, rd0: seq<int>)
    reads s0.running
  {
    && k <= |s0.running| && |rd0| == |s0.running| && Distinct(s0.running)
    && cur == RetiredPrefix(s0, gone, k)
    && (forall j :: 0 <= j < |s0.running| ==> (s0.running[j] in gone <==> rd0[j] <= 1))
    && (forall j :: 0 <= j < k ==> s0.running[j].remainingDuration == rd0[j] - 1)
    && (forall j :: k <= j < |s0.running| ==> s0.running[j].remainingDuration == rd0[j])
  }

  /** Before the first turn of the retire loop nothing has changed. */
  lemma RetiredPrefixStart(s0: Board, gone: set<TaskItem>)
    ensures RetiredPrefix(s0, gone, 0) == s0
  {
    var r := s0.running;
    assert r[..0] == [] && r[0..] == r;
    assert Seen([], gone) == {};
    assert ReleaseOwners(s0.views, {}) == s0.views;
    assert s0.finished + [] == s0.finished;
  }

  /** After the last turn of the retire loop every task of `gone` is retired. */
  lemma RetiredPrefixEnd(s0: Board, gone: set<TaskItem>)
    requires forall t :: t in gone ==> t in s0.running
    ensures RetiredPrefix(s0, gone, |s0.running|) == Retired(s0, gone)
  {
    var r := s0.running;
    assert r[..|r|] == r && r[|r|..] == [];
    assert Seen(r, gone) == gone;
    assert Without(r, gone) + [] == Without(r, gone);
  }

  /** One turn of the retire loop extends the retired prefix of the running list by one task. */
  lemma RetireTurnStep(s0: Board, gone: set<TaskItem>, k: nat)
    requires k < |s0.running| && Distinct(s0.running)
    ensures s0.running[k] in RetiredPrefix(s0, gone, k).running
    ensures RetireTurnBoard(RetiredPrefix(s0, gone, k), s0.running[k], s0.running[k] in gone) == RetiredPrefix(s0, gone, k + 1)
  {
    var r, t := s0.running, s0.running[k];
    RetireStep(r, k, gone);
    SeenStep(r, k, gone, s0.views);
    AppendAssoc(s0.finished, Within(r[..k], gone), [t]);
  }

  /** A waiting task holds no block and still has work to do. */
  ghost predicate Waits(t: TaskItem)
    reads t
  {
    t.state == Waiting && t.allocBlock == null && t.remainingDuration >= 1
  }

  /** `t` holds a block of the pool that is occupied and owned by it. */
  ghost predicate Holds(mem: MemoryManager, t: TaskItem)
    reads t, mem, mem.blocks
  {
    && t.allocBlock is MemoryBlock
    && (t.allocBlock as MemoryBlock) in mem.blocks
    && !(t.allocBlock as MemoryBlock).isFree
    && (t.allocBlock as MemoryBlock).owner == t
  }

  /** A running task has work left and holds its block. */
  ghost predicate Runs(mem: MemoryManager, t: TaskItem)
    reads t, mem, mem.blocks
  {
    t.state == Running && t.remainingDuration >= 1 && Holds(mem, t)
  }

  /** A timed-out or finished task is in that state and holds no block. */
  ghost predicate Rests(t: TaskItem, s: TaskState)
    reads t
  {
    t.state == s && t.allocBlock == null
  }

  /**
   * The scheduler's invariant, with at most one task `exempt` that is part
   * way through moving between lists: the allocator is consistent, each
   * list holds each task once and in the list's state, and every occupied
   * block is the block of a running task.
   */
  ghost predicate Coherent(mem: MemoryManager, queue: seq<TaskItem>, running: seq<TaskItem>, timeout: seq<TaskItem>,
                          finished: seq<TaskItem>, exempt: TaskItem?)
    reads mem, mem.blocks, queue, running, timeout, finished
  {
    && mem.Valid()
    && Distinct(queue) && Distinct(running) && Distinct(timeout) && Distinct(finished)
    && (forall t :: t in queue && t != exempt ==> Waits(t))
    && (forall t :: t in running && t != exempt ==> Runs(mem, t))
    && (forall t :: t in timeout ==> Rests(t, TimeOut))
    && (forall t :: t in finished ==> Rests(t, Finished))
    && (forall b {:trigger b in mem.blocks} :: b in mem.blocks && !b.isFree ==>
          (exempt != null && b.owner == exempt) || (b.owner in running && b.owner.allocBlock == b))
  }

  /**
   * Waiting task `t` has just been offered to the allocator, which answered
   * `block`: everything is coherent except that `t` may already own `block`,
   * and `t` owns no other block.
   */
  ghost predicate Ready(mem: MemoryManager, queue: seq<TaskItem>, running: seq<TaskItem>, timeout: seq<TaskItem>,
                        finished: seq<TaskItem>, t: TaskItem, block: MemoryBlock?)
    reads mem, mem.blocks, queue, running, timeout, finished, t
  {
    && Coherent(mem, queue, running, timeout, finished, t)
    && t in queue && Waits(t) && t !in running && t !in timeout && t !in finished
    && (block != null ==> block in mem.blocks && !block.isFree && block.owner == t)
    && (forall b {:trigger b in mem.blocks} :: b in mem.blocks && !b.isFree && b.owner == t ==> b == block)
  }
}
