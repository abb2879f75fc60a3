/**
 * What one pass of the helper over its pending tasks computes, as functions
 * of the tasks and their counters at the start of the pass: the pass that
 * delivers an inbound frame (`sendMessage` with `onSuccess`) and the timeout
 * sweep (`checkTimeOutTask`). The helper's methods are proved to do exactly
 * this; the lemmas here say what it means.
 */
module Scan {
  import opened Tasks
  import opened Lists

  /** The application's address checker: does this frame belong to the task that sent this data? */
  type Checker = (SendData, Frame) -> bool

  /** A pending task as a pass sees it: the object and its counters when the pass starts. */
  datatype Entry = Entry(task: Task, state: Progress)

  function TasksOf(es: seq<Entry>): (ts: seq<Task>)
    ensures |ts| == |es| && forall i :: 0 <= i < |es| ==> ts[i] == es[i].task
  {
    seq(|es|, i requires 0 <= i < |es| => es[i].task)
  }

  /** A task takes the frame when the checker accepts it, or always when no checker is configured. */
  predicate Matches(check: Option<Checker>, data: SendData, frame: Frame) {
    match check
    case None => true
    case Some(accepts) => accepts(data, frame)
  }

  /** `onSuccess` goes through its counting branch: the task is below the limit. */
  predicate Accepts(p: Progress, max: int) {
    p.receiveCount < max
  }

  /** The update `onSuccess` makes to a task's counters at time `now`. */
  function Receive(p: Progress, now: int, max: int): Progress {
    if Accepts(p, max) then Progress(p.receiveCount + 1, p.sendTime, now) else p
  }

  /** `onSuccess` adds the task to the retire list. */
  predicate Completes(p: Progress, max: int) {
    if Accepts(p, max) then p.receiveCount + 1 == max else true
  }

  /** The duration `onSuccess` attaches: `abs(waitTime - sendTime)` after the update. */
  function Duration(p: Progress, now: int, max: int): int {
    var q := Receive(p, now, max);
    Abs(q.waitTime - q.sendTime)
  }

  /** The counters of a pending task after the frame pass. */
  function Deliver(e: Entry, check: Option<Checker>, frame: Frame, now: int, max: int): Progress {
    if Matches(check, e.task.data, frame) then Receive(e.state, now, max) else e.state
  }

  /** The tasks of the entries that `pick` chooses, in scan order. */
  function Select(es: seq<Entry>, pick: Entry -> bool): seq<Task>
    decreases |es|
  {
    if es == [] then []
    else Select(es[..|es| - 1], pick) + (if pick(es[|es| - 1]) then [es[|es| - 1].task] else [])
  }

  predicate Retires(e: Entry, check: Option<Checker>, frame: Frame, max: int) {
    Matches(check, e.task.data, frame) && Completes(e.state, max)
  }

  /** The retire list the frame pass builds. */
  function RetiredBy(es: seq<Entry>, check: Option<Checker>, frame: Frame, max: int): seq<Task> {
    Select(es, (e: Entry) => Retires(e, check, frame, max))
  }

  /** What the frame pass adds to the retire list for one entry. */
  function RetireFor(e: Entry, check: Option<Checker>, frame: Frame, max: int): seq<Task> {
    if Retires(e, check, frame, max) then [e.task] else []
  }

  /** The `onSuccess` callback the frame pass fires for one entry, if any. */
  function EventFor(e: Entry, check: Option<Checker>, frame: Frame, now: int, max: int): seq<Event> {
    if Matches(check, e.task.data, frame) && Accepts(e.state, max)
    then [Success(e.task, frame, Duration(e.state, now, max))] else []
  }

  /** The `onSuccess` callbacks the frame pass fires, in scan order. */
  function SuccessEvents(es: seq<Entry>, check: Option<Checker>, frame: Frame, now: int, max: int): seq<Event>
    decreases |es|
  {
    if es == [] then []
    else SuccessEvents(es[..|es| - 1], check, frame, now, max) + EventFor(es[|es| - 1], check, frame, now, max)
  }

  /** The retire list the timeout sweep builds. */
  function TimedOut(es: seq<Entry>, now: int): seq<Task> {
    Select(es, (e: Entry) => IsTimeOut(e.task.data, e.state, now))
  }

  /** One `onTimeOut` callback per task, in order. */
  function TimeOutEvents(ts: seq<Task>): seq<Event>
    decreases |ts|
  {
    if ts == [] then [] else TimeOutEvents(ts[..|ts| - 1]) + [TimeOut(ts[|ts| - 1])]
  }

  /** How many `onSuccess` callbacks for `t` the log holds. */
  function Successes(log: seq<Event>, t: Task): nat
    decreases |log|
  {
    if log == [] then 0
    else Successes(log[..|log| - 1], t) + (if log[|log| - 1].Success? && log[|log| - 1].task == t then 1 else 0)
  }

  /** How many `onTimeOut` callbacks for `t` the log holds. */
  function TimeOuts(log: seq<Event>, t: Task): nat
    decreases |log|
  {
    if log == [] then 0
    else TimeOuts(log[..|log| - 1], t) + (if log[|log| - 1] == TimeOut(t) then 1 else 0)
  }

  /** One more entry scanned by the frame pass. */
  lemma FramePassStep(es: seq<Entry>, e: Entry, check: Option<Checker>, frame: Frame, now: int, max: int)
    ensures RetiredBy(es + [e], check, frame, max) == RetiredBy(es, check, frame, max) + RetireFor(e, check, frame, max)
    ensures SuccessEvents(es + [e], check, frame, now, max)
      == SuccessEvents(es, check, frame, now, max) + EventFor(e, check, frame, now, max)
  {
  }

  /** One more entry scanned by the sweep. */
  lemma SweepStep(es: seq<Entry>, e: Entry, now: int)
    ensures TimedOut(es + [e], now) == TimedOut(es, now) + (if IsTimeOut(e.task.data, e.state, now) then [e.task] else [])
  {
  }

  lemma TimeOutEventsStep(ts: seq<Task>, t: Task)
    ensures TimeOutEvents(ts + [t]) == TimeOutEvents(ts) + [TimeOut(t)]
  {
  }

  lemma FramePassStepAt(es: seq<Entry>, i: nat, check: Option<Checker>, frame: Frame, now: int, max: int)
    requires i < |es|
    ensures RetiredBy(es[..i + 1], check, frame, max)
      == RetiredBy(es[..i], check, frame, max) + RetireFor(es[i], check, frame, max)
    ensures SuccessEvents(es[..i + 1], check, frame, now, max)
      == SuccessEvents(es[..i], check, frame, now, max) + EventFor(es[i], check, frame, now, max)
  {
    assert es[..i + 1] == es[..i] + [es[i]];
    FramePassStep(es[..i], es[i], check, frame, now, max);
  }

  lemma SweepStepAt(es: seq<Entry>, i: nat, now: int)
    requires i < |es|
    ensures TimedOut(es[..i + 1], now)
      == TimedOut(es[..i], now) + (if IsTimeOut(es[i].task.data, es[i].state, now) then [es[i].task] else [])
  {
    assert es[..i + 1] == es[..i] + [es[i]];
    SweepStep(es[..i], es[i], now);
  }

  /** A task that accepts a frame has its count raised by one, never past the limit. */
  lemma ReceiveCount(p: Progress, now: int, max: int)
    ensures Accepts(p, max) ==> Receive(p, now, max).receiveCount == p.receiveCount + 1 <= max
    ensures !Accepts(p, max) ==> Receive(p, now, max) == p
    ensures Receive(p, now, max).sendTime == p.sendTime
    ensures p.receiveCount <= max ==> Receive(p, now, max).receiveCount <= max
  {
  }

  /** The duration reported is the time since the send, not since the previous response. */
  lemma DurationSinceSend(p: Progress, now: int, max: int)
    requires Accepts(p, max)
    ensures Duration(p, now, max) == Abs(now - p.sendTime)
  {
  }

  lemma {:induction false} TasksOfPrefix(es: seq<Entry>, n: nat)
    requires n <= |es|
    ensures TasksOf(es[..n]) == TasksOf(es)[..n]
  {
  }

  /**
   * On tasks without duplicates, a task is in the selection exactly when its
   * entry is picked, and the selection has no duplicates either.
   */
  lemma {:induction false} SelectExactly(es: seq<Entry>, pick: Entry -> bool)
    requires NoDup(TasksOf(es))
    ensures forall t :: t in Select(es, pick) ==> t in TasksOf(es)
    ensures forall i :: 0 <= i < |es| ==> (es[i].task in Select(es, pick) <==> pick(es[i]))
    ensures NoDup(Select(es, pick))
    decreases |es|
  {
    if es != [] {
      var n := |es| - 1;
      var init, last := es[..n], es[n];
      TasksOfPrefix(es, n);
      assert NoDup(TasksOf(init));
      SelectExactly(init, pick);
      assert last.task !in TasksOf(init) by {
        forall j | 0 <= j < n ensures TasksOf(init)[j] != last.task {
          assert TasksOf(es)[j] != TasksOf(es)[n];
        }
      }
      forall i | 0 <= i < n
        ensures es[i].task in Select(es, pick) <==> pick(es[i])
      {
        assert init[i] == es[i];
        assert TasksOf(es)[i] != TasksOf(es)[n];
      }
    }
  }

  lemma {:induction false} TimeOutEventsCount(ts: seq<Task>, t: Task)
    requires NoDup(ts)
    ensures TimeOuts(TimeOutEvents(ts), t) == if t in ts then 1 else 0
    decreases |ts|
  {
    if ts != [] {
      var n := |ts| - 1;
      var evs := TimeOutEvents(ts);
      assert evs[..|evs| - 1] == TimeOutEvents(ts[..n]);
      assert NoDup(ts[..n]);
      TimeOutEventsCount(ts[..n], t);
      assert ts == ts[..n] + [ts[n]];
      assert ts[n] !in ts[..n];
    }
  }

  lemma SuccessesSnoc(log: seq<Event>, e: Event, t: Task)
    ensures Successes(log + [e], t) == Successes(log, t) + (if e.Success? && e.task == t then 1 else 0)
  {
  }

  /** `ev` is the `onSuccess` of some entry that took the frame below the limit. */
  predicate FiredFor(es: seq<Entry>, ev: Event, check: Option<Checker>, frame: Frame, now: int, max: int) {
    exists i :: 0 <= i < |es| && Matches(check, es[i].task.data, frame) && Accepts(es[i].state, max) &&
      ev == Success(es[i].task, frame, Abs(now - es[i].state.sendTime))
  }

  /** Each `onSuccess` of a frame pass belongs to a task that took the frame below the limit. */
  lemma {:induction false} SuccessEventsShape(es: seq<Entry>, check: Option<Checker>, frame: Frame, now: int, max: int)
    ensures forall k :: 0 <= k < |SuccessEvents(es, check, frame, now, max)| ==>
      FiredFor(es, SuccessEvents(es, check, frame, now, max)[k], check, frame, now, max)
    decreases |es|
  {
    if es != [] {
      var n := |es| - 1;
      var init, last := es[..n], es[n];
      var evs, prior := SuccessEvents(es, check, frame, now, max), SuccessEvents(init, check, frame, now, max);
      SuccessEventsShape(init, check, frame, now, max);
      var fires := Matches(check, last.task.data, frame) && Accepts(last.state, max);
      assert evs == prior + (if fires then [Success(last.task, frame, Abs(now - last.state.sendTime))] else []);
      forall k | 0 <= k < |evs| ensures FiredFor(es, evs[k], check, frame, now, max) {
        if k < |prior| {
          assert FiredFor(init, prior[k], check, frame, now, max);
          var i :| 0 <= i < n && Matches(check, init[i].task.data, frame) && Accepts(init[i].state, max) &&
            prior[k] == Success(init[i].task, frame, Abs(now - init[i].state.sendTime));
          assert evs[k] == prior[k];
          assert init[i] == es[i];
        } else {
          assert evs[k] == Success(es[n].task, frame, Abs(now - es[n].state.sendTime));
        }
      }
    }
  }

  /**
   * The callbacks of a frame pass: exactly one `onSuccess` for each task that
   * takes the frame while below the limit, and none for any other.
   */
  lemma {:induction false} SuccessEventsOnce(es: seq<Entry>, check: Option<Checker>, frame: Frame, now: int, max: int)
    requires NoDup(TasksOf(es))
    ensures forall i :: 0 <= i < |es| ==>
      Successes(SuccessEvents(es, check, frame, now, max), es[i].task)
        == if Matches(check, es[i].task.data, frame) && Accepts(es[i].state, max) then 1 else 0
    decreases |es|
  {
    if es != [] {
      var n := |es| - 1;
      var init, last := es[..n], es[n];
      var evs, prior := SuccessEvents(es, check, frame, now, max), SuccessEvents(init, check, frame, now, max);
      TasksOfPrefix(es, n);
      assert NoDup(TasksOf(init));
      SuccessEventsOnce(init, check, frame, now, max);
      var fires := Matches(check, last.task.data, frame) && Accepts(last.state, max);
      var added := Success(last.task, frame, Duration(last.state, now, max));
      assert fires ==> evs == prior + [added];
      assert !fires ==> evs == prior;
      forall j | 0 <= j < n ensures init[j].task != last.task {
        assert TasksOf(es)[j] != TasksOf(es)[n];
      }
      forall i | 0 <= i < |es|
        ensures Successes(evs, es[i].task)
          == if Matches(check, es[i].task.data, frame) && Accepts(es[i].state, max) then 1 else 0
      {
        if fires {
          SuccessesSnoc(prior, added, es[i].task);
        }
        if i < n {
          assert init[i] == es[i];
        } else {
          NoSuccessesFor(init, check, frame, now, max, last.task);
        }
      }
    }
  }

  /** A frame pass fires nothing for a task that is not pending. */
  lemma {:induction false} NoSuccessesFor(es: seq<Entry>, check: Option<Checker>, frame: Frame, now: int, max: int, t: Task)
    requires forall j :: 0 <= j < |es| ==> es[j].task != t
    ensures Successes(SuccessEvents(es, check, frame, now, max), t) == 0
    decreases |es|
  {
    if es != [] {
      var n := |es| - 1;
      var evs, prior := SuccessEvents(es, check, frame, now, max), SuccessEvents(es[..n], check, frame, now, max);
      NoSuccessesFor(es[..n], check, frame, now, max, t);
      if evs != prior {
        assert evs[..|evs| - 1] == prior;
      }
    }
  }

  /**
   * After a frame pass and the removal of its retire list from the pending
   * tasks: the survivors are exactly the tasks that did not retire, in their
   * original order, without duplicates; a task leaves exactly when it took the
   * frame and reached the limit or was already at or past it; and a surviving
   * task that took the frame is still below the limit.
   */
  lemma FrameOutcome(es: seq<Entry>, check: Option<Checker>, frame: Frame, now: int, max: int)
    requires NoDup(TasksOf(es))
    ensures NoDup(Keep(TasksOf(es), RetiredBy(es, check, frame, max)))
    ensures SubSeq(Keep(TasksOf(es), RetiredBy(es, check, frame, max)), TasksOf(es))
    ensures forall t :: t in Keep(TasksOf(es), RetiredBy(es, check, frame, max)) ==> t in TasksOf(es)
    ensures forall i :: 0 <= i < |es| ==>
      (es[i].task in Keep(TasksOf(es), RetiredBy(es, check, frame, max)) <==>
        !(Matches(check, es[i].task.data, frame) && es[i].state.receiveCount + 1 >= max))
    ensures forall i :: 0 <= i < |es| ==>
      es[i].task in Keep(TasksOf(es), RetiredBy(es, check, frame, max)) && Matches(check, es[i].task.data, frame) ==>
        Deliver(es[i], check, frame, now, max).receiveCount < max
  {
    var survivors := Keep(TasksOf(es), RetiredBy(es, check, frame, max));
    SelectExactly(es, (e: Entry) => Retires(e, check, frame, max));
    KeepNoDup(TasksOf(es), RetiredBy(es, check, frame, max));
    KeepSubSeq(TasksOf(es), RetiredBy(es, check, frame, max));
    forall i | 0 <= i < |es|
      ensures es[i].task in survivors <==> !(Matches(check, es[i].task.data, frame) && es[i].state.receiveCount + 1 >= max)
    {
      assert TasksOf(es)[i] == es[i].task;
    }
  }

  /**
   * After a sweep and the removal of its retire list: a task leaves exactly
   * when it has timed out, it gets exactly one `onTimeOut` then and none
   * otherwise, and the survivors keep their order without duplicates.
   */
  lemma SweepOutcome(es: seq<Entry>, now: int)
    requires NoDup(TasksOf(es))
    ensures NoDup(Keep(TasksOf(es), TimedOut(es, now)))
    ensures SubSeq(Keep(TasksOf(es), TimedOut(es, now)), TasksOf(es))
    ensures forall t :: t in Keep(TasksOf(es), TimedOut(es, now)) ==> t in TasksOf(es)
    ensures forall i :: 0 <= i < |es| ==>
      (es[i].task in Keep(TasksOf(es), TimedOut(es, now)) <==> !IsTimeOut(es[i].task.data, es[i].state, now))
    ensures forall i :: 0 <= i < |es| ==>
      TimeOuts(TimeOutEvents(TimedOut(es, now)), es[i].task) == if IsTimeOut(es[i].task.data, es[i].state, now) then 1 else 0
  {
    var dead := TimedOut(es, now);
    SelectExactly(es, (e: Entry) => IsTimeOut(e.task.data, e.state, now));
    KeepNoDup(TasksOf(es), dead);
    KeepSubSeq(TasksOf(es), dead);
    forall i | 0 <= i < |es|
      ensures es[i].task in Keep(TasksOf(es), dead) <==> !IsTimeOut(es[i].task.data, es[i].state, now)
      ensures TimeOuts(TimeOutEvents(dead), es[i].task) == if IsTimeOut(es[i].task.data, es[i].state, now) then 1 else 0
    {
      assert TasksOf(es)[i] == es[i].task;
      TimeOutEventsCount(dead, es[i].task);
    }
  }
}
