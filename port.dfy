/**
 * The serial-port helper: the open/closed state of the device and the list
 * of tasks in flight. Sending adds a task, an inbound frame is delivered to
 * every pending task that takes it, and a periodic sweep retires the tasks
 * that have timed out. Callbacks are recorded, in the order they fire, in
 * `log`. The clock, the device, the dispatcher and the retry hook's decision
 * are inputs of the operations.
 */
module Port {
  import opened Lists
  import opened Tasks
  import opened Scan

  /** The pending tasks and their counters, as the pure scan functions take them. */
  ghost function Snapshot(ts: seq<Task>): (es: seq<Entry>)
    reads ts
    ensures |es| == |ts|
    decreases |ts|
  {
    if ts == [] then [] else Snapshot(ts[..|ts| - 1]) + [Entry(ts[|ts| - 1], ts[|ts| - 1].State())]
  }

  lemma {:induction false} SnapshotAt(ts: seq<Task>, i: nat)
    requires i < |ts|
    ensures Snapshot(ts)[i] == Entry(ts[i], ts[i].State())
    decreases |ts|
  {
    if i < |ts| - 1 {
      SnapshotAt(ts[..|ts| - 1], i);
    }
  }

  /** Entry `j` of the snapshot is task `j` with its counters. */
  lemma SnapshotMirrors(ts: seq<Task>)
    ensures forall j :: 0 <= j < |ts| ==> Snapshot(ts)[j] == Entry(ts[j], ts[j].State())
  {
  }

  lemma SnapshotTasks(ts: seq<Task>)
    ensures TasksOf(Snapshot(ts)) == ts
  {
  }

  /**
   * What `sendMessage` leaves pending, stated on the tasks' own fields as the
   * scan starts: a task stays exactly when it does not take the frame or is
   * still below the limit after counting it; no task is left twice.
   */
  lemma FrameRetirement(ts: seq<Task>, check: Option<Checker>, frame: Frame, max: int)
    requires NoDup(ts)
    ensures NoDup(Keep(ts, RetiredBy(Snapshot(ts), check, frame, max)))
    ensures forall i :: 0 <= i < |ts| ==>
      (ts[i] in Keep(ts, RetiredBy(Snapshot(ts), check, frame, max)) <==>
        !(Matches(check, ts[i].data, frame) && ts[i].receiveCount + 1 >= max))
  {
    SnapshotTasks(ts);
    SnapshotMirrors(ts);
    FrameOutcome(Snapshot(ts), check, frame, 0, max);
  }

  /**
   * What `checkTimeOutTask` leaves pending and which callbacks it fires,
   * stated on the tasks' own fields: a task leaves, with exactly one
   * `onTimeOut`, exactly when it has timed out.
   */
  lemma SweepRetirement(ts: seq<Task>, now: int)
    requires NoDup(ts)
    ensures NoDup(Keep(ts, TimedOut(Snapshot(ts), now)))
    ensures forall i :: 0 <= i < |ts| ==>
      (ts[i] in Keep(ts, TimedOut(Snapshot(ts), now)) <==> !IsTimeOut(ts[i].data, ts[i].State(), now))
    ensures forall i :: 0 <= i < |ts| ==>
      TimeOuts(TimeOutEvents(TimedOut(Snapshot(ts), now)), ts[i]) == if IsTimeOut(ts[i].data, ts[i].State(), now) then 1 else 0
  {
    var es := Snapshot(ts);
    SnapshotTasks(ts);
    SweepOutcome(es, now);
    forall i | 0 <= i < |ts|
      ensures ts[i] in Keep(ts, TimedOut(es, now)) <==> !IsTimeOut(ts[i].data, ts[i].State(), now)
      ensures TimeOuts(TimeOutEvents(TimedOut(es, now)), ts[i]) == if IsTimeOut(ts[i].data, ts[i].State(), now) then 1 else 0
    {
      SnapshotAt(ts, i);
    }
  }

  class SerialPortHelper {
    /** `manager.config.path != null` */
    const hasPath: bool
    /** `manager.config.receiveMaxCount`: responses that complete any task. */
    const receiveMaxCount: int
    /** `manager.config.addressCheckCall` */
    const addressCheck: Option<Checker>

    var isOpenDevice: bool
    /** `mSerialPort != null` */
    var portHeld: bool
    /** `serialReadThread != null` */
    var readerHeld: bool
    /** `onRetryCall != null` */
    var hasRetryCall: bool
    var tasks: seq<Task>
    var invalidTasks: seq<Task>
    /** Callbacks fired so far, oldest first. */
    var log: seq<Event>

    /**
     * A task is pending at most once; the device is open exactly when a port
     * is held, and an open device has its reader.
     */
    ghost predicate Valid()
      reads this
    {
      NoDup(tasks) && (isOpenDevice <==> portHeld) && (isOpenDevice ==> readerHeld)
    }

    constructor (hasPath: bool, receiveMaxCount: int, addressCheck: Option<Checker>)
      ensures Valid()
      ensures this.hasPath == hasPath && this.receiveMaxCount == receiveMaxCount && this.addressCheck == addressCheck
      ensures !isOpenDevice && !portHeld && !readerHeld && !hasRetryCall
      ensures tasks == [] && invalidTasks == [] && log == []
    {
      this.hasPath := hasPath;
      this.receiveMaxCount := receiveMaxCount;
      this.addressCheck := addressCheck;
      isOpenDevice, portHeld, readerHeld, hasRetryCall := false, false, false, false;
      tasks, invalidTasks, log := [], [], [];
    }

    /** `onRetryCall = ...`: install (`present`) or drop the retry hook. */
    method SetRetryCall(present: bool)
      modifies this`hasRetryCall
      ensures hasRetryCall == present
    {
      hasRetryCall := present;
    }

    /**
     * `openDevice`: `openOk` is whether constructing the serial port succeeds.
     * On success a reader is attached; on failure no port is held.
     */
    method OpenDevice(openOk: bool) returns (success: bool)
      requires Valid() && hasPath
      modifies this`isOpenDevice, this`portHeld, this`readerHeld
      ensures Valid()
      ensures success == openOk && isOpenDevice == openOk && portHeld == openOk
      ensures readerHeld == (openOk || old(readerHeld))
    {
      if openOk {
        portHeld := true;
        isOpenDevice := true;
      } else {
        portHeld := false;
        isOpenDevice := false;
      }
      if isOpenDevice {
        readerHeld := true;
      }
      success := isOpenDevice;
    }

    /**
     * `closeDevice`: `stopOk` is what `stopReadDataThread()` reports. Closing
     * an open device always succeeds; the reader is dropped only when it
     * stopped. Closing a closed device changes nothing and returns false.
     */
    method CloseDevice(stopOk: bool) returns (closed: bool)
      requires Valid()
      modifies this`isOpenDevice, this`portHeld, this`readerHeld
      ensures Valid()
      ensures closed == old(isOpenDevice)
      ensures !isOpenDevice && !portHeld
      ensures readerHeld == (old(readerHeld) && !(old(isOpenDevice) && stopOk))
    {
      closed := false;
      if isOpenDevice {
        isOpenDevice := false;
        var isSuccess := readerHeld && stopOk;
        if isSuccess {
          readerHeld := false;
        }
        portHeld := false;
        closed := true;
      }
    }

    /** `reOpenDevice`: close (whatever it reports), then open; the result is the open's. */
    method ReOpenDevice(stopOk: bool, openOk: bool) returns (success: bool)
      requires Valid() && hasPath
      modifies this`isOpenDevice, this`portHeld, this`readerHeld
      ensures Valid()
      ensures success == openOk && isOpenDevice == openOk && portHeld == openOk
      ensures readerHeld == (openOk || (old(readerHeld) && !(old(isOpenDevice) && stopOk)))
    {
      var _ := CloseDevice(stopOk);
      success := OpenDevice(openOk);
    }

    /**
     * `sendBuffer` at time `now`. `dispatchOk` is the dispatcher's report,
     * `retryAllowed` what the retry hook's `retry()` answers and `retryCount`
     * the manager's retry count.
     */
    method SendBuffer(task: Task, now: int, dispatchOk: bool, retryAllowed: bool, retryCount: int)
      returns (sent: bool)
      requires Valid()
      modifies this`tasks, this`log, task`sendTime
      ensures Valid()
      ensures sent == (old(isOpenDevice) && dispatchOk)
      ensures task.sendTime == if sent then now else old(task.sendTime)
      ensures tasks == if sent then AddIfAbsent(old(tasks), task) else old(tasks)
      ensures !old(isOpenDevice) ==> log == old(log) + [Failed(task, NotOpenMessage)]
      ensures old(isOpenDevice) && dispatchOk ==> log == old(log)
      ensures old(isOpenDevice) && !dispatchOk ==>
        log == old(log) + if !hasRetryCall then []
                          else if retryAllowed then [RetryCall(task)]
                          else [Failed(task, RetryFailedMessage(retryCount))]
    {
      if !isOpenDevice {
        log := log + [Failed(task, NotOpenMessage)];
        return false;
      }
      var isSendSuccess := dispatchOk;
      if isSendSuccess {
        task.sendTime := now;
      }
      if !isSendSuccess {
        if hasRetryCall {
          if retryAllowed {
            log := log + [RetryCall(task)];
          } else {
            log := log + [Failed(task, RetryFailedMessage(retryCount))];
          }
        }
      } else {
        if task !in tasks {
          tasks := tasks + [task];
        }
      }
      sent := isSendSuccess;
    }

    /**
     * `onSuccess`: a task below the limit counts the frame, stamps
     * `waitTime` and fires `onSuccess` with the duration; a task that reaches
     * the limit, or was already at or past it, goes on the retire list.
     */
    method OnSuccess(task: Task, frame: Frame, now: int)
      modifies this`invalidTasks, this`log, task`receiveCount, task`waitTime
      ensures task.State() == Receive(old(task.State()), now, receiveMaxCount)
      ensures invalidTasks == old(invalidTasks) + if Completes(old(task.State()), receiveMaxCount) then [task] else []
      ensures log == old(log) +
        if Accepts(old(task.State()), receiveMaxCount)
        then [Success(task, frame, Duration(old(task.State()), now, receiveMaxCount))] else []
    {
      if task.receiveCount < receiveMaxCount {
        task.receiveCount := task.receiveCount + 1;
        task.waitTime := now;
        log := log + [Success(task, frame, Abs(task.waitTime - task.sendTime))];
        if task.receiveCount == receiveMaxCount {
          invalidTasks := invalidTasks + [task];
        }
      } else {
        invalidTasks := invalidTasks + [task];
      }
    }

    /**
     * The body of the `sendMessage` scan for the task at position `i`: the
     * task goes through `onSuccess` when there is no address checker or when
     * the checker accepts the frame for the task's data. `before` holds the
     * pending tasks with their counters as the scan started, and `log0` the
     * callbacks fired before it; the retire list and the log grow by what the
     * scan's specification adds for entry `i`, task `i` takes its new
     * counters and every other task keeps its own.
     */
    method DeliverTo(i: nat, frame: Frame, now: int, ghost before: seq<Entry>, ghost log0: seq<Event>)
      requires i < |tasks| == |before| && NoDup(tasks)
      requires forall j :: 0 <= j < |tasks| ==> before[j].task == tasks[j]
      requires forall j {:trigger tasks[j].State()} :: 0 <= j < i ==>
        tasks[j].State() == Deliver(before[j], addressCheck, frame, now, receiveMaxCount)
      requires forall j {:trigger tasks[j].State()} :: i <= j < |tasks| ==> tasks[j].State() == before[j].state
      requires invalidTasks == RetiredBy(before[..i], addressCheck, frame, receiveMaxCount)
      requires log == log0 + SuccessEvents(before[..i], addressCheck, frame, now, receiveMaxCount)
      modifies this`invalidTasks, this`log, tasks[i]
      ensures forall j {:trigger tasks[j].State()} :: 0 <= j < i + 1 ==>
        tasks[j].State() == Deliver(before[j], addressCheck, frame, now, receiveMaxCount)
      ensures forall j {:trigger tasks[j].State()} :: i + 1 <= j < |tasks| ==> tasks[j].State() == before[j].state
      ensures invalidTasks == RetiredBy(before[..i + 1], addressCheck, frame, receiveMaxCount)
      ensures log == log0 + SuccessEvents(before[..i + 1], addressCheck, frame, now, receiveMaxCount)
    {
      var t := tasks[i];
      assert before[i] == Entry(t, t.State());
      assert forall j :: 0 <= j < |tasks| && j != i ==> tasks[j] != t;
      AppendAssoc(log0, SuccessEvents(before[..i], addressCheck, frame, now, receiveMaxCount),
        EventFor(before[i], addressCheck, frame, now, receiveMaxCount));
      FramePassStepAt(before, i, addressCheck, frame, now, receiveMaxCount);
      if Matches(addressCheck, t.data, frame) {
        OnSuccess(t, frame, now);
      }
    }

    /** `invalidTasks.forEach { tasks.remove(it) }` */
    method RemoveInvalid()
      requires NoDup(tasks)
      modifies this`tasks
      ensures tasks == Keep(old(tasks), invalidTasks) && NoDup(tasks)
    {
      var k := 0;
      while k < |invalidTasks|
        invariant 0 <= k <= |invalidTasks|
        invariant tasks == RemoveEach(old(tasks), invalidTasks[..k])
      {
        tasks := RemoveFirst(tasks, invalidTasks[k]);
        assert invalidTasks[..k + 1][..k] == invalidTasks[..k];
        k := k + 1;
      }
      assert invalidTasks[..k] == invalidTasks;
      RemoveEachIsKeep(old(tasks), invalidTasks);
      KeepNoDup(old(tasks), invalidTasks);
    }

    /**
     * The scan of `sendMessage`: the retire list is cleared, then every
     * pending task that takes the frame goes through `onSuccess`, in list order. `before`
     * holds the pending tasks with their counters as the scan starts.
     */
    method DeliverFrame(frame: Frame, now: int, ghost before: seq<Entry>)
      requires NoDup(tasks)
      requires |before| == |tasks|
      requires forall j :: 0 <= j < |tasks| ==> before[j] == Entry(tasks[j], tasks[j].State())
      modifies this`invalidTasks, this`log, set t | t in tasks
      ensures forall i :: 0 <= i < |tasks| ==>
        tasks[i].State() == Deliver(before[i], addressCheck, frame, now, receiveMaxCount)
      ensures invalidTasks == RetiredBy(before, addressCheck, frame, receiveMaxCount)
      ensures log == old(log) + SuccessEvents(before, addressCheck, frame, now, receiveMaxCount)
    {
      invalidTasks := [];
      var i := 0;
      while i < |tasks|
        invariant 0 <= i <= |tasks|
        invariant forall j {:trigger tasks[j].State()} :: 0 <= j < i ==>
          tasks[j].State() == Deliver(before[j], addressCheck, frame, now, receiveMaxCount)
        invariant forall j {:trigger tasks[j].State()} :: i <= j < |tasks| ==> tasks[j].State() == before[j].state
        invariant invalidTasks == RetiredBy(before[..i], addressCheck, frame, receiveMaxCount)
        invariant log == old(log) + SuccessEvents(before[..i], addressCheck, frame, now, receiveMaxCount)
      {
        DeliverTo(i, frame, now, before, old(log));
        i := i + 1;
      }
      assert before[..i] == before;
    }

    /**
     * `sendMessage` with a frame arriving at `now`: deliver the frame, then
     * remove the retire list from the pending tasks.
     */
    method SendMessage(frame: Frame, now: int)
      requires Valid()
      modifies this`invalidTasks, this`tasks, this`log, set t | t in tasks
      ensures Valid()
      ensures forall i :: 0 <= i < |old(tasks)| ==>
        old(tasks)[i].State() == Deliver(old(Snapshot(tasks))[i], addressCheck, frame, now, receiveMaxCount)
      ensures invalidTasks == RetiredBy(old(Snapshot(tasks)), addressCheck, frame, receiveMaxCount)
      ensures tasks == Keep(old(tasks), invalidTasks)
      ensures log == old(log) + SuccessEvents(old(Snapshot(tasks)), addressCheck, frame, now, receiveMaxCount)
    {
      ghost var before := Snapshot(tasks);
      SnapshotMirrors(tasks);
      DeliverFrame(frame, now, before);
      RemoveInvalid();
    }

    /**
     * The scan of `checkTimeOutTask`: the retire list is cleared, then every
     * pending task that has timed out fires `onTimeOut` and goes on the retire
     * list, in list order. `before` holds the pending tasks with their counters.
     */
    method CollectTimeOuts(now: int, ghost before: seq<Entry>)
      requires |before| == |tasks|
      requires forall j :: 0 <= j < |tasks| ==> before[j] == Entry(tasks[j], tasks[j].State())
      modifies this`invalidTasks, this`log
      ensures invalidTasks == TimedOut(before, now)
      ensures log == old(log) + TimeOutEvents(invalidTasks)
    {
      invalidTasks := [];
      var i := 0;
      while i < |tasks|
        invariant 0 <= i <= |tasks|
        invariant invalidTasks == TimedOut(before[..i], now)
        invariant log == old(log) + TimeOutEvents(invalidTasks)
      {
        var t := tasks[i];
        SweepStepAt(before, i, now);
        TimeOutEventsStep(invalidTasks, t);
        if IsTimeOut(t.data, t.State(), now) {
          log := log + [TimeOut(t)];
          invalidTasks := invalidTasks + [t];
        }
        i := i + 1;
      }
      assert before[..i] == before;
    }

    /**
     * `checkTimeOutTask` at time `now`: collect the timed-out tasks, then
     * remove them from the pending tasks.
     */
    method CheckTimeOutTask(now: int)
      requires Valid()
      modifies this`invalidTasks, this`tasks, this`log
      ensures Valid()
      ensures invalidTasks == TimedOut(old(Snapshot(tasks)), now)
      ensures tasks == Keep(old(tasks), invalidTasks)
      ensures log == old(log) + TimeOutEvents(invalidTasks)
    {
      ghost var before := Snapshot(tasks);
      SnapshotMirrors(tasks);
      CollectTimeOuts(now, before);
      RemoveInvalid();
    }
  }
}
