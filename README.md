# SerialPortKit: the serial-port helper's task bookkeeping

SerialPortKit is an Android library for talking to a device over a serial
port. Its `SerialPortHelper` keeps track of the device and of the tasks in
flight:

- the device is open or closed;
- `tasks` is an ordered list of the tasks that were sent and still wait for
  responses;
- each task counts the responses it has taken (`receiveCount`) and stamps
  the time of its send (`sendTime`) and of its last response (`waitTime`).

Sending a task (`sendBuffer`) adds it to the list. An inbound frame
(`sendMessage`) goes to every pending task that the application's address
checker accepts it for; each such task counts it, up to the configured
`receiveMaxCount`. A task that reaches the limit is retired. A periodic sweep
(`checkTimeOutTask`) retires the tasks that waited too long: for the first
response the limit is `sendOutTime` from the send, after that it is
`waitOutTime` from the last response.

The model is imperative, like the helper:

- `Port.SerialPortHelper` is a class holding the helper's fields,
  including `tasks` and the scratch retire list `invalidTasks`.
- `Tasks.Task` is a class whose counters the helper's methods update in
  place. Task identity is object identity, as in the Kotlin lists.
- The callbacks on a task's listener, and the retry hook's `call`, are
  appended to a `log` of events, in the order they fire.
- The clock, the dispatcher's report, the retry hook's `retry()` answer, the
  outcome of opening the port and of stopping the reader thread are
  parameters of the operations.

Each pass over the pending tasks is proved against a pure specification in
`Scan`: a function of the tasks and their counters at the start of the pass.
The lemmas in `Scan` and `Port` then state what the pass means:

- who takes the frame;
- who leaves the list and who stays, in order, without duplicates;
- how many callbacks each task gets.

`Lists` models the Kotlin list operations the helper uses. `Tasks.Task`
holds the fields of a task that the helper reads and updates.

`Decimal` models the string template that renders the retry count in a
failure message. It is a side detail of the log text, not part of the task
bookkeeping. The source promises nothing about it; the model only shows that
the message names the count unambiguously.

## Model

| member | source | states |
|---|---|---|
| `Port.SerialPortHelper.constructor` | serial-port-kit-manage/src/main/java/com/serial/port/manage/SerialPortHelper.kt:23-47 | A new helper is closed, holds no port, no reader and no retry hook, and has no pending or retired task. |
| `Port.SerialPortHelper.SetRetryCall` | serial-port-kit-manage/src/main/java/com/serial/port/manage/SerialPortHelper.kt:40 | Installing or clearing the retry hook sets whether one is present. |
| `Port.SerialPortHelper.OpenDevice` | serial-port-kit-manage/src/main/java/com/serial/port/manage/SerialPortHelper.kt:55-70 | The result and the new open flag are the outcome of constructing the port. A port is held exactly when the open succeeded. A reader is attached on success, and an earlier reader is kept otherwise. |
| `Port.SerialPortHelper.CloseDevice` | serial-port-kit-manage/src/main/java/com/serial/port/manage/SerialPortHelper.kt:75-102 | Returns true exactly when the device was open. Afterwards the device is closed and no port is held. The reader is dropped only when an open device's reader reports that it stopped. A closed device is left as it was. Tasks are untouched. |
| `Port.SerialPortHelper.ReOpenDevice` | serial-port-kit-manage/src/main/java/com/serial/port/manage/SerialPortHelper.kt:109-112 | The result and the open flag equal the open outcome, whatever the close reported. The reader follows close-then-open. Tasks are untouched. |
| `Port.SerialPortHelper.SendBuffer` | serial-port-kit-manage/src/main/java/com/serial/port/manage/SerialPortHelper.kt:118-156 | See the list below the table. |
| `Port.SerialPortHelper.OnSuccess` | serial-port-kit-manage/src/main/java/com/serial/port/manage/SerialPortHelper.kt:183-196 | A task below the limit counts one more response, is stamped with `now` and fires one `onSuccess` whose duration is the time since the send. If that response reaches the limit, the task goes on the retire list. A task already at or past the limit changes nothing, fires nothing and goes on the retire list. |
| `Port.SerialPortHelper.DeliverTo` | serial-port-kit-manage/src/main/java/com/serial/port/manage/SerialPortHelper.kt:167-173 | One step of the frame scan. The task at the position goes through `onSuccess` exactly when there is no checker or the checker accepts the frame for its data. The step extends the retire list and the log by what the scan's specification adds for that entry. Every other task keeps its counters. |
| `Port.SerialPortHelper.DeliverFrame` | serial-port-kit-manage/src/main/java/com/serial/port/manage/SerialPortHelper.kt:166-173 | The cleared retire list and the scan. Every pending task ends with the counters `Scan.Deliver` gives it. The retire list is `Scan.RetiredBy` of the tasks as the scan began. The log grows by `Scan.SuccessEvents`, in list order. |
| `Port.SerialPortHelper.RemoveInvalid` | serial-port-kit-manage/src/main/java/com/serial/port/manage/SerialPortHelper.kt:174-177 | Removing each retired task in turn leaves exactly the pending tasks not on the retire list, in their order and without duplicates. |
| `Port.SerialPortHelper.SendMessage` | serial-port-kit-manage/src/main/java/com/serial/port/manage/SerialPortHelper.kt:163-181 | A whole `sendMessage`. The counters, retire list and callbacks are those of the scan's specification. The pending list becomes the old list without the retired tasks. The helper's invariant is kept: no duplicates, and an open device holds a port and a reader. |
| `Port.SerialPortHelper.CollectTimeOuts` | serial-port-kit-manage/src/main/java/com/serial/port/manage/SerialPortHelper.kt:204-210 | The cleared retire list and the sweep. The retire list is exactly the timed-out tasks (`Scan.TimedOut`) in list order, with one `onTimeOut` per retired task in the same order. No task's counters change. |
| `Port.SerialPortHelper.CheckTimeOutTask` | serial-port-kit-manage/src/main/java/com/serial/port/manage/SerialPortHelper.kt:201-218 | A whole `checkTimeOutTask`. The timed-out tasks are retired with one `onTimeOut` each, the survivors are the old list without them, and the invariant is kept. |
| `Port.FrameRetirement` | serial-port-kit-manage/src/main/java/com/serial/port/manage/SerialPortHelper.kt:163-196 | In terms of the tasks' own fields as a frame arrives: a task stays pending after `sendMessage` exactly when it does not take the frame, or is still below the limit after counting it. The survivors have no duplicates. |
| `Port.SweepRetirement` | serial-port-kit-manage/src/main/java/com/serial/port/manage/SerialPortHelper.kt:201-234 | In terms of the tasks' own fields: a task leaves in `checkTimeOutTask` exactly when it has timed out. It then gets exactly one `onTimeOut`, and otherwise none. The survivors have no duplicates. |
| `Scan.FrameOutcome` | serial-port-kit-manage/src/main/java/com/serial/port/manage/SerialPortHelper.kt:166-196 | After a frame pass and the removal, the survivors are a subsequence of the pending tasks without duplicates. A task leaves exactly when it takes the frame and reaches or already exceeds the limit. A surviving task that took the frame is still below the limit. |
| `Scan.SweepOutcome` | serial-port-kit-manage/src/main/java/com/serial/port/manage/SerialPortHelper.kt:204-214 | After a sweep and the removal, a task leaves exactly when it has timed out. It gets exactly one `onTimeOut` then, and none otherwise. The survivors keep their order without duplicates. |
| `Scan.SuccessEventsOnce` | serial-port-kit-manage/src/main/java/com/serial/port/manage/SerialPortHelper.kt:167-189 | A frame pass fires exactly one `onSuccess` for each task that takes the frame while below the limit, and none for any other task. This includes tasks the checker rejects. |
| `Scan.SuccessEventsShape` | serial-port-kit-manage/src/main/java/com/serial/port/manage/SerialPortHelper.kt:167-189 | Every `onSuccess` of a frame pass belongs to a pending task that took the frame below the limit. It carries that frame and the time since that task's send. |
| `Scan.SelectExactly` | serial-port-kit-manage/src/main/java/com/serial/port/manage/SerialPortHelper.kt:174-177 | On tasks without duplicates, a task is on a retire list built by the scan exactly when its entry was selected. The list only holds pending tasks and has no duplicates. |
| `Scan.TimeOutEventsCount` | serial-port-kit-manage/src/main/java/com/serial/port/manage/SerialPortHelper.kt:205-208 | One `onTimeOut` for each task on a retire list without duplicates, and none for any other task. |
| `Scan.FramePassStep` | serial-port-kit-manage/src/main/java/com/serial/port/manage/SerialPortHelper.kt:167-173 | Scanning one more task extends the retire list and the callbacks by exactly what that task contributes. |
| `Scan.SweepStep` | serial-port-kit-manage/src/main/java/com/serial/port/manage/SerialPortHelper.kt:205-210 | Sweeping one more task appends it to the retire list exactly when it has timed out. |
| `Scan.Receive` | serial-port-kit-manage/src/main/java/com/serial/port/manage/SerialPortHelper.kt:184-186 | The counter update `onSuccess` makes: below the limit, one more response and `waitTime` stamped with `now`; otherwise nothing changes. `ReceiveCount` and `Port.SerialPortHelper.OnSuccess` pin it down. |
| `Scan.Completes` | serial-port-kit-manage/src/main/java/com/serial/port/manage/SerialPortHelper.kt:190-194 | The retire rule of `onSuccess`: a task retires when this response reaches the limit, or when it was already at or past it. `Scan.FrameOutcome` states the combined condition. |
| `Scan.ReceiveCount` | serial-port-kit-manage/src/main/java/com/serial/port/manage/SerialPortHelper.kt:184-186 | Taking a frame below the limit raises the count by exactly one and never past the limit. At or past the limit the counters are unchanged. The send time never changes. |
| `Scan.DurationSinceSend` | serial-port-kit-manage/src/main/java/com/serial/port/manage/SerialPortHelper.kt:186-188 | The reported duration is the time since the send, not since the previous response. |
| `Tasks.IsTimeOut` | serial-port-kit-manage/src/main/java/com/serial/port/manage/SerialPortHelper.kt:223-234 | The timeout rule: before any response (`waitTime` is 0), a task has timed out when more than `sendOutTime` has passed since the send; after one, when more than `waitOutTime` has passed since the last response. Both comparisons are strict. `TimeOutThresholdSelection`, `FirstResponseDeadlineExample`, `Scan.SweepOutcome` and `Port.SweepRetirement` pin it down. |
| `Tasks.TimeOutThresholdSelection` | serial-port-kit-manage/src/main/java/com/serial/port/manage/SerialPortHelper.kt:225-233 | Before any response only `sendOutTime` matters; after one only `waitOutTime` matters. |
| `Tasks.TimeOutPersists` | serial-port-kit-manage/src/main/java/com/serial/port/manage/SerialPortHelper.kt:223-234 | Once a task has timed out it stays timed out as the clock moves forward. |
| `Tasks.FirstResponseDeadlineExample` | serial-port-kit-manage/src/main/java/com/serial/port/manage/SerialPortHelper.kt:225-228 | With a 500 ms first-response limit and no response, a task sent at 0 has not timed out at 500 ms and has at 600 ms. The comparison is strict. |
| `Tasks.RetryFailedMessage` | serial-port-kit-manage/src/main/java/com/serial/port/manage/SerialPortHelper.kt:146 | The failure text after a refused retry, with the manager's retry count rendered in decimal. The not-open text at :120 is the constant `Tasks.NotOpenMessage`. `FailureMessagesDiffer` tells the two apart. |
| `Tasks.FailureMessagesDiffer` | serial-port-kit-manage/src/main/java/com/serial/port/manage/SerialPortHelper.kt:118-147 | The not-open failure message differs from every retry failure message. |
| `Tasks.RetryFailedMessageNamesCount` | serial-port-kit-manage/src/main/java/com/serial/port/manage/SerialPortHelper.kt:146 | The retry failure message determines the retry count it names. |
| `Lists.AddIfAbsent` | serial-port-kit-manage/src/main/java/com/serial/port/manage/SerialPortHelper.kt:151-153 | `contains` then `add`: the task is appended only if absent. `AddIfAbsentOnce` and `AddIfAbsentIdempotent` pin it down. |
| `Lists.AddIfAbsentOnce` | serial-port-kit-manage/src/main/java/com/serial/port/manage/SerialPortHelper.kt:151-153 | Adding a task only if absent leaves it in the list exactly once. The old entries keep their order as a prefix, and nothing else is added. |
| `Lists.AddIfAbsentIdempotent` | serial-port-kit-manage/src/main/java/com/serial/port/manage/SerialPortHelper.kt:151-153 | Adding the same task twice has the effect of adding it once. |
| `Lists.RemoveFirst` | serial-port-kit-manage/src/main/java/com/serial/port/manage/SerialPortHelper.kt:176 | `MutableList.remove(element)`: only the first occurrence is removed. `RemoveFirstAbsent`, `RemoveFirstCuts` and `RemoveFirstIsKeep` pin it down. |
| `Lists.RemoveFirstAbsent` | serial-port-kit-manage/src/main/java/com/serial/port/manage/SerialPortHelper.kt:176 | `remove` of a task that is not in the list leaves the list unchanged. |
| `Lists.RemoveFirstCuts` | serial-port-kit-manage/src/main/java/com/serial/port/manage/SerialPortHelper.kt:176 | `remove` of a task in the list cuts out its first occurrence and nothing else. |
| `Lists.RemoveFirstIsKeep` | serial-port-kit-manage/src/main/java/com/serial/port/manage/SerialPortHelper.kt:176 | On a list without duplicates, `remove` drops every occurrence of the task. |
| `Lists.RemoveEach` | serial-port-kit-manage/src/main/java/com/serial/port/manage/SerialPortHelper.kt:175-177 | The removal loop: the retired tasks are removed one after the other, in retire-list order. `RemoveEachIsKeep` relates it to the filter. |
| `Lists.RemoveEachIsKeep` | serial-port-kit-manage/src/main/java/com/serial/port/manage/SerialPortHelper.kt:175-177 | On a list without duplicates, the removal loop equals the filter that keeps the tasks not retired, in order. |
| `Lists.KeepNoDup` | serial-port-kit-manage/src/main/java/com/serial/port/manage/SerialPortHelper.kt:175-177 | The filter keeps a list free of duplicates. |
| `Lists.KeepSubSeq` | serial-port-kit-manage/src/main/java/com/serial/port/manage/SerialPortHelper.kt:175-177 | The filter keeps the survivors' relative order. |
| `Lists.KeepTwice` | serial-port-kit-manage/src/main/java/com/serial/port/manage/SerialPortHelper.kt:174-177 | Filtering twice equals filtering once by both retire lists. |
| `Lists.Keep` | serial-port-kit-manage/src/main/java/com/serial/port/manage/SerialPortHelper.kt:174-177 | The filter holds exactly the tasks of the list that are not retired. |
| `Decimal.IntRoundTrip` | serial-port-kit-manage/src/main/java/com/serial/port/manage/SerialPortHelper.kt:146 | The decimal rendering of the retry count parses back to the count. |
| `Decimal.IntToStringInjective` | serial-port-kit-manage/src/main/java/com/serial/port/manage/SerialPortHelper.kt:146 | Distinct counts render as distinct texts. |

`Port.SerialPortHelper.SendBuffer` states:

- On a closed device it returns false and fires exactly one `onFailed` with the not-open message. Nothing else changes.
- Otherwise it returns the dispatcher's report.
- On success it stamps `sendTime` with `now`, adds the task only if it is absent, and fires nothing.
- On failure the list and `sendTime` are unchanged. The hook's `call` fires if the hook allows a retry. One `onFailed` naming the retry count fires if it refuses. Nothing fires without a hook.
- The list never holds a task twice.

## Left out

- Locking: the read lock around the two scans is concurrency. Each operation is modelled as atomic, and the unlocked insert in `sendBuffer` is not modelled.
- The clock: `System.currentTimeMillis()` is read once for each task, in `onSuccess` and in `isTimeOut`. The model passes one `now` to each operation, as if every read in one pass returned the same time.
- Time is a mathematical integer. The overflow of `Long` subtraction and of `abs` at the minimum `Long` value is not modelled.
- The device: the `SerialPort` constructor with the path and baud rate, its streams and their closing, `IOException` handling, and `SerialReadThread`/`DataProcess` are native I/O and threads. They are reduced to three booleans (a port is held, a reader is held, the device is open) and to the outcomes passed in.
- A missing `config.path` is a precondition (`hasPath`) of `OpenDevice` and `ReOpenDevice`; the model does not raise the exception.
- Dispatch: `task.stream(outputStream)` and `manager.dispatcher.dispatch` are external I/O. The model assumes the dispatcher invokes its callback before `dispatch` returns; the callback's report is the `dispatchOk` parameter.
- The retry hook: its `retry()` answer is the `retryAllowed` parameter. The effect of `call(task)` is not modelled beyond recording it as an event.
- Listeners and the address checker are application code. Callbacks are recorded as events, and the checker is an uninterpreted function of the task's data and the frame.
- The frame's `duration` field: the helper writes it into the one shared frame object before each `onSuccess`, so a listener that keeps the frame sees the last task's duration. The address checker is called on that same object (line 169), so a checker that reads `duration` sees the value written for an earlier task; the model's `Checker` takes a frame without a duration. The model carries the duration in each `Success` event instead.
- Debug logging (`Log.d`, `Log.e` and the `config.debug` branches) has no effect on the state.
- The manager's configuration is the set of helper constants `hasPath`, `receiveMaxCount` and `addressCheck`. The retry count is a parameter of `SendBuffer`.
- `BaseSerialPortTask`, `SerialPortTask`, `SendWrapData`, `WrapReceiverData`, `SerialPortManager` and `OnRetryCall` are not part of this model beyond the fields the helper reads.
