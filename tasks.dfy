/**
 * The entities the helper works on: a task in flight (an object whose
 * counters and timestamps the helper updates in place), the data it sends,
 * the frames it receives, the callbacks it fires, and the two rules it
 * applies to one task at a time: the update made when the task takes a frame
 * and the timeout test.
 */
module Tasks {
  import opened Decimal

  datatype Option<T> = None | Some(value: T)

  newtype byte = x: int | 0 <= x < 256

  /**
   * What a task sends (its `sendWrapData()`): the bytes, the longest wait for
   * a first response and the longest wait after a response, in milliseconds.
   */
  datatype SendData = SendData(payload: seq<byte>, sendOutTime: int, waitOutTime: int)

  /** A decoded inbound frame; the duration the helper attaches travels in the Success event. */
  datatype Frame = Frame(payload: seq<byte>)

  /** The mutable part of a task: responses taken, time of the send, time of the last response (0 = none). */
  datatype Progress = Progress(receiveCount: int, sendTime: int, waitTime: int)

  /** A task object; two tasks with equal fields are still two tasks. */
  class Task {
    const data: SendData
    var receiveCount: int
    var sendTime: int
    var waitTime: int

    constructor (data: SendData)
      ensures this.data == data && State() == Progress(0, 0, 0)
    {
      this.data := data;
      receiveCount, sendTime, waitTime := 0, 0, 0;
    }

    function State(): Progress
      reads this
    {
      Progress(receiveCount, sendTime, waitTime)
    }
  }

  /** A callback fired on a task's listener, or the retry hook's `call(task)`. */
  datatype Event =
    | Failed(task: Task, message: string)
    | Success(task: Task, frame: Frame, duration: int)
    | TimeOut(task: Task)
    | RetryCall(task: Task)

  const NotOpenMessage: string := "Failed to send. You did not open the drive device!"

  function RetryFailedMessage(retryCount: int): string {
    "Failed to send, retried " + IntToString(retryCount) + " time."
  }

  /** `kotlin.math.abs` on a `Long`, without the overflow at the minimum value. */
  function Abs(x: int): nat {
    if x < 0 then -x else x
  }

  /**
   * `isTimeOut`: with no response yet the first-response limit counts from
   * the send, otherwise the between-responses limit counts from the last
   * response.
   */
  predicate IsTimeOut(data: SendData, p: Progress, now: int) {
    if p.waitTime == 0 then Abs(now - p.sendTime) > data.sendOutTime
    else Abs(now - p.waitTime) > data.waitOutTime
  }

  /** The two failure messages are told apart by their text. */
  lemma FailureMessagesDiffer(retryCount: int)
    ensures NotOpenMessage != RetryFailedMessage(retryCount)
  {
    assert NotOpenMessage[14] == '.';
    assert RetryFailedMessage(retryCount)[14] == ',';
  }

  /** The retry-count message names the count: distinct counts give distinct messages. */
  lemma RetryFailedMessageNamesCount(a: int, b: int)
    requires RetryFailedMessage(a) == RetryFailedMessage(b)
    ensures a == b
  {
    var prefix := "Failed to send, retried ";
    var m := RetryFailedMessage(a);
    IntRoundTrip(a);
    IntRoundTrip(b);
    assert |IntToString(a)| == |IntToString(b)|;
    assert m[|prefix|..|prefix| + |IntToString(a)|] == IntToString(a);
    assert RetryFailedMessage(b)[|prefix|..|prefix| + |IntToString(b)|] == IntToString(b);
    IntToStringInjective(a, b);
  }

  /**
   * A task that has not yet had a response is judged by `sendOutTime` alone,
   * one that has by `waitOutTime` alone.
   */
  lemma TimeOutThresholdSelection(data: SendData, other: int, p: Progress, now: int)
    ensures p.waitTime == 0 ==>
      (IsTimeOut(data, p, now) <==> IsTimeOut(data.(waitOutTime := other), p, now))
    ensures p.waitTime != 0 ==>
      (IsTimeOut(data, p, now) <==> IsTimeOut(data.(sendOutTime := other), p, now))
  {
  }

  /** Once a task has timed out, it stays timed out while the clock moves forward. */
  lemma TimeOutPersists(data: SendData, p: Progress, now: int, later: int)
    requires p.sendTime <= now && p.waitTime <= now && now <= later
    requires IsTimeOut(data, p, now)
    ensures IsTimeOut(data, p, later)
  {
  }

  /**
   * A task that sends with a 500 ms first-response limit at time 0 and hears
   * nothing has not timed out at 500 ms and has at 600 ms.
   */
  lemma FirstResponseDeadlineExample(payload: seq<byte>, waitOutTime: int)
    ensures !IsTimeOut(SendData(payload, 500, waitOutTime), Progress(0, 0, 0), 500)
    ensures IsTimeOut(SendData(payload, 500, waitOutTime), Progress(0, 0, 0), 600)
  {
  }
}
