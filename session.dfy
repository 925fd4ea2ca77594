/** The start/stop control of yapper: the global flags `is_transcribing` and
    `stop_flag` and the stop callback that the Stop click schedules on a 300 ms
    timer. Starting and joining the worker thread are recorded as ghost events;
    the button's label and colours are left out.
 */
module Session {

  /** What the controller does to the worker thread. */
  datatype Event = WorkerStarted(micId: int) | WorkerJoined

  /** The session as the button shows it. */
  datatype Phase = Idle | Recording | Stopping

  class Controller {
    /** `is_transcribing`. */
    var isTranscribing: bool
    /** The value of the current shared `stop_flag`. */
    var stopFlag: bool
    /** Whether `transcription_thread` and `stop_flag` have been set by a first start. */
    var hasWorker: bool
    /** Stop callbacks scheduled on the timer that have not run yet. */
    var pendingStops: nat
    /** Worker starts and joins, in order. */
    ghost var events: seq<Event>

    /** A set stop flag means a stop is on its way; a running or stopping session
        has a worker, and a worker exists exactly when one was started. */
    ghost predicate Valid()
      reads this
    {
      && (stopFlag ==> isTranscribing && pendingStops > 0)
      && (isTranscribing || pendingStops > 0 ==> hasWorker)
      && (hasWorker <==> exists i :: 0 <= i < |events| && events[i].WorkerStarted?)
    }

    /** The phase the button shows: idle when not transcribing, stopping while a
        raised stop flag waits for its callback, recording otherwise. */
    function CurrentPhase(): Phase
      reads this
    {
      if !isTranscribing then Idle else if stopFlag then Stopping else Recording
    }

    /** The state when the application starts: nothing running, no worker yet. */
    constructor ()
      ensures Valid()
      ensures !isTranscribing && !stopFlag && !hasWorker && pendingStops == 0 && events == []
    {
      isTranscribing, stopFlag, hasWorker, pendingStops := false, false, false, 0;
      events := [];
    }

    /** `toggle_transcription`, with `micId` the drop-down's active index (-1 when
        nothing is selected). While transcribing it raises the stop flag and
        schedules one more stop callback; otherwise, with a device selected, it
        marks the session running, creates a fresh lowered stop flag and starts a
        worker for that device; with no device selected it does nothing. */
    method Toggle(micId: int)
      requires Valid()
      modifies this
      ensures Valid()
      ensures old(isTranscribing) ==>
        && isTranscribing && stopFlag && pendingStops == old(pendingStops) + 1
        && hasWorker && events == old(events)
      ensures !old(isTranscribing) && micId != -1 ==>
        && isTranscribing && !stopFlag && pendingStops == old(pendingStops)
        && hasWorker && events == old(events) + [WorkerStarted(micId)]
      ensures !old(isTranscribing) && micId == -1 ==>
        && isTranscribing == old(isTranscribing) && stopFlag == old(stopFlag)
        && pendingStops == old(pendingStops) && hasWorker == old(hasWorker) && events == old(events)
      ensures old(CurrentPhase()) == Idle && micId != -1 ==> CurrentPhase() == Recording
      ensures old(CurrentPhase()) == Idle && micId == -1 ==> CurrentPhase() == Idle
      ensures old(CurrentPhase()) != Idle ==> CurrentPhase() == Stopping
    {
      if isTranscribing {
        stopFlag := true;
        pendingStops := pendingStops + 1;
      } else if micId != -1 {
        isTranscribing := true;
        stopFlag := false;
        hasWorker := true;
        events := events + [WorkerStarted(micId)];
        assert events[|events| - 1].WorkerStarted?;
      }
    }

    /** `stopTranscribe`, run by the timer for one scheduled stop: join the current
        worker, lower the stop flag, mark the session stopped, and answer `false`
        so that the timer does not fire again. */
    method StopTranscribe() returns (again: bool)
      requires Valid() && pendingStops > 0
      modifies this
      ensures Valid()
      ensures !again
      ensures && !isTranscribing && !stopFlag && hasWorker
              && pendingStops == old(pendingStops) - 1
              && events == old(events) + [WorkerJoined]
      ensures CurrentPhase() == Idle
    {
      events := events + [WorkerJoined];
      assert forall i :: 0 <= i < |old(events)| ==> events[i] == old(events)[i];
      stopFlag := false;
      isTranscribing := false;
      pendingStops := pendingStops - 1;
      again := false;
    }
  }

  /** A Start click, a Stop click and the stop callback take the session from idle
      through recording and stopping back to idle, starting and joining one worker. */
  method StartStopCycle(micId: int) returns (phases: seq<Phase>, ghost log: seq<Event>, left: nat)
    requires micId != -1
    ensures phases == [Idle, Recording, Stopping, Idle]
    ensures log == [WorkerStarted(micId), WorkerJoined]
    ensures left == 0
  {
    var c := new Controller();
    phases := [c.CurrentPhase()];
    c.Toggle(micId);
    phases := phases + [c.CurrentPhase()];
    c.Toggle(micId);
    phases := phases + [c.CurrentPhase()];
    var again := c.StopTranscribe();
    phases := phases + [c.CurrentPhase()];
    log := c.events;
    left := c.pendingStops;
  }

  /** Stop clicked twice before the timer fires schedules two callbacks. The first
      ends the session; a Start in between begins a new one, and the second callback,
      when it fires, joins that new worker and ends the new session at once. */
  method DoubleStopThenStart(micId: int) returns (phases: seq<Phase>, ghost log: seq<Event>)
    requires micId != -1
    ensures phases == [Recording, Stopping, Stopping, Idle, Recording, Idle]
    ensures log == [WorkerStarted(micId), WorkerJoined, WorkerStarted(micId), WorkerJoined]
  {
    var c := new Controller();
    c.Toggle(micId);
    phases := [c.CurrentPhase()];
    c.Toggle(micId);
    phases := phases + [c.CurrentPhase()];
    c.Toggle(micId);
    phases := phases + [c.CurrentPhase()];
    var again := c.StopTranscribe();
    phases := phases + [c.CurrentPhase()];
    c.Toggle(micId);
    phases := phases + [c.CurrentPhase()];
    again := c.StopTranscribe();
    phases := phases + [c.CurrentPhase()];
    log := c.events;
  }
}
