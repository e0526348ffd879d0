/**
 The acquisition state of a `hpp::agimus::PointCloud` object and its
 transitions, as pure functions: the node-handle lifecycle
 (`initializeRosNode`, `shutdownRos`), the message callback
 (`pointCloudCb`) and the wait protocol of `getPointCloud`. The class in
 module Agimus runs the same transitions step by step and is proved to
 end in the states computed here.

 Time and message delivery are inputs: `getPointCloud` reads the clock once
 before its loop (`begin`) and then, on each pass, reads it again and lets
 `ros::spinOnce` hand zero or one message to the callback (a `Tick`).
 */
module Acquisition {
  import opened Messages
  import opened Fields
  import opened Decoding

  datatype Option<T> = None | Some(value: T)

  /** The exceptions the modelled operations throw. */
  datatype Error =
    | LogicError(what: string)           // std::logic_error
    | InvalidArgument(cause: FieldError) // std::invalid_argument, from checkFields

  datatype Result<T> = Ok(value: T) | Err(error: Error)

  const NOT_INITIALIZED: string := "Initialize ROS first"
  const NO_ROBOT: string := "There is no robot in the ProblemSolver instance"

  /**
   The fields of a `PointCloud` object that the core updates: whether a node
   handle exists (`handle_ != NULL`), the wait flag (`waitingForData_`), the
   point matrix (`points_`), and the names of the geometry objects it has
   inserted into the robot's geometry model.
   */
  datatype State = State(handle: bool, waiting: bool, points: seq<Point>, attached: seq<string>)

  /** The state the constructor establishes: no handle, not waiting. */
  const Initial: State := State(false, false, [], [])

  /** `initializeRosNode`: creates a handle when there is none; says whether it did. */
  function Init(s: State): (r: (State, bool))
    ensures r.0.handle
    ensures r.1 <==> !s.handle
    ensures r.0.(handle := s.handle) == s
  {
    if s.handle then (s, false) else (s.(handle := true), true)
  }

  /** `shutdownRos`: releases the handle if there is one. */
  function Shutdown(s: State): (s': State)
    ensures !s'.handle
    ensures s'.(handle := s.handle) == s
  {
    s.(handle := false)
  }

  /** Only the call that creates the handle returns true: a second call returns false and changes nothing. */
  lemma InitCreatesOnce(s: State)
    ensures Init(Init(s).0) == (Init(s).0, false)
  {
  }

  /** A second `shutdownRos` changes nothing. */
  lemma ShutdownIdempotent(s: State)
    ensures Shutdown(Shutdown(s)) == Shutdown(s)
  {
  }

  /**
   `pointCloudCb`: ignored unless waiting; otherwise the flag is cleared
   first, then the field table is checked, and only a table that passes
   replaces the point matrix by the decoded message.
   */
  function Receive(s: State, m: PointCloud2): (r: (State, Outcome))
    requires s.waiting ==> Decodable(m)
    ensures r.0.handle == s.handle && r.0.attached == s.attached
    ensures !r.0.waiting
    ensures r.1.Fail? ==> s.waiting && r.0.points == s.points
  {
    if !s.waiting then (s, Pass)
    else
      match CheckFields(m.fields)
      case Fail(e) => (s.(waiting := false), Fail(e))
      case Pass => (s.(waiting := false, points := Decode(m)), Pass)
  }

  /** The callback does nothing at all when no capture is waiting. */
  lemma ReceiveWhenIdle(s: State, m: PointCloud2)
    requires !s.waiting
    ensures Receive(s, m) == (s, Pass)
  {
  }

  /**
   A waiting callback always clears the flag; a rejected message leaves the
   point matrix as it was, an accepted one leaves exactly its decoding.
   */
  lemma ReceiveWhenWaiting(s: State, m: PointCloud2)
    requires Decodable(m) && s.waiting
    ensures !Receive(s, m).0.waiting
    ensures Receive(s, m).1 == CheckFields(m.fields)
    ensures Receive(s, m).1.Fail? ==> Receive(s, m).0 == s.(waiting := false)
    ensures Receive(s, m).1.Pass? ==> Sized(m) && Receive(s, m).0 == s.(waiting := false, points := Decode(m))
  {
  }

  /** At most one message is consumed per wait: any later message is ignored. */
  lemma ReceiveConsumesOne(s: State, m: PointCloud2, later: PointCloud2)
    requires s.waiting ==> Decodable(m)
    ensures Receive(Receive(s, m).0, later) == (Receive(s, m).0, Pass)
  {
  }

  /** One pass of the wait loop: the clock reading, then what `ros::spinOnce` delivered. */
  datatype Tick = Tick(now: real, delivered: Option<PointCloud2>)

  /** The loop's exit test `now - begin >= timeOut`. */
  predicate Expired(begin: real, t: Tick, timeOut: real)
  {
    t.now - begin >= timeOut
  }

  /** The clock reaches the deadline: the last reading is past it. */
  predicate ReachesDeadline(begin: real, ticks: seq<Tick>, timeOut: real)
  {
    |ticks| > 0 && Expired(begin, ticks[|ticks| - 1], timeOut)
  }

  /** Why the wait ended. */
  datatype Wake = TimedOut | Delivered(msg: PointCloud2)

  /**
   The wait loop: a pass whose clock reading is past the deadline ends it;
   otherwise the message of that pass, if any, clears the flag and ends it.
   */
  function Poll(begin: real, ticks: seq<Tick>, timeOut: real): (w: Wake)
    requires ReachesDeadline(begin, ticks, timeOut)
    ensures w.Delivered? ==>
      exists k :: 0 <= k < |ticks| && !Expired(begin, ticks[k], timeOut) && ticks[k].delivered == Some(w.msg)
    decreases |ticks|
  {
    if Expired(begin, ticks[0], timeOut) then TimedOut
    else if ticks[0].delivered.Some? then Delivered(ticks[0].delivered.value)
    else Poll(begin, ticks[1..], timeOut)
  }

  /** No pass before `k` was past the deadline or delivered a message. */
  predicate QuietBefore(begin: real, ticks: seq<Tick>, timeOut: real, k: nat)
  {
    k <= |ticks|
    && forall j :: 0 <= j < k ==> !Expired(begin, ticks[j], timeOut) && ticks[j].delivered.None?
  }

  /** The pass at which the wait loop stops: the first one past the deadline or with a message. */
  function StopTick(begin: real, ticks: seq<Tick>, timeOut: real): (k: nat)
    requires ReachesDeadline(begin, ticks, timeOut)
    ensures k < |ticks|
    ensures QuietBefore(begin, ticks, timeOut, k)
    ensures Expired(begin, ticks[k], timeOut) || ticks[k].delivered.Some?
    decreases |ticks|
  {
    if Expired(begin, ticks[0], timeOut) || ticks[0].delivered.Some? then 0
    else 1 + StopTick(begin, ticks[1..], timeOut)
  }

  /**
   The wait ends at the first eventful pass: with a timeout when that pass
   is past the deadline (even if a message was pending), else with that
   pass's message.
   */
  lemma {:induction false} PollStopsAtFirstEvent(begin: real, ticks: seq<Tick>, timeOut: real)
    requires ReachesDeadline(begin, ticks, timeOut)
    ensures var k := StopTick(begin, ticks, timeOut);
      Poll(begin, ticks, timeOut) ==
        if Expired(begin, ticks[k], timeOut) then TimedOut else Delivered(ticks[k].delivered.value)
  {
    if !Expired(begin, ticks[0], timeOut) && ticks[0].delivered.None? {
      PollStopsAtFirstEvent(begin, ticks[1..], timeOut);
    }
  }

  /** Passes after the one where the wait stops have no influence on it. */
  lemma {:induction false} PollIgnoresLaterTicks(begin: real, ticks: seq<Tick>, other: seq<Tick>, timeOut: real)
    requires ReachesDeadline(begin, ticks, timeOut) && ReachesDeadline(begin, other, timeOut)
    requires StopTick(begin, ticks, timeOut) < |other|
    requires ticks[..StopTick(begin, ticks, timeOut) + 1] == other[..StopTick(begin, ticks, timeOut) + 1]
    ensures Poll(begin, other, timeOut) == Poll(begin, ticks, timeOut)
  {
    assert ticks[0] == ticks[..StopTick(begin, ticks, timeOut) + 1][0];
    if !Expired(begin, ticks[0], timeOut) && ticks[0].delivered.None? {
      var k := StopTick(begin, ticks, timeOut);
      assert ticks[1..][..k] == ticks[..k + 1][1..];
      assert other[1..][..k] == other[..k + 1][1..];
      PollIgnoresLaterTicks(begin, ticks[1..], other[1..], timeOut);
    }
  }

  /** The message the wait consumes, if any, is one the callback can decode safely. */
  predicate ConsumedDecodable(begin: real, ticks: seq<Tick>, timeOut: real)
    requires ReachesDeadline(begin, ticks, timeOut)
  {
    Poll(begin, ticks, timeOut).Delivered? ==> Decodable(Poll(begin, ticks, timeOut).msg)
  }

  /** The name of the geometry object that holds the octree built in frame `octreeFrame`. */
  function OctreeName(octreeFrame: string): (name: string)
    ensures |name| == |octreeFrame| + 7
    ensures name[..|octreeFrame|] == octreeFrame && name[|octreeFrame|..] == "/octree"
  {
    octreeFrame + "/octree"
  }

  /**
   `attachOctreeToRobot`, reduced to what it does to this model: it fails
   when the problem solver has no robot, and otherwise inserts one geometry
   object named after the octree frame.
   */
  function Attach(s: State, octreeFrame: string, hasRobot: bool): (r: (State, Result<()>))
    ensures r.0.(attached := s.attached) == s
    ensures r.1.Ok? <==> hasRobot
    ensures r.1.Err? ==> r.1.error == LogicError(NO_ROBOT) && r.0 == s
    ensures r.1.Ok? ==> r.0.attached == s.attached + [OctreeName(octreeFrame)]
  {
    if !hasRobot then (s, Err(LogicError(NO_ROBOT)))
    else (s.(attached := s.attached + [OctreeName(octreeFrame)]), Ok(()))
  }

  /**
   `getPointCloud`: refuses without a handle; otherwise sets the flag and
   waits. A timeout resets the flag and returns false; a consumed message
   that fails the field check propagates its `invalid_argument`; an accepted
   one is attached to the robot and the call returns true.
   */
  function Capture(s: State, octreeFrame: string, hasRobot: bool,
                   begin: real, ticks: seq<Tick>, timeOut: real): (r: (State, Result<bool>))
    requires ReachesDeadline(begin, ticks, timeOut)
    requires ConsumedDecodable(begin, ticks, timeOut)
    ensures r.0.handle == s.handle
    ensures r.0.points == s.points || Poll(begin, ticks, timeOut).Delivered?
    ensures r.0.attached == s.attached || (r.1 == Ok(true) && r.0.attached == s.attached + [OctreeName(octreeFrame)])
  {
    if !s.handle then (s, Err(LogicError(NOT_INITIALIZED)))
    else
      match Poll(begin, ticks, timeOut)
      case TimedOut => (s.(waiting := false), Ok(false))
      case Delivered(m) =>
        var (s', o) := Receive(s.(waiting := true), m);
        if o.Fail? then (s', Err(InvalidArgument(o.error)))
        else
          var (s'', a) := Attach(s', octreeFrame, hasRobot);
          if a.Err? then (s'', Err(a.error)) else (s'', Ok(true))
  }

  /** Without a handle the capture throws `logic_error` and changes nothing. */
  lemma CaptureNeedsHandle(s: State, octreeFrame: string, hasRobot: bool,
                           begin: real, ticks: seq<Tick>, timeOut: real)
    requires ReachesDeadline(begin, ticks, timeOut) && ConsumedDecodable(begin, ticks, timeOut)
    requires !s.handle
    ensures Capture(s, octreeFrame, hasRobot, begin, ticks, timeOut) == (s, Err(LogicError(NOT_INITIALIZED)))
  {
  }

  /** Whatever the outcome, a capture that had a handle returns with the flag cleared and the handle kept. */
  lemma CaptureClearsFlag(s: State, octreeFrame: string, hasRobot: bool,
                          begin: real, ticks: seq<Tick>, timeOut: real)
    requires ReachesDeadline(begin, ticks, timeOut) && ConsumedDecodable(begin, ticks, timeOut)
    requires s.handle
    ensures var s' := Capture(s, octreeFrame, hasRobot, begin, ticks, timeOut).0;
      s'.handle && !s'.waiting
  {
  }

  /**
   The capture returns false exactly when the first eventful pass is past
   the deadline; it then only clears the flag: the point matrix and the
   robot's geometry are untouched.
   */
  lemma CaptureTimesOut(s: State, octreeFrame: string, hasRobot: bool,
                        begin: real, ticks: seq<Tick>, timeOut: real)
    requires ReachesDeadline(begin, ticks, timeOut) && ConsumedDecodable(begin, ticks, timeOut)
    ensures var (s', r) := Capture(s, octreeFrame, hasRobot, begin, ticks, timeOut);
      var k := StopTick(begin, ticks, timeOut);
      (r == Ok(false) <==> s.handle && Expired(begin, ticks[k], timeOut))
      && (r == Ok(false) ==> s' == s.(waiting := false))
  {
    PollStopsAtFirstEvent(begin, ticks, timeOut);
  }

  /**
   The capture returns true exactly when a message arrived before the
   deadline, after only empty passes, with an x, y, z field table, and a
   robot was there to attach to; the point matrix is then that message's
   decoding and exactly one geometry object, `<octreeFrame>/octree`, is added.
   */
  lemma CaptureSucceeds(s: State, octreeFrame: string, hasRobot: bool,
                        begin: real, ticks: seq<Tick>, timeOut: real)
    requires ReachesDeadline(begin, ticks, timeOut) && ConsumedDecodable(begin, ticks, timeOut)
    ensures var (s', r) := Capture(s, octreeFrame, hasRobot, begin, ticks, timeOut);
      var k := StopTick(begin, ticks, timeOut);
      (r == Ok(true) <==>
        s.handle && hasRobot && !Expired(begin, ticks[k], timeOut)
        && HasXyzPrefix(ticks[k].delivered.value.fields))
      && (r == Ok(true) ==>
        Sized(ticks[k].delivered.value)
        && s' == s.(waiting := false, points := Decode(ticks[k].delivered.value),
                    attached := s.attached + [octreeFrame + "/octree"]))
  {
    PollStopsAtFirstEvent(begin, ticks, timeOut);
  }

  /**
   A consumed message whose field table is wrong makes the capture throw
   the field check's `invalid_argument`; the flag is cleared and nothing
   else changes.
   */
  lemma CaptureRejectsFields(s: State, octreeFrame: string, hasRobot: bool,
                             begin: real, ticks: seq<Tick>, timeOut: real)
    requires ReachesDeadline(begin, ticks, timeOut) && ConsumedDecodable(begin, ticks, timeOut)
    ensures var (s', r) := Capture(s, octreeFrame, hasRobot, begin, ticks, timeOut);
      var k := StopTick(begin, ticks, timeOut);
      (r.Err? && r.error.InvalidArgument? <==>
        s.handle && !Expired(begin, ticks[k], timeOut)
        && CheckFields(ticks[k].delivered.value.fields).Fail?)
      && (r.Err? && r.error.InvalidArgument? ==>
        r.error.cause == CheckFields(ticks[k].delivered.value.fields).error
        && s' == s.(waiting := false))
  {
    PollStopsAtFirstEvent(begin, ticks, timeOut);
  }

  /**
   Without a robot the capture throws `logic_error`, but only after a valid
   message has been consumed: the flag is cleared and the point matrix
   already holds that message's decoding; nothing is attached.
   */
  lemma CaptureNeedsRobot(s: State, octreeFrame: string, hasRobot: bool,
                          begin: real, ticks: seq<Tick>, timeOut: real)
    requires ReachesDeadline(begin, ticks, timeOut) && ConsumedDecodable(begin, ticks, timeOut)
    ensures var (s', r) := Capture(s, octreeFrame, hasRobot, begin, ticks, timeOut);
      var k := StopTick(begin, ticks, timeOut);
      (r == Err(LogicError(NO_ROBOT)) <==>
        s.handle && !hasRobot && !Expired(begin, ticks[k], timeOut)
        && HasXyzPrefix(ticks[k].delivered.value.fields))
      && (r == Err(LogicError(NO_ROBOT)) ==>
        Sized(ticks[k].delivered.value)
        && s' == s.(waiting := false, points := Decode(ticks[k].delivered.value)))
  {
    PollStopsAtFirstEvent(begin, ticks, timeOut);
  }
}
