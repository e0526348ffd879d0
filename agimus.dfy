/**
 `hpp::agimus::PointCloud` as an object whose methods update its fields in
 place, each proved to end in the state that module Acquisition computes
 for it. The ROS node handle is represented by whether it exists.
 */
module Agimus {
  import opened Messages
  import opened Fields
  import opened Decoding
  import opened Acquisition

  /** The value a resized point matrix holds before it is filled. */
  const ZERO_POINT: Point := (F32(0, 0, 0, 0), F32(0, 0, 0, 0), F32(0, 0, 0, 0))

  class PointCloud {
    var handle: bool
    var waiting: bool
    var points: seq<Point>
    var attached: seq<string>

    /** The object's fields as an acquisition state. */
    function State(): State
      reads this
    {
      Acquisition.State(handle, waiting, points, attached)
    }

    constructor ()
      ensures State() == Initial
    {
      handle, waiting, points, attached := false, false, [], [];
    }

    /** `initializeRosNode` (the call to `ros::init` is not modelled). */
    method InitializeRosNode() returns (created: bool)
      modifies this
      ensures (State(), created) == Init(old(State()))
    {
      created := false;
      if !handle {
        handle := true;
        created := true;
      }
    }

    /** `shutdownRos` (the mutex it takes is not modelled). */
    method ShutdownRos()
      modifies this
      ensures State() == Shutdown(old(State()))
    {
      if !handle {
        return;
      }
      handle := false;
    }

    /**
     `pointCloudCb`: ignored unless waiting; clears the flag before checking
     the field table, so a rejected message still ends the wait; then resizes
     the matrix to `height * width` rows and fills it row by row, column by
     column, advancing the point counter by one and the byte cursor by
     `pointStep`.
     */
    method PointCloudCb(m: PointCloud2) returns (o: Outcome)
      requires waiting ==> Decodable(m)
      modifies this
      ensures (State(), o) == Receive(old(State()), m)
    {
      if !waiting {
        return Pass;
      }
      waiting := false;
      o := CheckFields(m.fields);
      if o.Fail? {
        return;
      }
      assert Sized(m);
      ghost var decoded := Decode(m);
      var iPoint: nat, ptr: nat := 0, 0;
      points := seq(m.height * m.width, _ => ZERO_POINT);
      var row: nat := 0;
      while row < m.height
        modifies this`points
        invariant row <= m.height
        invariant iPoint == Advance(row, m.width) && ptr == Advance(iPoint, m.pointStep)
        invariant iPoint <= |decoded|
        invariant |points| == |decoded|
        invariant forall i :: 0 <= i < iPoint ==> points[i] == decoded[i]
      {
        var col: nat := 0;
        while col < m.width
          modifies this`points
          invariant col <= m.width
          invariant iPoint == Advance(row, m.width) + col && ptr == Advance(iPoint, m.pointStep)
          invariant iPoint <= |decoded|
          invariant |points| == |decoded|
          invariant forall i :: 0 <= i < iPoint ==> points[i] == decoded[i]
        {
          Cursor(m, row, col, iPoint, ptr);
          var p := (ReadF32(m.data, ptr + m.fields[0].offset),
                    ReadF32(m.data, ptr + m.fields[1].offset),
                    ReadF32(m.data, ptr + m.fields[2].offset));
          points := points[iPoint := p];
          iPoint := iPoint + 1;
          ptr := ptr + m.pointStep;
          col := col + 1;
        }
        row := row + 1;
      }
      AllRows(m, row);
      assert points == decoded;
    }

    /** `attachOctreeToRobot`, reduced to the geometry object it inserts. */
    method AttachOctreeToRobot(octreeFrame: string, hasRobot: bool) returns (r: Result<()>)
      modifies this
      ensures (State(), r) == Attach(old(State()), octreeFrame, hasRobot)
    {
      if !hasRobot {
        return Err(LogicError(NO_ROBOT));
      }
      attached := attached + [OctreeName(octreeFrame)];
      return Ok(());
    }

    /**
     `getPointCloud`: the wait loop polls the clock, lets the callback run on
     what each pass delivers, and stops at the deadline or once the flag is
     cleared; the octree construction itself is not modelled.
     */
    method GetPointCloud(octreeFrame: string, hasRobot: bool,
                         begin: real, ticks: seq<Tick>, timeOut: real) returns (r: Result<bool>)
      requires ReachesDeadline(begin, ticks, timeOut)
      requires ConsumedDecodable(begin, ticks, timeOut)
      modifies this
      ensures (State(), r) == Capture(old(State()), octreeFrame, hasRobot, begin, ticks, timeOut)
    {
      if !handle {
        return Err(LogicError(NOT_INITIALIZED));
      }
      waiting := false;
      // subscription to the topic: delivery is given by `ticks`
      waiting := true;
      ghost var wake := Poll(begin, ticks, timeOut);
      var k := 0;
      while waiting
        invariant k < |ticks|
        invariant handle && attached == old(attached)
        invariant waiting ==> points == old(points) && Poll(begin, ticks[k..], timeOut) == wake
        invariant !waiting ==>
          wake.Delivered? && Receive(old(State()).(waiting := true), wake.msg) == (State(), Pass)
        decreases |ticks| - k
      {
        var now := ticks[k].now;
        if now - begin >= timeOut {
          break;
        }
        assert |ticks[k..]| > 1;
        if ticks[k].delivered.Some? {
          var o := PointCloudCb(ticks[k].delivered.value);
          if o.Fail? {
            return Err(InvalidArgument(o.error));
          }
        }
        assert ticks[k..][1..] == ticks[k + 1..];
        k := k + 1;
      }
      if waiting {
        waiting := false;
        return Ok(false);
      }
      var a := AttachOctreeToRobot(octreeFrame, hasRobot);
      if a.Err? {
        return Err(a.error);
      }
      return Ok(true);
    }
  }
}
