# Point-cloud acquisition in agimus-hpp, modelled in Dafny

`hpp::agimus::PointCloud` captures one ROS `sensor_msgs/PointCloud2`
message, turns it into an `N x 3` matrix of coordinates and attaches the
resulting octree to the robot as a collision object. This project models
the part of it with its own logic:

- the field-table check `checkFields`: at least three fields, the first
  three named `x`, `y`, `z` in that order (module `Fields`, `fields.dfy`);
- the decoding done by the callback `pointCloudCb`: `height * width`
  points in row-major order, point `i` read from the record at byte
  `i * point_step`, each coordinate a 4-byte float at the offset of field
  0, 1 or 2 (module `Decoding`, `decoding.dfy`; the message types and
  the byte-to-float read are in module `Messages`, `messages.dfy`);
- the acquisition state of the object: the node handle created by
  `initializeRosNode` and released by `shutdownRos`, the wait flag
  `waitingForData_` and the wait loop of `getPointCloud`, which stops at
  the deadline or once the callback has cleared the flag (module
  `Acquisition`, `acquisition.dfy`, as pure functions over a `State`
  value, with the lemmas);
- the object itself (module `Agimus`, `agimus.dfy`): a class with the
  fields `handle`, `waiting`, `points` and `attached`. Its methods update
  them step by step as the C++ does, including the nested row/column loop
  of the callback. Each method is proved to end in the state that the
  matching function of `Acquisition` computes.

Time and message delivery are inputs. `getPointCloud` reads the clock once
before its loop (`begin`). Each pass of the loop is a `Tick`: the clock
reading compared with the deadline, then the message (zero or one) that
`ros::spinOnce` hands to the callback. A float is kept as the four bytes
of its in-memory image (`F32`). No IEEE arithmetic is involved: the
callback only copies floats, and widening a `float` to `double` is exact
for every value except a signalling NaN, which becomes a quiet one.

`pointCloudCb` clears `waitingForData_` before it calls `checkFields`
(src/point-cloud.cc:165-166), so the first message delivered ends the wait
whether it is valid or not. An invalid one makes `getPointCloud` fail with
`invalid_argument`. The model assumes that an exception thrown inside the
callback propagates out of `ros::spinOnce` and out of `getPointCloud`,
since the C++ contains no handler for it.

The decoder relies on facts that the code never checks. There must be a
record of `point_step` bytes for each of the `height * width` points, and
each coordinate must lie inside its record. The point count, which the code
computes in 32 bits, must not wrap around. These facts are the precondition
`Decodable`, and it is only required of a message that reaches the
decoder: one delivered while a capture is waiting and that passes the field
check. The decoder ignores `row_step`, `is_bigendian`, `is_dense` and the
`datatype` and `count` of each field. The model carries these fields and
ignores them too.

## Model

| member | source | states |
|---|---|---|
| `Fields.CheckFields` | src/point-cloud.cc:132-160 | The result is `Pass` exactly when there are at least three fields and the first three are named x, y, z. Fewer than three fields is reported as `WrongNumberOfFields` with the count, and only then. Otherwise the report is the earliest of positions 0, 1, 2 whose name is wrong, with the expected name and the name found; `Fields.FirstMismatchUnique` shows that position is unique. |
| `Fields.LaterFieldsIgnored` | src/point-cloud.cc:142-159 | Two tables with at least three fields whose first three names agree get the same verdict, whatever their later fields are. |
| `Decoding.Decode` | src/point-cloud.cc:167-181 | The matrix has exactly `height * width` rows. |
| `Decoding.DecodeAt` | src/point-cloud.cc:167-179 | Entry `i` of the matrix is the point whose record starts at byte `i * point_step`, and that record lies inside the buffer. |
| `Decoding.CellIsRowMajor` | src/point-cloud.cc:170-181 | The cell at row `row`, column `col` is entry `row * width + col`. It is read from the record at byte `row * width * point_step + col * point_step`, which lies inside the buffer. |
| `Decoding.EntryHasCell` | src/point-cloud.cc:170-171 | Every entry `i` of the matrix is the cell at row `i / width`, column `i % width`, and that cell lies inside the grid. |
| `Messages.ReadF32` | src/point-cloud.cc:172-177 | No contract of its own; `Messages.ReadF32Image` states what it reads. |
| `Messages.ReadF32Image` | src/point-cloud.cc:172-177 | The float read at byte `off` is made of the four bytes `off` to `off + 3` of the buffer, in buffer order. |
| `Decoding.PointAt` | src/point-cloud.cc:172-177 | The three coordinate reads lie inside the buffer. `Decoding.PointAtReadsRecord` states that the point depends only on its own record. |
| `Decoding.PointAtReadsRecord` | src/point-cloud.cc:172-177 | Two messages with the same field table and record size whose records at `base` hold the same bytes give the same point there: nothing outside the record is read. |
| `Acquisition.Init` | src/point-cloud.cc:84-88 | After `initializeRosNode` a handle exists. The call returns true exactly when there was none before. Nothing but the handle changes. |
| `Acquisition.InitCreatesOnce` | src/point-cloud.cc:84-88 | A second `initializeRosNode` returns false and changes nothing. |
| `Acquisition.Shutdown` | src/point-cloud.cc:91-97 | After `shutdownRos` there is no handle and nothing else has changed. |
| `Acquisition.ShutdownIdempotent` | src/point-cloud.cc:91-97 | A second `shutdownRos` changes nothing. |
| `Acquisition.Receive` | src/point-cloud.cc:162-182 | The callback never touches the handle or the attached objects, and the flag is always clear afterwards. A rejection happens only while waiting and leaves the matrix unchanged. `ReceiveWhenIdle`, `ReceiveWhenWaiting`, `ReceiveConsumesOne` and `Agimus.PointCloud.PointCloudCb` state the rest. |
| `Acquisition.ReceiveWhenIdle` | src/point-cloud.cc:164 | When no capture is waiting, the callback changes nothing and throws nothing. |
| `Acquisition.ReceiveWhenWaiting` | src/point-cloud.cc:165-181 | A waiting callback always clears the flag and reports the field check's verdict. On a rejection the matrix is unchanged. On acceptance the matrix becomes the decoded message and nothing else changes. |
| `Acquisition.ReceiveConsumesOne` | src/point-cloud.cc:164-166 | After one callback, any later callback is a no-op, so at most one message is consumed per wait. |
| `Acquisition.Poll` | src/point-cloud.cc:113-120 | A message that ends the wait was delivered on a pass before the deadline. `PollStopsAtFirstEvent` states which pass ends it. |
| `Acquisition.StopTick` | src/point-cloud.cc:113-120 | The wait loop stops at a pass inside the tick sequence. That pass is past the deadline or delivers a message, and no earlier pass does either. |
| `Acquisition.PollStopsAtFirstEvent` | src/point-cloud.cc:113-120 | The wait ends at that first eventful pass. It times out if the pass is past the deadline, even when a message was pending, and otherwise it consumes that pass's message. |
| `Acquisition.PollIgnoresLaterTicks` | src/point-cloud.cc:113-120 | Two tick sequences that agree up to and including the stopping pass end the wait the same way. Passes after it have no influence. |
| `Acquisition.OctreeName` | src/point-cloud.cc:208 | The object name is the octree frame followed by `/octree`. |
| `Acquisition.Attach` | src/point-cloud.cc:195-214 | Only the attached objects can change. Attaching succeeds exactly when there is a robot and then adds `<octreeFrame>/octree`. Without a robot it throws `logic_error` and changes nothing. |
| `Acquisition.Capture` | src/point-cloud.cc:99-130 | A capture keeps the handle. It changes the matrix only when a message was consumed. It attaches nothing, or exactly `<octreeFrame>/octree` when it returns true. The lemmas `CaptureNeedsHandle` to `CaptureNeedsRobot` state each outcome. |
| `Acquisition.CaptureNeedsHandle` | src/point-cloud.cc:104-105 | Without a handle `getPointCloud` throws `logic_error("Initialize ROS first")` and changes nothing. |
| `Acquisition.CaptureClearsFlag` | src/point-cloud.cc:107-125 | Whatever the outcome, a capture that had a handle returns with the flag cleared and the handle kept. |
| `Acquisition.CaptureTimesOut` | src/point-cloud.cc:113-125 | The capture returns false exactly when the stopping pass is past the deadline. It then only clears the flag: the matrix is untouched and nothing is attached. |
| `Acquisition.CaptureSucceeds` | src/point-cloud.cc:113-129 | The capture returns true exactly when, with a handle and a robot, the stopping pass is before the deadline and delivers a message whose table starts x, y, z. The matrix is then that message's decoding. Exactly one geometry object, `<octreeFrame>/octree`, is added. |
| `Acquisition.CaptureRejectsFields` | src/point-cloud.cc:162-166 | The capture throws `invalid_argument` exactly when the consumed message fails the field check, and the reason is that check's report. The flag is cleared and nothing else changes. |
| `Acquisition.CaptureNeedsRobot` | src/point-cloud.cc:126-128 | The capture throws `logic_error` for a missing robot exactly when, with a handle, the stopping pass is before the deadline and delivers a message whose table starts x, y, z. The flag is then cleared and the matrix already holds that message's decoding (src/point-cloud.cc:165-181, 195-199). Nothing is attached. |
| `Agimus.PointCloud.constructor` | src/point-cloud.cc:184-188 | A new object has no handle, is not waiting, has an empty matrix and has attached nothing. |
| `Agimus.PointCloud.InitializeRosNode` | src/point-cloud.cc:74-89 | Updates the handle field and returns exactly what `Acquisition.Init` computes from the old state. |
| `Agimus.PointCloud.ShutdownRos` | src/point-cloud.cc:91-97 | Updates the handle field exactly as `Acquisition.Shutdown` computes from the old state. |
| `Agimus.PointCloud.PointCloudCb` | src/point-cloud.cc:162-182 | The flag check, the clearing of the flag and the field check run first. Then the matrix is resized and filled by the nested row/column loop, which advances a point counter by one and a byte cursor by `point_step`. The new state and the outcome are exactly `Acquisition.Receive` of the old state. |
| `Agimus.PointCloud.AttachOctreeToRobot` | src/point-cloud.cc:195-214 | Throws `logic_error` when there is no robot. Otherwise it adds one geometry object named `<octreeFrame>/octree` (`Acquisition.Attach`). |
| `Agimus.PointCloud.GetPointCloud` | src/point-cloud.cc:99-130 | The handle check comes first. Then the flag is set and the polling loop runs over the clock readings, calling the callback on each delivered message. After it come the timeout reset and the attach. The new state and the result are exactly `Acquisition.Capture` of the old state. |

## Left out

- `ros::init`, `ros::isInitialized` and the node name and anonymity options of `initializeRosNode` (src/point-cloud.cc:76-82) are not modelled. Only the handle's existence is.
- Agimus.PointCloud.InitializeRosNode: the handle is a flag. That later calls keep the same handle object is stated as the flag staying set with nothing else changing. Pointer identity is not represented.
- The `boost::mutex` that `shutdownRos` takes (src/point-cloud.cc:94) is not modelled: the model is single-threaded.
- The destructor `~PointCloud` (src/point-cloud.cc:69-72) only calls `shutdownRos`. Dafny has no destructors.
- `ros::Subscriber` creation and lifetime, `ros::spinOnce`, `ros::Duration::sleep` and `ros::Time::now` are not modelled. They are replaced by the `begin` reading and the `Tick` sequence.
- Agimus.PointCloud.GetPointCloud: requires that the last clock reading is past the deadline (`ReachesDeadline`). A run in which no message arrives and the clock never reaches the deadline (the C++ then waits forever) is outside the model. A run that ends on a message is represented by appending one expired pass, which `Acquisition.PollIgnoresLaterTicks` shows has no effect.
- `hpp::fcl::makeOctree` (src/point-cloud.cc:127) and the `resolution`, `sensorFrame`, `topic` and `configuration` parameters are external. A successful capture leaves the matrix that would be handed to it.
- Agimus.PointCloud.AttachOctreeToRobot: forward kinematics, frame lookup (and the exceptions it can throw), the SE3 placement, graph invalidation, problem reset and the viewer display (src/point-cloud.cc:200-223) are foreign calls. Only the "no robot" error and the inserted object's name are modelled.
- `displayOctree` and `toGepettoTransform` (src/point-cloud.cc:56-66, 225-266) are viewer I/O and are not modelled.
- The text of exception messages is not modelled. The error values carry what the messages report: the field count, or the expected and actual names.
- Eigen's `resize` leaves the matrix uninitialised. The model fills it with a zero point that the loop then overwrites entirely.
- The 32-bit computation of `height * width` is not modelled as wrapping around. A message whose point count does not fit in 32 bits falls outside `Decodable`.
- What real number a float's byte image denotes (IEEE 754) is not modelled. Nor is the quieting of a signalling NaN when it is widened to `double`: such an image is kept as read.
- The deadline test `now - begin >= timeOut` (src/point-cloud.cc:112-115) is computed in `double`, but `Expired` compares exact reals. Rounding is not modelled. Neither is a NaN or infinite `timeOut`, for which the C++ test never fires.
- src/server.cc (CORBA servant factories) and src/agimus_hpp/estimation.py (a ROS/CORBA client with callbacks and a mutex) are not part of this model.
