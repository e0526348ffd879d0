/**
 The sensor message that the point-cloud callback receives: a ROS
 `sensor_msgs/PointCloud2` with its table of `sensor_msgs/PointField`
 records and its raw byte buffer.
 */
module Messages {

  /** One byte of the message buffer (`uint8_t`). */
  newtype byte = x: int | 0 <= x < 256

  /** Bound of the 32-bit unsigned integers the message uses for its sizes. */
  const UINT32_LIMIT: int := 0x1_0000_0000

  /**
   A single-precision float, kept as the four bytes of its in-memory image in
   buffer order. The decoder reinterprets those bytes as a `float` and widens it
   to `double`, which is exact for every value but a signalling NaN (it becomes
   a quiet one); which real number the image stands for is not part of this
   model.
   */
  datatype F32 = F32(b0: byte, b1: byte, b2: byte, b3: byte)

  /** One row of the point matrix: the x, y and z coordinates. */
  type Point = (F32, F32, F32)

  /** `sensor_msgs/PointField`: a named field at a byte offset inside each point record. */
  datatype PointField = PointField(name: string, offset: nat, datatypeId: byte, count: nat)

  /** `sensor_msgs/PointCloud2` (the header is left out). */
  datatype PointCloud2 = PointCloud2(
    height: nat,
    width: nat,
    fields: seq<PointField>,
    isBigendian: bool,
    pointStep: nat,
    rowStep: nat,
    data: seq<byte>,
    isDense: bool)

  /** The float whose image starts at byte `off` of `buf` (`*(const float*)(ptr + off)`). */
  function ReadF32(buf: seq<byte>, off: nat): (f: F32)
    requires off + 4 <= |buf|
  {
    F32(buf[off], buf[off + 1], buf[off + 2], buf[off + 3])
  }

  /** The float read at `off` is made of the four bytes `off .. off + 4`, in buffer order. */
  lemma ReadF32Image(buf: seq<byte>, off: nat)
    requires off + 4 <= |buf|
    ensures var f := ReadF32(buf, off); [f.b0, f.b1, f.b2, f.b3] == buf[off..off + 4]
  {
  }
}
