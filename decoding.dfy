/**
 Conversion of a point-cloud message into the point matrix (the body of
 `PointCloud::pointCloudCb` after the field check): `height * width` points
 in row-major order, point `i` read from the record that starts at byte
 `i * pointStep`, its coordinates at the offsets of fields 0, 1 and 2.
 */
module Decoding {
  import opened Messages
  import opened Fields

  /**
   The layout the decoder relies on without checking it: every coordinate
   lies inside its point record, the buffer holds all `height * width`
   records, and the point count fits the 32-bit counter it is computed in.
   */
  predicate Sized(m: PointCloud2)
  {
    && |m.fields| >= 3
    && (forall k :: 0 <= k < 3 ==> m.fields[k].offset + 4 <= m.pointStep)
    && m.height * m.width < UINT32_LIMIT
    && m.height * m.width * m.pointStep <= |m.data|
  }

  /** A message the callback can be given: one that passes the field check is laid out as `Sized` says. */
  predicate Decodable(m: PointCloud2)
  {
    HasXyzPrefix(m.fields) ==> Sized(m)
  }

  /** Multiplication by a natural number is monotonic. */
  lemma MulLeft(a: nat, b: nat, c: nat)
    requires a <= b
    ensures a * c <= b * c
  {
  }

  /** One more factor adds one more `b`. */
  lemma MulSucc(a: nat, b: nat)
    ensures (a + 1) * b == a * b + b
  {
  }

  /** The record of point `i` lies inside the buffer. */
  lemma RecordInBuffer(m: PointCloud2, i: nat)
    requires Sized(m) && i < m.height * m.width
    ensures i * m.pointStep + m.pointStep <= |m.data|
  {
    MulLeft(i + 1, m.height * m.width, m.pointStep);
  }

  /** The point whose record starts at byte `base`: the floats at the offsets of fields 0, 1, 2. */
  function PointAt(m: PointCloud2, base: nat): (p: Point)
    requires Sized(m) && base + m.pointStep <= |m.data|
    ensures forall k :: 0 <= k < 3 ==> base + m.fields[k].offset + 4 <= |m.data|
  {
    (ReadF32(m.data, base + m.fields[0].offset),
     ReadF32(m.data, base + m.fields[1].offset),
     ReadF32(m.data, base + m.fields[2].offset))
  }

  /**
   A point depends only on the bytes of its own record: two messages with
   the same field table and record size whose records at `base` agree give
   the same point there.
   */
  lemma PointAtReadsRecord(m: PointCloud2, m': PointCloud2, base: nat)
    requires Sized(m) && base + m.pointStep <= |m.data|
    requires Sized(m') && base + m'.pointStep <= |m'.data|
    requires m'.fields == m.fields && m'.pointStep == m.pointStep
    requires m'.data[base..base + m.pointStep] == m.data[base..base + m.pointStep]
    ensures PointAt(m', base) == PointAt(m, base)
  {
  }

  /** The point matrix of a message: point `i` is read from the record at `i * pointStep`. */
  function Decode(m: PointCloud2): (pts: seq<Point>)
    requires Sized(m)
    ensures |pts| == m.height * m.width
  {
    seq(m.height * m.width, i requires 0 <= i < m.height * m.width =>
      RecordInBuffer(m, i); PointAt(m, i * m.pointStep))
  }

  /** Point `i` of the matrix is the point whose record starts at byte `i * pointStep`. */
  lemma DecodeAt(m: PointCloud2, i: nat)
    requires Sized(m) && i < m.height * m.width
    ensures i * m.pointStep + m.pointStep <= |m.data|
    ensures Decode(m)[i] == PointAt(m, i * m.pointStep)
  {
    RecordInBuffer(m, i);
  }

  /**
   `n` records of `size` bytes laid end to end: the byte cursor after `n`
   advances, and the point counter after `n` full rows.
   */
  function Advance(n: nat, size: nat): nat
  {
    if n == 0 then 0 else Advance(n - 1, size) + size
  }

  lemma {:induction false} AdvanceIsProduct(n: nat, size: nat)
    ensures Advance(n, size) == n * size
  {
    if n > 0 {
      AdvanceIsProduct(n - 1, size);
      MulSucc(n - 1, size);
    }
  }

  /**
   What the decoder's cursor needs at row `row`, column `col`: the point
   counter `i` is in range, the record at byte cursor `base` lies inside the
   buffer, and the matrix holds at `i` the point read from that record.
   */
  lemma Cursor(m: PointCloud2, row: nat, col: nat, i: nat, base: nat)
    requires Sized(m) && row < m.height && col < m.width
    requires i == Advance(row, m.width) + col && base == Advance(i, m.pointStep)
    ensures i < |Decode(m)|
    ensures base + m.pointStep <= |m.data|
    ensures forall k :: 0 <= k < 3 ==> base + m.fields[k].offset + 4 <= |m.data|
    ensures Decode(m)[i] == (ReadF32(m.data, base + m.fields[0].offset),
                             ReadF32(m.data, base + m.fields[1].offset),
                             ReadF32(m.data, base + m.fields[2].offset))
  {
    AdvanceIsProduct(row, m.width);
    AdvanceIsProduct(i, m.pointStep);
    MulLeft(row + 1, m.height, m.width);
    MulSucc(row, m.width);
    DecodeAt(m, i);
  }

  /** The point counter after the last row is the number of points. */
  lemma AllRows(m: PointCloud2, row: nat)
    requires Sized(m) && row <= m.height
    ensures Advance(row, m.width) <= |Decode(m)|
    ensures row == m.height ==> Advance(row, m.width) == |Decode(m)|
  {
    AdvanceIsProduct(row, m.width);
    MulLeft(row, m.height, m.width);
  }

  /** The record at row `row`, column `col` lies inside the buffer. */
  lemma CellInBuffer(m: PointCloud2, row: nat, col: nat)
    requires Sized(m) && row < m.height && col < m.width
    ensures row * m.width + col < m.height * m.width
    ensures row * m.width * m.pointStep + col * m.pointStep == (row * m.width + col) * m.pointStep
    ensures row * m.width * m.pointStep + col * m.pointStep + m.pointStep <= |m.data|
  {
    MulLeft(row + 1, m.height, m.width);
    RecordInBuffer(m, row * m.width + col);
  }

  /**
   Row-major addressing: the point at row `row`, column `col` of the cloud
   is entry `row * width + col` of the matrix, read from the record that
   starts at byte `row * width * pointStep + col * pointStep`.
   */
  lemma {:induction false} CellIsRowMajor(m: PointCloud2, row: nat, col: nat)
    requires Sized(m) && row < m.height && col < m.width
    ensures row * m.width + col < |Decode(m)|
    ensures row * m.width * m.pointStep + col * m.pointStep + m.pointStep <= |m.data|
    ensures Decode(m)[row * m.width + col] == PointAt(m, row * m.width * m.pointStep + col * m.pointStep)
  {
    CellInBuffer(m, row, col);
    DecodeAt(m, row * m.width + col);
  }

  /** Every entry of the matrix comes from a cell of the cloud: entry `i` is row `i / width`, column `i % width`. */
  lemma EntryHasCell(m: PointCloud2, i: nat)
    requires Sized(m) && i < |Decode(m)|
    ensures m.width > 0 && i / m.width < m.height && i % m.width < m.width
    ensures i == (i / m.width) * m.width + i % m.width
  {
    if i / m.width >= m.height {
      MulLeft(m.height, i / m.width, m.width);
    }
  }
}
