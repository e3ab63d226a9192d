/**
 * Two-dimensional positions of moving entities: Chebyshev distance, the
 * distance from the remembered previous position, quadrant classification,
 * the "advance" step and the 16-byte wire encoding.
 */
module Positions {
  import opened Bytes

  /** `Position.QUADRANTS`. */
  const QUADRANTS: nat := 4

  /** `Position.SIZE = 2 * Long.SIZE`: 128, a bit count that the wire layout uses as a byte count. */
  const SIZE: nat := 2 * LONG_SIZE

  function Abs(v: int): nat
  {
    if v < 0 then -v else v
  }

  function Max(a: nat, b: nat): nat
  {
    if a < b then b else a
  }

  /**
   * A position: the current coordinates `x`, `y` and the coordinates
   * `oldX`, `oldY` it had before the last `SetTo`.
   */
  datatype Position = Position(x: int64, y: int64, oldX: int64, oldY: int64) {

    /**
     * The quadrant of `other` seen from this position: bit 0 is set iff
     * `other` lies strictly to the right, bit 1 iff it lies strictly above.
     */
    function Classify(other: Position): (q: int)
      ensures 0 <= q < QUADRANTS
      ensures q % 2 == 1 <==> other.x > x
      ensures q / 2 == 1 <==> other.y > y
    {
      var quadrant := if other.x > x then 1 else 0;
      quadrant + if other.y > y then 2 else 0
    }

    /** Chebyshev distance between the current coordinates of both positions. */
    function DistanceTo(p: Position): (d: nat)
      ensures Abs(p.x - x) <= d && Abs(p.y - y) <= d
      ensures d == Abs(p.x - x) || d == Abs(p.y - y)
    {
      Max(Abs(p.x - x), Abs(p.y - y))
    }

    /** The point this position occupied before its last `SetTo`. */
    function Previous(): Position
    {
      Position(oldX, oldY, 0, 0)
    }

    /** Chebyshev distance from this position's PREVIOUS coordinates to `p`'s current ones. */
    function OldDistanceTo(p: Position): (d: nat)
      ensures d == Previous().DistanceTo(p)
    {
      Max(Abs(p.x - oldX), Abs(p.y - oldY))
    }

    /** `setTo`: snapshot the current coordinates as the old ones, then take `p`'s current ones. */
    function SetTo(p: Position): (r: Position)
      ensures r.oldX == x && r.oldY == y
      ensures r.x == p.x && r.y == p.y
    {
      Position(p.x, p.y, x, y)
    }

    /** The coordinates as `insertData` writes them: x then y, each a big-endian long. */
    function Encode(): (b: seq<byte>)
      ensures |b| == 16 && b[..8] == Int64Bytes(x) && b[8..] == Int64Bytes(y)
    {
      Int64Bytes(x) + Int64Bytes(y)
    }

    /**
     * `insertData`: writes the 16 coordinate bytes at `offset`; the buffer
     * wrapped around them must hold `SIZE` bytes from `offset`.
     */
    method InsertData(data: array<byte>, offset: nat)
      requires offset + SIZE <= data.Length
      modifies data
      ensures data[..] == Splice(old(data[..]), offset, Encode())
    {
      ghost var before := data[..];
      PutLong(data, offset, x);
      PutLong(data, offset + 8, y);
      SpliceAdjacent(before, offset, Int64Bytes(x), Int64Bytes(y));
    }
  }

  /** `new Position()`: the origin, with the old coordinates also zero. */
  function Origin(): (p: Position)
    ensures p == At(0, 0)
  {
    Position(0, 0, 0, 0)
  }

  /** `new Position(x, y)`: the old coordinates keep Java's default zero. */
  function At(x: int64, y: int64): (p: Position)
    ensures p.x == x && p.y == y && p.oldX == 0 && p.oldY == 0
  {
    Position(x, y, 0, 0)
  }

  /** `new Position(data, offset)`: reads x then y, big-endian, from `offset`. */
  function FromBytes(data: seq<byte>, offset: nat): (p: Position)
    requires offset + SIZE <= |data|
    ensures p.oldX == 0 && p.oldY == 0
  {
    At(LongAt(data, offset), LongAt(data, offset + 8))
  }

  /** The position read at `offset` is the one whose encoding is the sixteen bytes there. */
  lemma FromBytesEncodes(data: seq<byte>, offset: nat)
    requires offset + SIZE <= |data|
    ensures FromBytes(data, offset).Encode() == data[offset..offset + 16]
  {
    LongAtBytes(data, offset);
    LongAtBytes(data, offset + 8);
    assert data[offset..offset + 16] == data[offset..offset + 8] + data[offset + 8..offset + 16];
  }

  /** Decoding what `InsertData` wrote at the same offset gives back the coordinates. */
  lemma DecodeInserted(s: seq<byte>, offset: nat, p: Position)
    requires offset + SIZE <= |s|
    ensures FromBytes(Splice(s, offset, p.Encode()), offset) == At(p.x, p.y)
  {
    var w := Splice(s, offset, p.Encode());
    assert w[offset..offset + 8] == w[offset..offset + 16][..8];
    assert w[offset + 8..offset + 16] == w[offset..offset + 16][8..];
    Int64RoundTrip(p.x);
    Int64RoundTrip(p.y);
  }

  lemma DistanceSymmetric(a: Position, b: Position)
    ensures a.DistanceTo(b) == b.DistanceTo(a)
  {
  }

  /** Distance zero means equal current coordinates, and conversely. */
  lemma DistanceZero(a: Position, b: Position)
    ensures a.DistanceTo(b) == 0 <==> a.x == b.x && a.y == b.y
  {
  }

  lemma DistanceTriangle(a: Position, b: Position, c: Position)
    ensures a.DistanceTo(c) <= a.DistanceTo(b) + b.DistanceTo(c)
  {
  }

  /** After `SetTo(p)`, the old distance to `q` is the distance to `q` just before the call. */
  lemma SetToRemembers(self: Position, p: Position, q: Position)
    ensures self.SetTo(p).OldDistanceTo(q) == self.DistanceTo(q)
    ensures self.SetTo(p).DistanceTo(q) == p.DistanceTo(q)
  {
  }
}
