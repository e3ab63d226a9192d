/**
 * The wire format: packet types, field offsets and packet sizes, the readers
 * that decode a packet's bytes, and the `Packet` object whose builders
 * allocate and fill its byte array.
 *
 * The offsets are computed, as in the original, from `Byte.SIZE`,
 * `Position.SIZE` and `Long.SIZE`, which are BIT counts: the position starts
 * at byte 8, the radius at byte 136 and the identifier at byte 200. The
 * bytes in between stay zero.
 */
module Packets {
  import opened Bytes
  import opened Options
  import opened Positions
  import opened Identifiers
  import opened Entities

  const MOVE: byte := 0
  const MOVE_BNR: byte := 1
  const NEIGHBOR: byte := 2
  const JOIN: byte := 3
  const JOIN_ACK: byte := 4
  const LEAVE: byte := 5
  const INVALID: byte := 6

  const TYPE: nat := 0
  const POSITION: nat := TYPE + BYTE_SIZE
  const AOI_RADIUS: nat := POSITION + Positions.SIZE
  const IDENTIFIER: nat := AOI_RADIUS + LONG_SIZE

  const SIZE_MOVE_PACKET: nat := IDENTIFIER + 1
  const SIZE_NEIGHBOR_PACKET: nat := IDENTIFIER + Identifiers.SIZE + 1
  const SIZE_JOIN_PACKET: nat := IDENTIFIER + Identifiers.SIZE + 1
  const SIZE_JOIN_ACK_PACKET: nat := TYPE + 1
  const MAXIMUM_SIZE: nat := IDENTIFIER + Identifiers.SIZE + 1

  /** The constants take the values the bit-size arithmetic gives them. */
  lemma LayoutValues()
    ensures POSITION == 8 && AOI_RADIUS == 136 && IDENTIFIER == 200
    ensures SIZE_MOVE_PACKET == 201 && SIZE_NEIGHBOR_PACKET == 237 && SIZE_JOIN_PACKET == 237
    ensures SIZE_JOIN_ACK_PACKET == 1 && MAXIMUM_SIZE == 237
  {
  }

  /**
   * The type byte, the 16 position bytes, the 8 radius bytes and the 8
   * identifier bytes occupy disjoint regions, in that order, and the
   * buffers the readers wrap around them fit in the packet sizes.
   */
  lemma FieldsDisjoint()
    ensures TYPE + 1 <= POSITION && POSITION + 16 <= AOI_RADIUS && AOI_RADIUS + 8 <= IDENTIFIER
    ensures POSITION + Positions.SIZE <= SIZE_MOVE_PACKET && AOI_RADIUS + LONG_SIZE <= SIZE_MOVE_PACKET
    ensures IDENTIFIER + Identifiers.SIZE <= SIZE_NEIGHBOR_PACKET
    ensures SIZE_MOVE_PACKET <= MAXIMUM_SIZE && SIZE_JOIN_ACK_PACKET <= MAXIMUM_SIZE
    ensures SIZE_NEIGHBOR_PACKET == MAXIMUM_SIZE && SIZE_JOIN_PACKET == MAXIMUM_SIZE
  {
  }

  // ---------------------------------------------------------------------
  // Readers

  /** `getType`: the type byte when it is a known type, `INVALID` otherwise. */
  function GetType(data: seq<byte>): (t: byte)
    requires TYPE < |data|
    ensures t <= INVALID
    ensures t == INVALID <==> data[TYPE] > LEAVE
    ensures t != INVALID ==> t == data[TYPE]
  {
    match data[TYPE]
    case 0 => MOVE
    case 1 => MOVE_BNR
    case 2 => NEIGHBOR
    case 3 => JOIN
    case 4 => JOIN_ACK
    case 5 => LEAVE
    case _ => INVALID
  }

  /** Packets that carry a subject identifier of their own. */
  predicate HasSubject(data: seq<byte>)
    requires TYPE < |data|
  {
    GetType(data) == NEIGHBOR || GetType(data) == JOIN
  }

  /** `getPosition` decodes a position whose buffer must hold `Position.SIZE` bytes. */
  function GetPosition(data: seq<byte>): (p: Position)
    requires POSITION + Positions.SIZE <= |data|
    ensures p.oldX == 0 && p.oldY == 0
  {
    Positions.FromBytes(data, POSITION)
  }

  /** `getAoiRadius`. */
  function GetAoiRadius(data: seq<byte>): (r: int64)
    requires AOI_RADIUS + LONG_SIZE <= |data|
  {
    LongAt(data, AOI_RADIUS)
  }

  /** `getIdentifier`: the embedded subject of a NEIGHBOR or JOIN packet, the origin otherwise. */
  function GetIdentifier(data: seq<byte>, origin: Option<Identifier>): (id: Option<Identifier>)
    requires TYPE < |data|
    requires HasSubject(data) ==> IDENTIFIER + Identifiers.SIZE <= |data|
    ensures !HasSubject(data) ==> id == origin
    ensures HasSubject(data) ==> id.Some?
  {
    if HasSubject(data) then Some(Identifiers.FromBytes(data, IDENTIFIER)) else origin
  }

  /**
   * The fields read from a buffer are the values whose encodings sit at
   * their offsets: the position, the radius and, for a packet with a
   * subject, the identifier.
   */
  lemma FieldsEncode(data: seq<byte>, origin: Option<Identifier>)
    requires AOI_RADIUS + LONG_SIZE <= |data|
    requires HasSubject(data) ==> IDENTIFIER + Identifiers.SIZE <= |data|
    ensures GetPosition(data).Encode() == data[POSITION..POSITION + 16]
    ensures Int64Bytes(GetAoiRadius(data)) == data[AOI_RADIUS..AOI_RADIUS + 8]
    ensures HasSubject(data) ==> GetIdentifier(data, origin).value.Encode() == data[IDENTIFIER..IDENTIFIER + 8]
  {
    LayoutValues();
    Positions.FromBytesEncodes(data, POSITION);
    LongAtBytes(data, AOI_RADIUS);
    if HasSubject(data) {
      Identifiers.FromBytesEncodes(data, IDENTIFIER);
    }
  }

  // ---------------------------------------------------------------------
  // The bytes the builders produce

  /** A packet of `size` zero bytes with `kind`, `e`'s position and `e`'s radius written in. */
  function Header(kind: byte, e: Entity, size: nat): (s: seq<byte>)
    requires AOI_RADIUS + LONG_SIZE <= size
    ensures |s| == size
  {
    LayoutValues();
    var typed := Splice(Zeros(size), TYPE, [kind]);
    var placed := Splice(typed, POSITION, e.position.Encode());
    Splice(placed, AOI_RADIUS, Int64Bytes(e.aoiRadius))
  }

  /** `setMovePacket(e, b)`: a MOVE_BNR packet iff `b`, else a MOVE packet. */
  function MoveBytes(e: Entity, bindingNeighborRequest: bool): (s: seq<byte>)
    ensures |s| == SIZE_MOVE_PACKET && s[TYPE] == if bindingNeighborRequest then MOVE_BNR else MOVE
  {
    Header(if bindingNeighborRequest then MOVE_BNR else MOVE, e, SIZE_MOVE_PACKET)
  }

  /** A header followed by `e`'s identifier. */
  function WithSubject(kind: byte, e: Entity, size: nat): (s: seq<byte>)
    requires IDENTIFIER + Identifiers.SIZE <= size
    ensures |s| == size
  {
    Splice(Header(kind, e, size), IDENTIFIER, e.identifier.Encode())
  }

  /**
   * The header holds the type byte, the encoded position and the encoded
   * radius at their offsets and zero everywhere else; the subject follows
   * the header unchanged.
   */
  lemma HeaderLayout(kind: byte, e: Entity, size: nat)
    requires IDENTIFIER + Identifiers.SIZE <= size
    ensures Header(kind, e, size)[TYPE] == kind
    ensures Header(kind, e, size)[POSITION..POSITION + 16] == e.position.Encode()
    ensures Header(kind, e, size)[AOI_RADIUS..AOI_RADIUS + 8] == Int64Bytes(e.aoiRadius)
    ensures forall i | 0 <= i < size && i != TYPE && !(POSITION <= i < POSITION + 16) && !(AOI_RADIUS <= i < AOI_RADIUS + 8) ::
      Header(kind, e, size)[i] == 0
    ensures WithSubject(kind, e, size)[..IDENTIFIER] == Header(kind, e, size)[..IDENTIFIER]
    ensures WithSubject(kind, e, size)[IDENTIFIER..IDENTIFIER + 8] == e.identifier.Encode()
  {
    LayoutValues();
  }

  /** `setNeighborPacket(r)`. */
  function NeighborBytes(r: RemoteEntity): (s: seq<byte>)
    ensures |s| == SIZE_NEIGHBOR_PACKET
  {
    WithSubject(NEIGHBOR, r.AsEntity(), SIZE_NEIGHBOR_PACKET)
  }

  /** `setJoinPacket(e)`. */
  function JoinBytes(e: Entity): (s: seq<byte>)
    ensures |s| == SIZE_JOIN_PACKET && s[TYPE] == JOIN
  {
    WithSubject(JOIN, e, SIZE_JOIN_PACKET)
  }

  /** `setJoinAckPacket()`. */
  function JoinAckBytes(): (s: seq<byte>)
    ensures s == [JOIN_ACK]
  {
    Splice(Zeros(SIZE_JOIN_ACK_PACKET), TYPE, [JOIN_ACK])
  }

  // ---------------------------------------------------------------------
  // Round trips

  /** Reading a header back gives its type, the coordinates and the radius. */
  lemma HeaderRoundTrip(kind: byte, e: Entity, size: nat)
    requires AOI_RADIUS + LONG_SIZE <= size
    ensures Header(kind, e, size)[TYPE] == kind
    ensures GetPosition(Header(kind, e, size)) == At(e.position.x, e.position.y)
    ensures GetAoiRadius(Header(kind, e, size)) == e.aoiRadius
  {
    var typed := Splice(Zeros(size), TYPE, [kind]);
    var placed := Splice(typed, POSITION, e.position.Encode());
    assert typed[TYPE] == kind;
    Positions.DecodeInserted(typed, POSITION, e.position);
    LongAtSplice(placed, AOI_RADIUS, e.aoiRadius);
    var h := Header(kind, e, size);
    assert h[POSITION..POSITION + 8] == placed[POSITION..POSITION + 8];
    assert h[POSITION + 8..POSITION + 16] == placed[POSITION + 8..POSITION + 16];
  }

  /** The identifier written after a header reads back, and the header is intact. */
  lemma WithSubjectRoundTrip(kind: byte, e: Entity, size: nat)
    requires IDENTIFIER + Identifiers.SIZE <= size
    ensures WithSubject(kind, e, size)[TYPE] == kind
    ensures GetPosition(WithSubject(kind, e, size)) == At(e.position.x, e.position.y)
    ensures GetAoiRadius(WithSubject(kind, e, size)) == e.aoiRadius
    ensures Identifiers.FromBytes(WithSubject(kind, e, size), IDENTIFIER) == e.identifier
  {
    var h := Header(kind, e, size);
    HeaderRoundTrip(kind, e, size);
    Identifiers.DecodeInserted(h, IDENTIFIER, e.identifier);
    var w := WithSubject(kind, e, size);
    assert w[POSITION..POSITION + 8] == h[POSITION..POSITION + 8];
    assert w[POSITION + 8..POSITION + 16] == h[POSITION + 8..POSITION + 16];
    assert w[AOI_RADIUS..AOI_RADIUS + 8] == h[AOI_RADIUS..AOI_RADIUS + 8];
  }

  /** A MOVE or MOVE_BNR packet carries the entity's coordinates and radius; its subject is its origin. */
  lemma MoveRoundTrip(e: Entity, bindingNeighborRequest: bool, origin: Option<Identifier>)
    ensures |MoveBytes(e, bindingNeighborRequest)| == SIZE_MOVE_PACKET
    ensures GetType(MoveBytes(e, bindingNeighborRequest)) == if bindingNeighborRequest then MOVE_BNR else MOVE
    ensures GetPosition(MoveBytes(e, bindingNeighborRequest)) == At(e.position.x, e.position.y)
    ensures GetAoiRadius(MoveBytes(e, bindingNeighborRequest)) == e.aoiRadius
    ensures GetIdentifier(MoveBytes(e, bindingNeighborRequest), origin) == origin
  {
    HeaderRoundTrip(if bindingNeighborRequest then MOVE_BNR else MOVE, e, SIZE_MOVE_PACKET);
  }

  /** A NEIGHBOR packet carries the entity's coordinates, radius and identifier. */
  lemma NeighborRoundTrip(r: RemoteEntity, origin: Option<Identifier>)
    ensures |NeighborBytes(r)| == SIZE_NEIGHBOR_PACKET
    ensures GetType(NeighborBytes(r)) == NEIGHBOR
    ensures GetPosition(NeighborBytes(r)) == At(r.position.x, r.position.y)
    ensures GetAoiRadius(NeighborBytes(r)) == r.aoiRadius
    ensures GetIdentifier(NeighborBytes(r), origin) == Some(r.identifier)
  {
    WithSubjectRoundTrip(NEIGHBOR, r.AsEntity(), SIZE_NEIGHBOR_PACKET);
  }

  /** A JOIN packet carries the joining entity's coordinates, radius and identifier. */
  lemma JoinRoundTrip(e: Entity, origin: Option<Identifier>)
    ensures |JoinBytes(e)| == SIZE_JOIN_PACKET
    ensures GetType(JoinBytes(e)) == JOIN
    ensures GetPosition(JoinBytes(e)) == At(e.position.x, e.position.y)
    ensures GetAoiRadius(JoinBytes(e)) == e.aoiRadius
    ensures GetIdentifier(JoinBytes(e), origin) == Some(e.identifier)
  {
    WithSubjectRoundTrip(JOIN, e, SIZE_JOIN_PACKET);
  }

  /** A JOIN_ACK packet is the single type byte. */
  lemma JoinAckShape()
    ensures JoinAckBytes() == [JOIN_ACK] && GetType(JoinAckBytes()) == JOIN_ACK
  {
  }

  /** NEIGHBOR packets about different entities differ. */
  lemma NeighborBytesInjective(a: RemoteEntity, b: RemoteEntity)
    requires NeighborBytes(a) == NeighborBytes(b)
    ensures a.identifier == b.identifier
  {
    NeighborRoundTrip(a, None);
    NeighborRoundTrip(b, None);
  }

  // ---------------------------------------------------------------------
  // Received buffers

  /**
   * The buffer `receive` fills: always `MAXIMUM_SIZE` bytes, holding as much
   * of the datagram as fits, zero after it.
   */
  function ReceiveBuffer(payload: seq<byte>): (buf: seq<byte>)
    ensures |buf| == MAXIMUM_SIZE
    ensures forall i :: 0 <= i < MAXIMUM_SIZE ==> buf[i] == if i < |payload| then payload[i] else 0
  {
    seq(MAXIMUM_SIZE, i requires 0 <= i => if i < |payload| then payload[i] else 0)
  }

  /** A built packet, received into a buffer, reads back exactly as it was built. */
  lemma ReceivedReadsAsBuilt(built: seq<byte>, origin: Option<Identifier>)
    requires TYPE < |built| <= MAXIMUM_SIZE
    ensures GetType(ReceiveBuffer(built)) == GetType(built)
    ensures AOI_RADIUS + LONG_SIZE <= |built| ==>
      GetPosition(ReceiveBuffer(built)) == GetPosition(built) && GetAoiRadius(ReceiveBuffer(built)) == GetAoiRadius(built)
    ensures HasSubject(built) && IDENTIFIER + Identifiers.SIZE <= |built| ==>
      GetIdentifier(ReceiveBuffer(built), origin) == GetIdentifier(built, origin)
    ensures !HasSubject(built) ==> GetIdentifier(ReceiveBuffer(built), origin) == origin
  {
    var buf := ReceiveBuffer(built);
    assert buf[..|built|] == built;
    if AOI_RADIUS + LONG_SIZE <= |built| {
      assert buf[POSITION..POSITION + 8] == built[POSITION..POSITION + 8];
      assert buf[POSITION + 8..POSITION + 16] == built[POSITION + 8..POSITION + 16];
      assert buf[AOI_RADIUS..AOI_RADIUS + 8] == built[AOI_RADIUS..AOI_RADIUS + 8];
    }
    if HasSubject(built) && IDENTIFIER + Identifiers.SIZE <= |built| {
      assert buf[IDENTIFIER..IDENTIFIER + 4] == built[IDENTIFIER..IDENTIFIER + 4];
      assert buf[IDENTIFIER + 4..IDENTIFIER + 8] == built[IDENTIFIER + 4..IDENTIFIER + 8];
    }
  }

  // ---------------------------------------------------------------------
  // The packet object

  /** The builders' common part: type, position and radius written into a zeroed buffer. */
  method WriteHeader(data: array<byte>, kind: byte, e: Entity)
    requires AOI_RADIUS + LONG_SIZE <= data.Length
    requires forall i | 0 <= i < data.Length :: data[i] == 0
    modifies data
    ensures data[..] == Header(kind, e, data.Length)
  {
    ghost var zeros := data[..];
    assert zeros == Zeros(data.Length);
    data[TYPE] := kind;
    assert data[..] == Splice(zeros, TYPE, [kind]);
    e.position.InsertData(data, POSITION);
    PutLong(data, AOI_RADIUS, e.aoiRadius);
  }

  /** A datagram: its bytes and, once received, the address it came from. */
  class Packet {
    var data: array<byte>
    var origin: Option<Identifier>

    /** `new Packet()`: no bytes yet and no origin. */
    constructor ()
      ensures fresh(data) && data.Length == 0 && origin == None
    {
      data := new byte[0];
      origin := None;
    }

    method SetMovePacket(entity: Entity, bindingNeighborRequest: bool)
      modifies this
      ensures fresh(data) && data[..] == MoveBytes(entity, bindingNeighborRequest)
      ensures origin == old(origin)
    {
      data := new byte[SIZE_MOVE_PACKET](_ => 0);
      WriteHeader(data, if bindingNeighborRequest then MOVE_BNR else MOVE, entity);
    }

    method SetNeighborPacket(entity: RemoteEntity)
      modifies this
      ensures fresh(data) && data[..] == NeighborBytes(entity)
      ensures origin == old(origin)
    {
      data := new byte[SIZE_NEIGHBOR_PACKET](_ => 0);
      WriteHeader(data, NEIGHBOR, entity.AsEntity());
      entity.identifier.InsertData(data, IDENTIFIER);
    }

    method SetJoinPacket(entity: Entity)
      modifies this
      ensures fresh(data) && data[..] == JoinBytes(entity)
      ensures origin == old(origin)
    {
      data := new byte[SIZE_JOIN_PACKET](_ => 0);
      WriteHeader(data, JOIN, entity);
      entity.identifier.InsertData(data, IDENTIFIER);
    }

    method SetJoinAckPacket()
      modifies this
      ensures fresh(data) && data[..] == JoinAckBytes()
      ensures origin == old(origin)
    {
      data := new byte[SIZE_JOIN_ACK_PACKET](_ => 0);
      data[TYPE] := JOIN_ACK;
      assert data[..] == [JOIN_ACK];
    }

    /**
     * What `receive` does to the packet once the socket has delivered
     * `payload` from `sender`: a fresh `MAXIMUM_SIZE` buffer and the origin.
     */
    method Receive(payload: seq<byte>, sender: Identifier)
      modifies this
      ensures fresh(data) && data[..] == ReceiveBuffer(payload)
      ensures origin == Some(sender)
    {
      data := new byte[MAXIMUM_SIZE](i requires 0 <= i => if i < |payload| then payload[i] else 0);
      origin := Some(sender);
    }
  }
}
