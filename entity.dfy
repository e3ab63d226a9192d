/**
 * Entity records: the local peer's own entity and what a node knows about a
 * remote one. Both are identified by their identifier alone.
 */
module Entities {
  import opened Bytes
  import opened Positions
  import opened Identifiers

  /**
   * An entity: a fixed identifier, a position and an area-of-interest radius.
   * The owner changes the position and the radius by storing an updated
   * record; the identifier is never changed.
   */
  datatype Entity = Entity(identifier: Identifier, position: Position, aoiRadius: int64) {

    /** `equals`: entities are equal iff their identifiers are, whatever their positions and radii. */
    predicate Equals(other: Entity)
      ensures Equals(other) <==> identifier == other.identifier
    {
      other.identifier.Equals(IdentifierObject(identifier))
    }

    /** `hashCode`: the identifier's hash. */
    function HashCode(): int32
    {
      identifier.HashCode()
    }
  }

  /** `new Entity(identifier)`: at the origin, with radius zero. */
  function NewEntity(identifier: Identifier): (e: Entity)
    ensures e.identifier == identifier && e.aoiRadius == 0
    ensures e.position.x == 0 && e.position.y == 0 && e.position.oldX == 0 && e.position.oldY == 0
  {
    Entity(identifier, Origin(), 0)
  }

  /**
   * What a node knows about a remote entity: the fields of an `Entity`,
   * the time of the last contact and whether it asked for binding-neighbour
   * updates.
   */
  datatype RemoteEntity = RemoteEntity(identifier: Identifier, position: Position, aoiRadius: int64,
                                       lastContact: int64, requestedUpdates: bool) {

    /** The `Entity` part of the record. */
    function AsEntity(): (e: Entity)
      ensures e.identifier == identifier && e.position == position && e.aoiRadius == aoiRadius
    {
      Entity(identifier, position, aoiRadius)
    }

    /** Inherited `equals`: the liveness fields never take part. */
    predicate Equals(other: RemoteEntity)
      ensures Equals(other) <==> identifier == other.identifier
    {
      AsEntity().Equals(other.AsEntity())
    }

    /** Inherited `hashCode`: the identifier's hash, whatever the other fields hold. */
    function HashCode(): (h: int32)
      ensures h == identifier.HashCode()
    {
      AsEntity().HashCode()
    }
  }

  /** `new RemoteEntity(identifier)`: a new entity that was never contacted and asked for nothing. */
  function NewRemoteEntity(identifier: Identifier): (r: RemoteEntity)
    ensures r.AsEntity() == NewEntity(identifier)
    ensures r.lastContact == 0 && !r.requestedUpdates
  {
    RemoteEntity(identifier, Origin(), 0, 0, false)
  }

  /** Equal entities hash equally. */
  lemma EntityHashConsistent(a: Entity, b: Entity)
    requires a.Equals(b)
    ensures a.HashCode() == b.HashCode()
  {
  }

  /** Equal remote entities hash equally, whatever their liveness fields. */
  lemma RemoteHashConsistent(a: RemoteEntity, b: RemoteEntity)
    requires a.Equals(b)
    ensures a.HashCode() == b.HashCode()
  {
  }
}
