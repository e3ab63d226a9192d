/**
 * The QuON protocol engine: one node's neighbour table, its direct, binding
 * and temporary neighbours, the maintenance cycle and the packet handlers.
 *
 * Each synchronized method is one atomic step. `socket.send` appends a
 * datagram to `outbox`, the clock is passed in as `now`, and the join gate
 * (a count-down latch of one) is the boolean `connected`.
 */
module Nodes {
  import opened Bytes
  import opened Options
  import opened Positions
  import opened Identifiers
  import opened Entities
  import opened Packets
  import opened NodeSpec

  /** An order in which a hash set, or a hash map's key set, iterates. */
  method Enumerate(s: set<Identifier>) returns (order: seq<Identifier>)
    ensures IsOrdering(order, s)
  {
    order := [];
    var rest := s;
    while rest != {}
      invariant rest <= s
      invariant IsOrdering(order, s - rest)
      decreases |rest|
    {
      var k :| k in rest;
      OrderingSnoc(order, s - rest, k);
      assert s - rest + {k} == s - (rest - {k});
      order := order + [k];
      rest := rest - {k};
    }
    assert s - rest == s;
  }

  class Node {
    const localEntity: Entity
    /** The neighbour table, keyed by identifier. */
    var neighbors: map<Identifier, RemoteEntity>
    var directNeighbors: set<Identifier>
    /** One slot per quadrant; `None` is Java's `null`. */
    const bindingNeighbors: array<Option<Identifier>>
    var temporaryNeighbors: set<Identifier>
    /** Every datagram sent so far, in order. */
    var outbox: seq<Datagram>
    /** Whether the join gate has been released. */
    var connected: bool

    ghost predicate Valid()
      reads this`neighbors, this`directNeighbors, this`temporaryNeighbors, bindingNeighbors
    {
      bindingNeighbors.Length == QUADRANTS
      && WellFormed(neighbors, directNeighbors, bindingNeighbors[..], temporaryNeighbors)
    }

    constructor (entity: Entity)
      ensures Valid()
      ensures localEntity == entity && neighbors == map[]
      ensures directNeighbors == {} && temporaryNeighbors == {}
      ensures fresh(bindingNeighbors) && bindingNeighbors[..] == [None, None, None, None]
      ensures outbox == [] && !connected
    {
      localEntity := entity;
      neighbors := map[];
      directNeighbors := {};
      bindingNeighbors := new Option<Identifier>[QUADRANTS](_ => None);
      temporaryNeighbors := {};
      outbox := [];
      connected := false;
      new;
      EmptySlots(bindingNeighbors[..]);
    }

    /** `packet.send(to, socket)`: the whole byte array goes out as one datagram. */
    method Send(to: Identifier, data: seq<byte>)
      modifies this`outbox
      ensures outbox == old(outbox) + [Datagram(to, data)]
    {
      outbox := outbox + [Datagram(to, data)];
    }

    /** A fresh packet set to `r`'s NEIGHBOR packet, sent to `to`. */
    method SendNeighborPacket(to: Identifier, r: RemoteEntity)
      modifies this`outbox
      ensures outbox == old(outbox) + [Datagram(to, NeighborBytes(r))]
    {
      var packet := new Packet();
      packet.SetNeighborPacket(r);
      Send(to, packet.data[..]);
    }

    /** The sending part of `join`: a JOIN packet to the bootstrap peer, if one is given. */
    method Join(bootstrap: Option<Identifier>)
      modifies this`outbox
      ensures outbox == old(outbox) + (if bootstrap.Some? then [Datagram(bootstrap.value, JoinBytes(localEntity))] else [])
    {
      if bootstrap.Some? {
        var packet := new Packet();
        packet.SetJoinPacket(localEntity);
        Send(bootstrap.value, packet.data[..]);
      }
    }

    /** The records of the direct neighbours, each once. */
    method EntitiesInAoi() returns (entities: seq<RemoteEntity>)
      requires Valid()
      ensures |entities| == |directNeighbors|
      ensures forall i | 0 <= i < |entities| ::
        entities[i].identifier in directNeighbors && entities[i] == neighbors[entities[i].identifier]
      ensures forall k | k in directNeighbors :: neighbors[k] in entities
    {
      entities := [];
      var rest := directNeighbors;
      while rest != {}
        invariant rest <= directNeighbors
        invariant |entities| + |rest| == |directNeighbors|
        invariant forall i | 0 <= i < |entities| ::
          entities[i].identifier in directNeighbors - rest && entities[i] == neighbors[entities[i].identifier]
        invariant forall k | k in directNeighbors - rest :: neighbors[k] in entities
        decreases |rest|
      {
        var k :| k in rest;
        entities := entities + [neighbors[k]];
        rest := rest - {k};
      }
    }

    method UpdateDirectNeighbors()
      modifies this`directNeighbors
      ensures directNeighbors == DirectSet(localEntity, neighbors)
    {
      directNeighbors := {};
      var rest := neighbors.Keys;
      while rest != {}
        invariant rest <= neighbors.Keys
        invariant directNeighbors <= neighbors.Keys - rest
        invariant forall k | k in neighbors.Keys - rest ::
          k in directNeighbors <==> Distance(localEntity, neighbors[k]) <= localEntity.aoiRadius
        decreases |rest|
      {
        var k :| k in rest;
        var neighbor := neighbors[k];
        if localEntity.position.DistanceTo(neighbor.position) <= localEntity.aoiRadius {
          directNeighbors := directNeighbors + {k};
        }
        rest := rest - {k};
      }
    }

    /**
     * Each slot ends up holding a nearest entry of its quadrant: an entry
     * replaces the slot's occupant only when strictly closer, so the first
     * nearest one in the map's order wins.
     */
    method UpdateBindingNeighbors()
      requires bindingNeighbors.Length == QUADRANTS
      modifies bindingNeighbors
      ensures IsBindingChoice(localEntity, neighbors, bindingNeighbors[..])
    {
      for quadrant := 0 to QUADRANTS
        invariant forall q | 0 <= q < quadrant :: bindingNeighbors[q] == None
      {
        bindingNeighbors[quadrant] := None;
      }
      var rest := neighbors.Keys;
      ghost var seen: set<Identifier> := {};
      while rest != {}
        invariant seen <= neighbors.Keys
        invariant forall k | k in neighbors :: k in rest <==> k !in seen
        invariant rest <= neighbors.Keys
        invariant forall q | 0 <= q < QUADRANTS :: BestAmong(localEntity, neighbors, seen, q, bindingNeighbors[q])
        decreases |rest|
      {
        var k :| k in rest;
        var neighbor := neighbors[k];
        var quadrant := localEntity.position.Classify(neighbor.position);
        if bindingNeighbors[quadrant].None?
          || localEntity.position.DistanceTo(neighbor.position)
             < localEntity.position.DistanceTo(neighbors[bindingNeighbors[quadrant].value].position)
        {
          bindingNeighbors[quadrant] := Some(k);
        }
        rest := rest - {k};
        seen := seen + {k};
      }
      assert seen == neighbors.Keys;
    }

    /** The slot holding `entity`, searched in quadrant order, or -1. */
    method IsBindingNeighbor(entity: Identifier) returns (quadrant: int)
      requires bindingNeighbors.Length == QUADRANTS
      ensures -1 <= quadrant < QUADRANTS
      ensures quadrant == -1 <==> entity !in Bound(bindingNeighbors[..])
      ensures quadrant >= 0 ==> bindingNeighbors[quadrant] == Some(entity)
      ensures quadrant >= 0 ==> forall q | 0 <= q < quadrant :: bindingNeighbors[q] != Some(entity)
    {
      InBound(bindingNeighbors[..], entity);
      for q := 0 to QUADRANTS
        invariant forall p | 0 <= p < q :: bindingNeighbors[p] != Some(entity)
      {
        if bindingNeighbors[q] == Some(entity) {
          return q;
        }
      }
      return -1;
    }

    method UpdateTemporaryNeighbors()
      requires bindingNeighbors.Length == QUADRANTS
      modifies this`temporaryNeighbors
      ensures temporaryNeighbors == TemporarySet(neighbors, bindingNeighbors[..])
    {
      temporaryNeighbors := {};
      var rest := neighbors.Keys;
      while rest != {}
        invariant rest <= neighbors.Keys
        invariant temporaryNeighbors <= neighbors.Keys - rest
        invariant forall k | k in neighbors.Keys - rest ::
          k in temporaryNeighbors <==> neighbors[k].requestedUpdates && k !in Bound(bindingNeighbors[..])
        decreases |rest|
      {
        var k :| k in rest;
        var neighbor := neighbors[k];
        var slot := IsBindingNeighbor(k);
        if neighbor.requestedUpdates && slot < 0 {
          temporaryNeighbors := temporaryNeighbors + {k};
        }
        rest := rest - {k};
      }
    }

    /** `neighbors.put(k, records[k])` for every `k` of `keys`. */
    method PutAll(records: map<Identifier, RemoteEntity>, keys: set<Identifier>)
      requires keys <= records.Keys
      requires forall k | k in neighbors :: k in records && neighbors[k] == records[k]
      modifies this`neighbors
      ensures neighbors.Keys == old(neighbors).Keys + keys
      ensures forall k | k in neighbors :: k in records && neighbors[k] == records[k]
    {
      var table := neighbors;
      var rest := keys;
      while rest != {}
        invariant rest <= keys
        invariant forall k :: k in table <==> k in neighbors || (k in keys && k !in rest)
        invariant forall k | k in table :: k in records && table[k] == records[k]
        decreases |rest|
      {
        var k :| k in rest;
        table := table[k := records[k]];
        rest := rest - {k};
      }
      neighbors := table;
    }

    /** Rebuilds the table from the direct, binding and temporary neighbours. */
    method UpdateNeighbors()
      requires bindingNeighbors.Length == QUADRANTS
      requires directNeighbors <= neighbors.Keys && temporaryNeighbors <= neighbors.Keys
      requires Bound(bindingNeighbors[..]) <= neighbors.Keys
      modifies this`neighbors
      ensures neighbors == Restrict(old(neighbors), directNeighbors + Bound(bindingNeighbors[..]) + temporaryNeighbors)
    {
      // Java's sets still hold the records after the map is cleared.
      var records := neighbors;
      neighbors := map[];
      PutAll(records, directNeighbors);
      ghost var slots := bindingNeighbors[..];
      for quadrant := 0 to QUADRANTS
        invariant forall k :: k in neighbors <==> k in directNeighbors || k in Bound(slots[..quadrant])
        invariant forall k | k in neighbors :: k in records && neighbors[k] == records[k]
      {
        BoundSnoc(slots, quadrant);
        if bindingNeighbors[quadrant].Some? {
          var b := bindingNeighbors[quadrant].value;
          neighbors := neighbors[b := records[b]];
        }
      }
      assert slots[..QUADRANTS] == slots;
      assert neighbors.Keys == directNeighbors + Bound(slots);
      PutAll(records, temporaryNeighbors);
      RestrictByEntries(records, directNeighbors + Bound(slots) + temporaryNeighbors, neighbors);
    }

    /**
     * The NEIGHBOR packets of the binding neighbours in quadrant order, then
     * those of the temporary neighbours in the set's order `tempOrder`.
     */
    method BuildNeighborPackets() returns (packets: seq<seq<byte>>, tempOrder: seq<Identifier>)
      requires bindingNeighbors.Length == QUADRANTS
      requires Bound(bindingNeighbors[..]) <= neighbors.Keys && temporaryNeighbors <= neighbors.Keys
      ensures IsOrdering(tempOrder, temporaryNeighbors)
      ensures packets == NeighborPackets(neighbors, SlotIds(bindingNeighbors[..]) + tempOrder)
    {
      var table := neighbors;
      ghost var slots := bindingNeighbors[..];
      packets := [];
      BoundPrefixes(slots);
      for quadrant := 0 to QUADRANTS
        invariant packets == NeighborPackets(table, SlotIds(slots[..quadrant]))
      {
        assert slots[..quadrant + 1][..quadrant] == slots[..quadrant];
        if bindingNeighbors[quadrant].Some? {
          var b := bindingNeighbors[quadrant].value;
          var packet := new Packet();
          packet.SetNeighborPacket(table[b]);
          NeighborPacketsSnoc(table, SlotIds(slots[..quadrant]), b);
          packets := packets + [packet.data[..]];
        }
      }
      assert slots[..QUADRANTS] == slots;
      tempOrder := Enumerate(temporaryNeighbors);
      ghost var ids := SlotIds(slots);
      for i := 0 to |tempOrder|
        invariant packets == NeighborPackets(table, ids + tempOrder[..i])
      {
        var t := tempOrder[i];
        var packet := new Packet();
        packet.SetNeighborPacket(table[t]);
        NeighborPacketsSnoc(table, ids + tempOrder[..i], t);
        assert ids + tempOrder[..i] + [t] == ids + tempOrder[..i + 1];
        packets := packets + [packet.data[..]];
      }
      assert tempOrder[..|tempOrder|] == tempOrder;
    }

    /** MOVE to each direct neighbour that is neither binding nor temporary, in the set's order. */
    method SendDirectMoves(move: seq<byte>) returns (order: seq<Identifier>)
      requires bindingNeighbors.Length == QUADRANTS
      modifies this`outbox
      ensures IsOrdering(order, directNeighbors)
      ensures outbox == old(outbox) + DirectMoves(move, bindingNeighbors[..], temporaryNeighbors, order)
    {
      order := Enumerate(directNeighbors);
      for i := 0 to |order|
        invariant outbox == old(outbox) + DirectMoves(move, bindingNeighbors[..], temporaryNeighbors, order[..i])
      {
        assert order[..i + 1][..i] == order[..i];
        var neighbor := order[i];
        var slot := IsBindingNeighbor(neighbor);
        if slot < 0 && neighbor !in temporaryNeighbors {
          Send(neighbor, move);
        }
      }
      assert order[..|order|] == order;
    }

    /** The NEIGHBOR packets whose subject is not `to`, sent to `to`. */
    method RelayNeighborPackets(to: Identifier, packets: seq<seq<byte>>)
      requires forall i | 0 <= i < |packets| :: |packets[i]| == MAXIMUM_SIZE
      modifies this`outbox
      ensures outbox == old(outbox) + Relay(to, packets)
    {
      for i := 0 to |packets|
        invariant outbox == old(outbox) + Relay(to, packets[..i])
      {
        assert packets[..i + 1][..i] == packets[..i];
        var subject := GetIdentifier(packets[i], None);
        if !(subject.Some? && subject.value.Equals(IdentifierObject(to))) {
          Send(to, packets[i]);
        }
      }
      assert packets[..|packets|] == packets;
    }

    /** MOVE_BNR and the relayed NEIGHBOR packets to each binding neighbour, in quadrant order. */
    method SendBindingUpdates(bnr: seq<byte>, packets: seq<seq<byte>>)
      requires bindingNeighbors.Length == QUADRANTS
      requires forall i | 0 <= i < |packets| :: |packets[i]| == MAXIMUM_SIZE
      modifies this`outbox
      ensures outbox == old(outbox) + BindingSends(bindingNeighbors[..], bnr, packets)
    {
      for quadrant := 0 to QUADRANTS
        invariant outbox == old(outbox) + BindingSends(bindingNeighbors[..quadrant], bnr, packets)
      {
        assert bindingNeighbors[..quadrant + 1][..quadrant] == bindingNeighbors[..quadrant];
        if bindingNeighbors[quadrant].Some? {
          var b := bindingNeighbors[quadrant].value;
          Send(b, bnr);
          RelayNeighborPackets(b, packets);
        }
      }
      assert bindingNeighbors[..QUADRANTS] == bindingNeighbors[..];
    }

    /** MOVE and the relayed NEIGHBOR packets to each temporary neighbour of `tempOrder`. */
    method SendTemporaryUpdates(move: seq<byte>, tempOrder: seq<Identifier>, packets: seq<seq<byte>>)
      requires forall i | 0 <= i < |packets| :: |packets[i]| == MAXIMUM_SIZE
      modifies this`outbox
      ensures outbox == old(outbox) + TemporarySends(move, tempOrder, packets)
    {
      for i := 0 to |tempOrder|
        invariant outbox == old(outbox) + TemporarySends(move, tempOrder[..i], packets)
      {
        assert tempOrder[..i + 1][..i] == tempOrder[..i];
        Send(tempOrder[i], move);
        RelayNeighborPackets(tempOrder[i], packets);
      }
      assert tempOrder[..|tempOrder|] == tempOrder;
    }

    /** The MOVE, MOVE_BNR and NEIGHBOR packets of one maintenance cycle. */
    method SendFanOut() returns (directOrder: seq<Identifier>, tempOrder: seq<Identifier>)
      requires bindingNeighbors.Length == QUADRANTS
      requires Bound(bindingNeighbors[..]) <= neighbors.Keys && temporaryNeighbors <= neighbors.Keys
      modifies this`outbox
      ensures IsOrdering(directOrder, directNeighbors) && IsOrdering(tempOrder, temporaryNeighbors)
      ensures outbox == old(outbox)
        + FanOut(localEntity, neighbors, bindingNeighbors[..], temporaryNeighbors, directOrder, tempOrder)
    {
      var movePacket := new Packet();
      movePacket.SetMovePacket(localEntity, false);
      var moveBnrPacket := new Packet();
      moveBnrPacket.SetMovePacket(localEntity, true);
      var move := movePacket.data[..];
      var bnr := moveBnrPacket.data[..];

      var packets;
      packets, tempOrder := BuildNeighborPackets();
      directOrder := SendDirectMoves(move);
      ghost var afterMoves := outbox;
      SendBindingUpdates(bnr, packets);
      ghost var afterBinding := outbox;
      SendTemporaryUpdates(move, tempOrder, packets);
      ghost var d := DirectMoves(move, bindingNeighbors[..], temporaryNeighbors, directOrder);
      ghost var b := BindingSends(bindingNeighbors[..], bnr, packets);
      ghost var t := TemporarySends(move, tempOrder, packets);
      assert outbox == old(outbox) + d + b + t;
      ConcatAssociative(old(outbox), d, b, t);
    }

    /**
     * The sending half of the maintenance cycle: reclassify the table, send
     * the fan-out, and keep only the classified entries.
     */
    method SendPositionUpdates()
      requires Valid()
      modifies this`directNeighbors, this`temporaryNeighbors, this`neighbors, this`outbox, bindingNeighbors
      ensures Valid()
      ensures directNeighbors == DirectSet(localEntity, old(neighbors))
      ensures IsBindingChoice(localEntity, old(neighbors), bindingNeighbors[..])
      ensures temporaryNeighbors == TemporarySet(old(neighbors), bindingNeighbors[..])
      ensures neighbors == Restrict(old(neighbors), directNeighbors + Bound(bindingNeighbors[..]) + temporaryNeighbors)
      ensures neighbors.Keys == directNeighbors + Bound(bindingNeighbors[..]) + temporaryNeighbors
      ensures exists directOrder, tempOrder ::
        && IsOrdering(directOrder, directNeighbors)
        && IsOrdering(tempOrder, temporaryNeighbors)
        && outbox == old(outbox) + FanOut(localEntity, old(neighbors), bindingNeighbors[..], temporaryNeighbors, directOrder, tempOrder)
    {
      UpdateDirectNeighbors();
      UpdateBindingNeighbors();
      UpdateTemporaryNeighbors();
      ClassificationCovers(localEntity, neighbors, bindingNeighbors[..]);
      var directOrder, tempOrder := SendFanOut();
      UpdateNeighbors();
      CycleWellFormed(localEntity, old(neighbors), bindingNeighbors[..]);
    }

    /**
     * The sweep: drops every entry that has timed out at `now` from the
     * table, both sets and its binding slot.
     */
    method CheckForTimeOuts(now: int64)
      requires Valid()
      modifies this`neighbors, this`directNeighbors, this`temporaryNeighbors, bindingNeighbors
      ensures Valid()
      ensures neighbors == old(neighbors) - Expired(old(neighbors), now)
      ensures directNeighbors == old(directNeighbors) - Expired(old(neighbors), now)
      ensures temporaryNeighbors == old(temporaryNeighbors) - Expired(old(neighbors), now)
      ensures bindingNeighbors[..] == ClearSlots(old(bindingNeighbors[..]), Expired(old(neighbors), now))
    {
      var timeouts: set<Identifier> := {};
      var rest := neighbors.Keys;
      while rest != {}
        invariant rest <= neighbors.Keys
        invariant timeouts <= neighbors.Keys - rest
        invariant forall k | k in neighbors.Keys - rest :: k in timeouts <==> TimedOut(neighbors[k].lastContact, now)
        invariant bindingNeighbors[..] == ClearSlots(old(bindingNeighbors[..]), timeouts)
        invariant neighbors == old(neighbors) && directNeighbors == old(directNeighbors)
        invariant temporaryNeighbors == old(temporaryNeighbors)
        decreases |rest|
      {
        var k :| k in rest;
        var entity := neighbors[k];
        if TimedOut(entity.lastContact, now) {
          var quadrant := IsBindingNeighbor(k);
          ClearSlotsStep(old(bindingNeighbors[..]), timeouts, k, quadrant);
          if quadrant >= 0 {
            bindingNeighbors[quadrant] := None;
          }
          timeouts := timeouts + {k};
        }
        rest := rest - {k};
      }
      assert timeouts == Expired(neighbors, now);
      SweepKeepsWellFormed(neighbors, directNeighbors, old(bindingNeighbors[..]), temporaryNeighbors, timeouts);
      neighbors := neighbors - timeouts;
      directNeighbors := directNeighbors - timeouts;
      temporaryNeighbors := temporaryNeighbors - timeouts;
    }

    /**
     * One run of the update task: the sending half, then the sweep. The
     * table is then exactly the three classifications, and holds no entry
     * that has timed out at `now`.
     */
    method UpdateTask(now: int64)
      requires Valid()
      modifies this`directNeighbors, this`temporaryNeighbors, this`neighbors, this`outbox, bindingNeighbors
      ensures Valid()
      ensures exists slots, directOrder, tempOrder ::
        MaintenanceStep(localEntity, old(neighbors), now, old(outbox), slots, directOrder, tempOrder,
                        neighbors, directNeighbors, bindingNeighbors[..], temporaryNeighbors, outbox)
      ensures neighbors.Keys == directNeighbors + Bound(bindingNeighbors[..]) + temporaryNeighbors
      ensures forall k | k in neighbors :: k in old(neighbors) && neighbors[k] == old(neighbors)[k]
      ensures forall k | k in neighbors :: !TimedOut(neighbors[k].lastContact, now)
    {
      ghost var sent0 := outbox;
      SendPositionUpdates();
      ghost var slots := bindingNeighbors[..];
      ghost var directOrder, tempOrder :|
        && IsOrdering(directOrder, directNeighbors)
        && IsOrdering(tempOrder, temporaryNeighbors)
        && outbox == sent0 + FanOut(localEntity, old(neighbors), slots, temporaryNeighbors, directOrder, tempOrder);
      ghost var kept := neighbors;
      ghost var d := directNeighbors;
      ghost var t := temporaryNeighbors;
      SweepKeepsWellFormed(neighbors, directNeighbors, bindingNeighbors[..], temporaryNeighbors, Expired(neighbors, now));
      CheckForTimeOuts(now);
      assert MaintenanceStep(localEntity, old(neighbors), now, sent0, slots, directOrder, tempOrder,
                             neighbors, directNeighbors, bindingNeighbors[..], temporaryNeighbors, outbox);
    }

    /** Tells the mover `identifier` about every other direct neighbour that has just entered its area of interest. */
    method NotifyAboutNewNeighbors(identifier: Identifier)
      requires identifier in neighbors && directNeighbors <= neighbors.Keys
      modifies this`outbox
      ensures exists order ::
        IsOrdering(order, directNeighbors) && outbox == old(outbox) + Notifications(neighbors, identifier, order)
    {
      var table := neighbors;
      var entity := table[identifier];
      var order := Enumerate(directNeighbors);
      for i := 0 to |order|
        invariant outbox == old(outbox) + Notifications(table, identifier, order[..i])
      {
        assert order[..i + 1][..i] == order[..i];
        var n := order[i];
        var neighbor := table[n];
        // The set holds the table's own records, so `neighbor == entity` is `n == identifier`.
        if n != identifier
          && entity.position.DistanceTo(neighbor.position) <= entity.aoiRadius
          && entity.position.OldDistanceTo(neighbor.position) > entity.aoiRadius
        {
          SendNeighborPacket(identifier, neighbor);
        }
      }
      assert order[..|order|] == order;
      assert IsOrdering(order, directNeighbors) && outbox == old(outbox) + Notifications(neighbors, identifier, order);
    }

    /** The record update of a MOVE or MOVE_BNR: create the origin's record if unknown, then move it. */
    method RecordMove(identifier: Identifier, data: seq<byte>, bindingNeighborRequest: bool, now: int64)
      requires Valid()
      requires AOI_RADIUS + LONG_SIZE <= |data|
      modifies this`neighbors
      ensures Valid()
      ensures neighbors == AfterMove(old(neighbors), identifier, data, now, bindingNeighborRequest)
    {
      var table := neighbors;
      if identifier !in table {
        table := table[identifier := NewRemoteEntity(identifier)];
      }
      var entity := table[identifier];
      entity := entity.(position := entity.position.SetTo(GetPosition(data)));
      entity := entity.(aoiRadius := GetAoiRadius(data));
      entity := entity.(lastContact := now);
      entity := entity.(requestedUpdates := bindingNeighborRequest);
      table := table[identifier := entity];
      MoveKeepsWellFormed(neighbors, directNeighbors, bindingNeighbors[..], temporaryNeighbors,
                          identifier, data, now, bindingNeighborRequest);
      neighbors := table;
    }

    /**
     * MOVE or MOVE_BNR from the packet's origin: create or update its record,
     * then notify it if it is a direct neighbour.
     */
    method HandleMovePacket(packet: Packet, bindingNeighborRequest: bool, now: int64)
      requires Valid()
      requires packet.data.Length == MAXIMUM_SIZE && packet.origin.Some?
      requires GetType(packet.data[..]) == if bindingNeighborRequest then MOVE_BNR else MOVE
      modifies this`neighbors, this`outbox
      ensures Valid()
      ensures neighbors == AfterMove(old(neighbors), packet.origin.value, packet.data[..], now, bindingNeighborRequest)
      ensures MoveSends(old(outbox), outbox, neighbors, directNeighbors, packet.origin.value)
    {
      var identifier := GetIdentifier(packet.data[..], packet.origin).value;
      assert identifier == packet.origin.value;
      RecordMove(identifier, packet.data[..], bindingNeighborRequest, now);
      if identifier in directNeighbors {
        NotifyAboutNewNeighbors(identifier);
      }
    }

    /** NEIGHBOR: refresh the relaying origin, and learn about the subject if it is new. */
    method HandleNeighborPacket(packet: Packet, now: int64)
      requires Valid()
      requires packet.data.Length == MAXIMUM_SIZE && packet.origin.Some?
      requires GetType(packet.data[..]) == NEIGHBOR
      modifies this`neighbors
      ensures Valid()
      ensures neighbors == AfterNeighbor(old(neighbors), packet.origin.value,
                                         GetIdentifier(packet.data[..], None).value, packet.data[..], now)
    {
      var data := packet.data[..];
      var origin := packet.origin.value;
      var table := neighbors;
      if origin in table {
        table := table[origin := table[origin].(lastContact := now)];
      }
      var identifier := GetIdentifier(data, packet.origin).value;
      if identifier !in table {
        table := table[identifier := NewRemoteEntity(identifier)];
        var entity := table[identifier];
        entity := entity.(position := entity.position.SetTo(GetPosition(data)));
        entity := entity.(aoiRadius := GetAoiRadius(data));
        entity := entity.(lastContact := now);
        entity := entity.(requestedUpdates := false);
        assert entity == Introduced(identifier, data, now);
        table := table[identifier := entity];
      }
      assert table == AfterNeighbor(neighbors, origin, identifier, data, now);
      NeighborKeepsWellFormed(neighbors, directNeighbors, bindingNeighbors[..], temporaryNeighbors,
                              origin, identifier, data, now);
      neighbors := table;
    }

    /** Some entry strictly closer to `position` than the local entity (the last one iterated), if any. */
    method FindForwardTarget(position: Position) returns (nearest: Option<Identifier>)
      ensures nearest.None? <==> forall k | k in neighbors :: !Closer(localEntity, neighbors[k], position)
      ensures nearest.Some? ==> nearest.value in neighbors && Closer(localEntity, neighbors[nearest.value], position)
    {
      nearest := None;
      var rest := neighbors.Keys;
      while rest != {}
        invariant rest <= neighbors.Keys
        invariant nearest.None? <==> forall k | k in neighbors.Keys - rest :: !Closer(localEntity, neighbors[k], position)
        invariant nearest.Some? ==> nearest.value in neighbors && Closer(localEntity, neighbors[nearest.value], position)
        decreases |rest|
      {
        var k :| k in rest;
        var neighbor := neighbors[k];
        if neighbor.position.DistanceTo(position) < localEntity.position.DistanceTo(position) {
          nearest := Some(k);
        }
        rest := rest - {k};
      }
    }

    /** A NEIGHBOR packet of every entry, in the map's order, to `joiner`. */
    method SendNeighborsTo(joiner: Identifier) returns (order: seq<Identifier>)
      modifies this`outbox
      ensures IsOrdering(order, neighbors.Keys)
      ensures outbox == old(outbox) + NeighborsTo(joiner, neighbors, order)
    {
      var table := neighbors;
      order := Enumerate(table.Keys);
      for i := 0 to |order|
        invariant outbox == old(outbox) + NeighborsTo(joiner, table, order[..i])
      {
        assert order[..i + 1][..i] == order[..i];
        ghost var d := Datagram(joiner, NeighborBytes(table[order[i]]));
        assert NeighborsTo(joiner, table, order[..i + 1]) == NeighborsTo(joiner, table, order[..i]) + [d];
        SendNeighborPacket(joiner, table[order[i]]);
      }
      assert order[..|order|] == order;
    }

    /** The landing node's answer: JOIN_ACK, its own MOVE, then a NEIGHBOR packet per entry. */
    method SendJoinReply(joiner: Identifier) returns (order: seq<Identifier>)
      modifies this`outbox
      ensures IsOrdering(order, neighbors.Keys)
      ensures outbox == old(outbox) + JoinReply(localEntity, neighbors, joiner, order)
    {
      var ack := new Packet();
      ack.SetJoinAckPacket();
      Send(joiner, ack.data[..]);
      var movePacket := new Packet();
      movePacket.SetMovePacket(localEntity, false);
      Send(joiner, movePacket.data[..]);
      order := SendNeighborsTo(joiner);
      assert outbox == old(outbox) + [Datagram(joiner, JoinAckBytes()), Datagram(joiner, MoveBytes(localEntity, false))]
        + NeighborsTo(joiner, neighbors, order);
    }

    /** JOIN: forward it towards the joining position, or answer the joiner if no entry is closer. */
    method HandleJoinPacket(packet: Packet)
      requires packet.data.Length == MAXIMUM_SIZE
      requires GetType(packet.data[..]) == JOIN
      modifies this`outbox
      ensures JoinSends(old(outbox), outbox, localEntity, neighbors, packet.data[..])
    {
      var position := GetPosition(packet.data[..]);
      var nearest := FindForwardTarget(position);
      if nearest.Some? {
        Send(nearest.value, packet.data[..]);
      } else {
        var identifier := GetIdentifier(packet.data[..], packet.origin).value;
        var order := SendJoinReply(identifier);
      }
    }

    /**
     * Dispatch on the packet's type. The JOIN case has no `break`, so it
     * also releases the join gate, as JOIN_ACK does.
     */
    method HandlePacket(packet: Packet, now: int64)
      requires Valid()
      requires packet.data.Length == MAXIMUM_SIZE && packet.origin.Some?
      modifies this`neighbors, this`outbox, this`connected
      ensures Valid()
      ensures var data := packet.data[..]; var t := GetType(data);
        && ((t == MOVE || t == MOVE_BNR) ==>
              && neighbors == AfterMove(old(neighbors), packet.origin.value, data, now, t == MOVE_BNR)
              && MoveSends(old(outbox), outbox, neighbors, directNeighbors, packet.origin.value))
        && (t == NEIGHBOR ==>
              && neighbors == AfterNeighbor(old(neighbors), packet.origin.value, GetIdentifier(data, None).value, data, now)
              && outbox == old(outbox))
        && (t == JOIN ==> neighbors == old(neighbors) && JoinSends(old(outbox), outbox, localEntity, neighbors, data))
        && ((t == JOIN_ACK || t == LEAVE || t == INVALID) ==> neighbors == old(neighbors) && outbox == old(outbox))
        && connected == (old(connected) || t == JOIN || t == JOIN_ACK)
    {
      var t := GetType(packet.data[..]);
      if t == MOVE {
        HandleMovePacket(packet, false, now);
      } else if t == MOVE_BNR {
        HandleMovePacket(packet, true, now);
      } else if t == NEIGHBOR {
        HandleNeighborPacket(packet, now);
      } else if t == JOIN || t == JOIN_ACK {
        if t == JOIN {
          HandleJoinPacket(packet);
        }
        connected := true;
      }
    }
  }
}
