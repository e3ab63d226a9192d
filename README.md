# QuON neighbour engine and wire layer, in Dafny

This project models JavaQuON, a peer-to-peer overlay for moving entities on a plane.
Each peer (a `Node`) keeps a table of the remote entities it knows. Every cycle it sorts them into three groups:

- **direct** neighbours: those inside its area of interest (AOI);
- **binding** neighbours: the nearest entry in each of the four quadrants around it;
- **temporary** neighbours: those that asked for updates.

It then sends each group position updates over UDP, drops the rest of the table, and sweeps out the peers it has not heard from.
Handlers for MOVE, MOVE_BNR, NEIGHBOR and JOIN datagrams update the table and send replies.

The model covers the following, one module per Java class.

- `Bytes`: Java's fixed-width integers and the big-endian `ByteBuffer` encodings.
- `Positions` (`Position`): the Chebyshev distance, the distance from the previous position, the quadrant code, `setTo`, and the 16-byte encoding.
- `Identifiers` (`Identifier`): a 4-byte IPv4 address and an `int` port, with value equality and the 8-byte encoding. It also has the `[a.b.c.d:port]` text and a parser that inverts that text.
- `Entities` (`Entity`, `RemoteEntity`): records with equality and hash by identifier only.
- `Packets` (`Packet`): the type codes, offsets and sizes. Builders fill a fresh `array<byte>` in place. Readers are pure functions over the bytes.
- `NodeSpec`: pure specifications of the engine's steps over the table. This covers classification, the fan-out as a list of datagrams, handler updates, JOIN routing and the timeout sweep, with lemmas about each.
- `Nodes` (`Node`): a class whose fields are the ones `Node.java` updates in place:
  - the table is a `map`;
  - the direct and temporary sets are sets of identifiers;
  - the binding slots are an `array<Option<Identifier>>`;
  - the sent datagrams are an `outbox` sequence;
  - the join latch is a boolean.

  Every method is proved against the `NodeSpec` functions. `Valid()` is the well-formedness invariant that every operation keeps.

### How the model reads the source

- **Iteration order.** Hash-map and hash-set iteration order is not specified. The methods iterate over an order picked by `Nodes.Enumerate` or by `:|`. Results that depend on that order are existential: "there is an ordering of the set such that the outbox grew by exactly …".
- **Each step is atomic.** The synchronized methods are modelled without concurrency.
- **Inputs replaced by parameters.** `System.currentTimeMillis()` is the parameter `now`. A received datagram is the payload plus the sender's identifier.
- **Set elements.** In the Java code, the direct and temporary sets and the binding slots hold the table's own `RemoteEntity` objects. Every table record is stored under its own identifier, so the sets and slots here hold identifiers. `Valid()` states that the sets and slots name table keys and that each record's identifier is its key.
- **Field offsets.** The offsets in `Packet.java` are computed from bit sizes (`Byte.SIZE`, `Long.SIZE`, `Integer.SIZE`). They are modelled as written: POSITION = 8, AOI_RADIUS = 136, IDENTIFIER = 200. MOVE packets are 201 bytes, NEIGHBOR and JOIN packets 237, and JOIN_ACK 1.
- **JOIN forwarding target.** JOIN forwarding is modelled as the code does it, not as nearest-neighbour routing. Each entry is compared with the local entity's distance, not with the best so far. So the target is some entry strictly closer than the local entity: the last one iterated.
- **Missing `break` after JOIN.** The JOIN case of `handlePacket` has no `break`. So a JOIN also releases the join gate, and the model does the same.

## Model

| member | source | states |
|---|---|---|
| `Bytes.Int64RoundTrip` | trunk/quon/Position.java:52-62 | `getLong` of the eight bytes `putLong` writes gives back the same `long`, negatives included |
| `Bytes.Int64BytesOf` | trunk/quon/Position.java:52-62 | the eight-byte encoding of `getLong`'s value is the original eight bytes |
| `Bytes.Int32RoundTrip` | quon/Identifier.java:25-32 | `getInt` of the four bytes `putInt` writes gives back the same `int` |
| `Bytes.Int32BytesOf` | quon/Identifier.java:25-32 | the four-byte encoding of `getInt`'s value is the original four bytes |
| `Bytes.Int64BytesValue` | trunk/quon/Packet.java:85 | the eight bytes `putLong` writes, read as an unsigned number, are the value modulo 2^64: its two's complement |
| `Bytes.Int64OfValue` | trunk/quon/Packet.java:63 | `getLong` gives the `long` congruent modulo 2^64 to the unsigned value of the eight bytes |
| `Bytes.Int32BytesValue` | quon/Identifier.java:68 | the four bytes `putInt` writes, read as an unsigned number, are the value modulo 2^32 |
| `Bytes.Int32OfValue` | quon/Identifier.java:31 | `getInt` gives the `int` congruent modulo 2^32 to the unsigned value of the four bytes |
| `Bytes.LongAtBytes` | trunk/quon/Packet.java:62-64 | the `long` read at an offset is the one whose encoding is the eight bytes found there |
| `Bytes.IntAtBytes` | quon/Identifier.java:31 | the `int` read at an offset is the one whose encoding is the four bytes found there |
| `Bytes.Put` | quon/Identifier.java:62-66 | writing a byte string at an offset changes exactly those bytes of the array and no others |
| `Bytes.PutLong` | trunk/quon/Packet.java:85 | `putLong` at an offset writes the big-endian two's complement at that offset and leaves every other byte alone |
| `Bytes.PutInt` | quon/Identifier.java:68 | `putInt` at an offset writes the big-endian two's complement at that offset and leaves every other byte alone |
| `Bytes.LongAtSplice` | trunk/quon/Packet.java:62-64 | reading a long where one was written yields the value written |
| `Bytes.IntAtSplice` | quon/Identifier.java:31 | reading an int where one was written yields the value written |
| `Bytes.SpliceAdjacent` | trunk/quon/Position.java:58-62 | two adjacent writes equal one write of the concatenated bytes |
| `Positions.Origin` | trunk/quon/Position.java:42-45 | `new Position()` is the position at (0, 0) |
| `Positions.At` | trunk/quon/Position.java:47-50 | `new Position(x, y)` has the given coordinates and previous coordinates (0, 0) |
| `Positions.Position.Classify` | trunk/quon/Position.java:21-28 | the quadrant is in 0..3; bit 0 is set iff the other x is strictly greater, and bit 1 iff the other y is strictly greater |
| `Positions.Position.DistanceTo` | trunk/quon/Position.java:30-34 | the distance is the larger of the absolute coordinate differences; it is at least each of them and equal to one |
| `Positions.DistanceSymmetric` | trunk/quon/Position.java:30-34 | the distance from a to b equals the distance from b to a |
| `Positions.DistanceZero` | trunk/quon/Position.java:30-34 | the distance is 0 exactly when both coordinates agree, so a position is at distance 0 from itself |
| `Positions.DistanceTriangle` | trunk/quon/Position.java:30-34 | the Chebyshev distance obeys the triangle inequality |
| `Positions.Position.OldDistanceTo` | trunk/quon/Position.java:36-40 | measures from the receiver's previous coordinates to the argument's current coordinates |
| `Positions.Position.SetTo` | trunk/quon/Position.java:64-69 | the new previous coordinates are the old current ones, and the new current ones are the argument's |
| `Positions.SetToRemembers` | trunk/quon/Position.java:64-69 | after `setTo(p)`, `oldDistanceTo(q)` is the `distanceTo(q)` from before the call, and `distanceTo(q)` is p's distance to q |
| `Positions.Position.Encode` | trunk/quon/Position.java:58-62 | the 16-byte encoding is x's eight big-endian bytes followed by y's |
| `Positions.Position.InsertData` | trunk/quon/Position.java:58-62 | writes exactly bytes offset..offset+15 with the encoding (x first), other bytes unchanged |
| `Positions.FromBytes` | trunk/quon/Position.java:52-56 | the decoded position has previous coordinates (0, 0), as a new Java object does |
| `Positions.FromBytesEncodes` | trunk/quon/Position.java:52-56 | the position read at an offset is the one whose 16-byte encoding is found there |
| `Positions.DecodeInserted` | trunk/quon/Position.java:52-62 | decoding at the offset where `insertData` wrote gives the same x and y |
| `Identifiers.Identifier.Equals` | quon/Identifier.java:43-60 | true exactly for another identifier with the same address bytes and port; false for null and other classes |
| `Identifiers.EqualsReflexive` | quon/Identifier.java:43-60 | every identifier equals itself |
| `Identifiers.EqualsSymmetric` | quon/Identifier.java:43-60 | a equals b iff b equals a |
| `Identifiers.EqualsOtherClass` | quon/Identifier.java:47-50 | `equals` is false for null and for an object of another class |
| `Identifiers.Identifier.HashCode` | quon/Identifier.java:34-41 | the hash is `31 * (31 * 1 + address hash) + port` reduced modulo 2^32 into the `int` range, as Java's `int` arithmetic wraps |
| `Identifiers.HashConsistent` | quon/Identifier.java:34-41 | equal identifiers have equal hash codes |
| `Identifiers.Wrap32` | quon/Identifier.java:34-41 | the result is the Java `int` congruent to the value modulo 2^32 |
| `Identifiers.Identifier.Encode` | quon/Identifier.java:62-69 | the eight bytes are the four address bytes followed by the big-endian port |
| `Identifiers.Identifier.InsertData` | quon/Identifier.java:62-69 | writes address bytes at offset..offset+3 and the port at offset+4..offset+7; no other byte changes |
| `Identifiers.FromBytesEncodes` | quon/Identifier.java:25-32 | the identifier read at an offset is the one whose eight-byte encoding is found there |
| `Identifiers.DecodeInserted` | quon/Identifier.java:25-32 | decoding at the offset where `insertData` wrote gives back the same identifier |
| `Identifiers.DigitChar` | quon/Identifier.java:71-73 | a digit below ten becomes the decimal character of that value |
| `Identifiers.NatToString` | quon/Identifier.java:71-73 | the decimal text is non-empty, all digits, and has no leading zero unless it is "0" |
| `Identifiers.IntToString` | quon/Identifier.java:75-78 | the decimal text of an `int` is non-empty |
| `Identifiers.ParseNatToString` | quon/Identifier.java:71-73 | reading back the decimal text of an octet gives the octet |
| `Identifiers.ParseIntToString` | quon/Identifier.java:75-78 | reading back the decimal text of the port, sign included, gives the port |
| `Identifiers.IpToString` | quon/Identifier.java:71-73 | the dotted address text contains no ':', so the port separator of `toString` is its first ':' |
| `Identifiers.Identifier.ToString` | quon/Identifier.java:75-78 | the text is at least two characters, opening with '[' and closing with ']' |
| `Identifiers.SplitAtFirst` | quon/Identifier.java:71-78 | the text splits at the first separator into the part before it and the rest |
| `Identifiers.DigitsHaveNoSeparator` | quon/Identifier.java:71-73 | a string of digits contains no separator character |
| `Identifiers.OctetText` | quon/Identifier.java:71-73 | an octet's text contains neither '.' nor ':' and reads back as the octet |
| `Identifiers.ParseDottedParts` | quon/Identifier.java:71-78 | four dot-free octet texts and a port text, joined by '.', '.', '.', ':', read back as those values |
| `Identifiers.ParseDottedText` | quon/Identifier.java:71-78 | the body of `toString` between the brackets reads back as the identifier |
| `Identifiers.ParseToString` | quon/Identifier.java:71-78 | `toString` is `[a.b.c.d:port]` with unsigned decimal octets, and parsing it gives back the identifier |
| `Identifiers.ToStringInjective` | quon/Identifier.java:71-78 | identifiers with the same text are identical |
| `Entities.Entity.Equals` | quon/Entity.java:22-26 | two entities are equal iff their identifiers are, whatever their positions and radii |
| `Entities.EntityHashConsistent` | quon/Entity.java:17-20 | equal entities have equal hash codes, both being the identifier's hash |
| `Entities.NewEntity` | quon/Entity.java:9-15 | a new entity keeps the given identifier, starts at (0, 0) with previous (0, 0), and has radius 0 |
| `Entities.RemoteEntity.AsEntity` | trunk/quon/RemoteEntity.java:8 | the entity part of a remote record has the same identifier, position and radius |
| `Entities.RemoteEntity.Equals` | trunk/quon/RemoteEntity.java:8 | equality is the inherited identifier test; contact time and request flag do not affect it |
| `Entities.RemoteEntity.HashCode` | quon/Entity.java:17-20 | a remote record hashes as its identifier, whatever its position, radius, contact time and flag |
| `Entities.RemoteHashConsistent` | trunk/quon/RemoteEntity.java:8 | equal remote records have equal hash codes |
| `Entities.NewRemoteEntity` | trunk/quon/RemoteEntity.java:9-14 | a new remote record is a new entity of that identifier, with contact time 0 and no update request |
| `Packets.LayoutValues` | trunk/quon/Packet.java:32-41 | the offsets are 0, 8, 136 and 200, and the sizes 201, 237, 237, 1 and 237 |
| `Packets.FieldsDisjoint` | trunk/quon/Packet.java:32-41 | the type, position, radius and identifier regions are disjoint and inside the sizes; every built packet fits the maximum, and NEIGHBOR and JOIN equal it |
| `Packets.GetType` | trunk/quon/Packet.java:46-56 | returns the first byte when it is 0..5 and INVALID (6) otherwise |
| `Packets.GetPosition` | trunk/quon/Packet.java:58-60 | the decoded position has previous coordinates (0, 0), as a new Java object does |
| `Packets.GetIdentifier` | trunk/quon/Packet.java:66-71 | for NEIGHBOR and JOIN it yields an identifier (the decoded subject); for every other type it returns the origin |
| `Packets.FieldsEncode` | trunk/quon/Packet.java:58-71 | the position, the radius and, for NEIGHBOR and JOIN, the identifier read from a buffer are the values whose encodings sit at their offsets |
| `Packets.HeaderLayout` | trunk/quon/Packet.java:77-102 | a header holds the type byte, the encoded position and the encoded radius at their offsets and zero elsewhere; the subject's encoding follows it, the header bytes before it intact |
| `Packets.MoveBytes` | trunk/quon/Packet.java:77-86 | a MOVE packet is 201 bytes, and its type is MOVE_BNR iff a binding-neighbour request is made, otherwise MOVE |
| `Packets.NeighborBytes` | trunk/quon/Packet.java:88-94 | a NEIGHBOR packet is 237 bytes, the maximum size; its type and fields are stated by `Packets.NeighborRoundTrip` |
| `Packets.JoinBytes` | trunk/quon/Packet.java:96-102 | a JOIN packet is 237 bytes of type JOIN |
| `Packets.JoinAckBytes` | trunk/quon/Packet.java:104-107 | a JOIN_ACK packet is exactly the one byte JOIN_ACK |
| `Packets.HeaderRoundTrip` | trunk/quon/Packet.java:58-64 | a header written with a type, an entity's position and radius reads back as that type, position and radius |
| `Packets.WithSubjectRoundTrip` | trunk/quon/Packet.java:88-102 | a packet that also carries an identifier reads back that identifier, with type, position and radius intact |
| `Packets.MoveRoundTrip` | trunk/quon/Packet.java:77-86 | a built MOVE is 201 bytes, of type MOVE_BNR iff requested (else MOVE), with the entity's position and radius, and `getIdentifier` gives the origin |
| `Packets.NeighborRoundTrip` | trunk/quon/Packet.java:88-94 | a built NEIGHBOR is 237 bytes of type NEIGHBOR that reads back the record's position, radius and identifier |
| `Packets.JoinRoundTrip` | trunk/quon/Packet.java:96-102 | a built JOIN is 237 bytes of type JOIN that reads back the entity's position, radius and identifier |
| `Packets.JoinAckShape` | trunk/quon/Packet.java:104-107 | a JOIN_ACK is the single byte JOIN_ACK |
| `Packets.NeighborBytesInjective` | trunk/quon/Packet.java:88-94 | NEIGHBOR packets with the same bytes introduce the same identifier |
| `Packets.ReceiveBuffer` | trunk/quon/Packet.java:109-118 | a received datagram sits in a zeroed buffer of the maximum size, payload first |
| `Packets.ReceivedReadsAsBuilt` | trunk/quon/Packet.java:109-118 | a built packet read from the receive buffer has the same type, position, radius and identifier as the packet sent |
| `Packets.WriteHeader` | trunk/quon/Packet.java:77-86 | filling a zeroed array with the type, position and radius yields the header layout |
| `Packets.Packet.SetMovePacket` | trunk/quon/Packet.java:77-86 | `data` becomes a fresh array holding the MOVE layout, and the origin is unchanged |
| `Packets.Packet.SetNeighborPacket` | trunk/quon/Packet.java:88-94 | `data` becomes a fresh array holding the NEIGHBOR layout of the record |
| `Packets.Packet.SetJoinPacket` | trunk/quon/Packet.java:96-102 | `data` becomes a fresh array holding the JOIN layout of the entity |
| `Packets.Packet.SetJoinAckPacket` | trunk/quon/Packet.java:104-107 | `data` becomes a fresh one-byte array holding JOIN_ACK |
| `Packets.Packet.Receive` | trunk/quon/Packet.java:109-118 | `data` becomes the zeroed maximum-size buffer with the payload, and the origin is the sender |
| `Nodes.Node.constructor` | quon/Node.java:20-38 | a new node has the given local entity, an empty table, empty sets, four empty slots, nothing sent and a closed join gate |
| `Nodes.Node.Send` | trunk/quon/Packet.java:120-126 | sending appends exactly one datagram with that destination and those bytes |
| `Nodes.Node.SendNeighborPacket` | quon/Node.java:225-227 | builds a record's NEIGHBOR packet and sends it to the given peer |
| `Nodes.Node.Join` | quon/Node.java:57-65 | with a bootstrap peer, exactly the local entity's JOIN goes to it; without one nothing is sent |
| `Nodes.Node.EntitiesInAoi` | quon/Node.java:79-83 | the snapshot holds as many records as there are direct neighbours: every direct neighbour's record, and no other |
| `Nodes.Node.UpdateDirectNeighbors` | quon/Node.java:85-91 | the direct set becomes exactly the table entries within the local radius |
| `Nodes.Node.UpdateBindingNeighbors` | quon/Node.java:93-105 | each slot is empty iff no entry lies in its quadrant, and otherwise holds an entry of that quadrant at minimal distance |
| `Nodes.Node.IsBindingNeighbor` | quon/Node.java:107-113 | returns -1 iff the entry is in no slot, and otherwise the first slot holding it |
| `Nodes.Node.UpdateTemporaryNeighbors` | quon/Node.java:115-122 | the temporary set becomes exactly the entries that requested updates and are in no slot |
| `Nodes.Node.PutAll` | quon/Node.java:126-127 | the chosen records are put back under their keys; every entry is still the original record |
| `Nodes.Node.UpdateNeighbors` | quon/Node.java:124-133 | the table becomes the old table restricted to direct, binding and temporary neighbours, with records unchanged |
| `Nodes.Node.BuildNeighborPackets` | quon/Node.java:148-162 | the list holds the NEIGHBOR packets of the slots in quadrant order, then of the temporary set in its iteration order |
| `Nodes.Node.SendDirectMoves` | quon/Node.java:164-168 | MOVE goes to each direct neighbour in iteration order that is neither binding nor temporary |
| `Nodes.Node.RelayNeighborPackets` | quon/Node.java:177-180 | every listed NEIGHBOR packet not about the recipient goes to it, in list order |
| `Nodes.Node.SendBindingUpdates` | quon/Node.java:170-181 | each occupied slot, in quadrant order, gets MOVE_BNR followed by the relayed NEIGHBOR packets |
| `Nodes.Node.SendTemporaryUpdates` | quon/Node.java:183-191 | each temporary neighbour gets MOVE followed by the relayed NEIGHBOR packets |
| `Nodes.Node.SendFanOut` | quon/Node.java:140-191 | the outbox grows by exactly the fan-out for some iteration order of the direct and temporary sets |
| `Nodes.Node.SendPositionUpdates` | quon/Node.java:135-194 | it reclassifies against the old table, sends the fan-out for some order, and keeps exactly the direct, binding and temporary entries unchanged |
| `Nodes.Node.CheckForTimeOuts` | quon/Node.java:196-217 | it removes exactly the timed-out entries from the table and both sets and empties their slots; all else is unchanged |
| `Nodes.Node.UpdateTask` | quon/Node.java:66-71 | one timer run is `NodeSpec.MaintenanceStep` from the old table for some binding choice and iteration orders: the fan-out is appended to the outbox, and the table, sets and slots are the classification of the old table with the expired entries then removed; the keys are the union of the groups, every record is an old one, none has timed out |
| `Nodes.Node.NotifyAboutNewNeighbors` | quon/Node.java:219-230 | the mover receives the NEIGHBOR packet of each other direct neighbour that has just entered its AOI, for some iteration order |
| `Nodes.Node.RecordMove` | quon/Node.java:233-242 | the origin's record, created if unknown, is advanced to the packet's position, radius, contact time and request flag |
| `Nodes.Node.HandleMovePacket` | quon/Node.java:232-247 | updates the origin's record as above, then sends the crossing notifications iff the origin is a direct neighbour |
| `Nodes.Node.HandleNeighborPacket` | quon/Node.java:249-265 | refreshes a known relaying origin's contact time, and adds an unknown subject from the packet |
| `Nodes.Node.FindForwardTarget` | quon/Node.java:268-274 | finds none iff no entry is strictly closer to the join position than the local entity; otherwise one strictly closer entry |
| `Nodes.Node.SendNeighborsTo` | quon/Node.java:292-297 | the joiner receives one NEIGHBOR packet per table entry, in iteration order |
| `Nodes.Node.SendJoinReply` | quon/Node.java:280-297 | the joiner receives JOIN_ACK, then the local MOVE, then one NEIGHBOR per entry |
| `Nodes.Node.HandleJoinPacket` | quon/Node.java:267-299 | forwards the unchanged JOIN to some strictly closer entry if one exists, and otherwise replies to the joiner |
| `Nodes.Node.HandlePacket` | quon/Node.java:301-325 | dispatches on the type; JOIN and JOIN_ACK open the join gate, the table is unchanged outside MOVE and NEIGHBOR, and other types change nothing |
| `NodeSpec.InBound` | quon/Node.java:107-113 | an identifier is bound iff some slot holds it |
| `NodeSpec.ClassificationCovers` | quon/Node.java:93-133 | after classification the slots are distinct table keys, the temporary set avoids them, and the kept keys are exactly the union |
| `NodeSpec.CycleWellFormed` | quon/Node.java:124-133 | the table rebuilt from a classification satisfies the node invariant |
| `NodeSpec.SlotIds` | quon/Node.java:150-157 | the occupied slots, in quadrant order, list exactly the bound identifiers |
| `NodeSpec.NeighborPackets` | quon/Node.java:148-162 | one NEIGHBOR packet of maximum size per listed identifier, in list order |
| `NodeSpec.DirectMovesContents` | quon/Node.java:164-168 | a datagram is a direct MOVE iff it is MOVE to a listed neighbour that is neither binding nor temporary |
| `NodeSpec.RelayContents` | quon/Node.java:177-180 | a datagram is relayed iff it goes to the recipient, is a listed packet, and does not introduce the recipient itself |
| `NodeSpec.BindingSendsContents` | quon/Node.java:170-181 | a datagram is a binding send iff it goes to a bound peer and is MOVE_BNR or a relayed packet |
| `NodeSpec.TemporarySendsContents` | quon/Node.java:183-191 | a datagram is a temporary send iff it goes to a temporary peer and is MOVE or a relayed packet |
| `NodeSpec.NeighborPacketsSubjects` | quon/Node.java:148-162 | the packets are exactly the listed records' NEIGHBOR packets, and each names its own subject |
| `NodeSpec.RelayOfNeighborPackets` | quon/Node.java:177-189 | the relay to r is exactly the NEIGHBOR packets of the listed peers other than r |
| `NodeSpec.FanOutContents` | quon/Node.java:140-191 | a datagram is sent iff it is one of: MOVE to a direct-only peer, MOVE_BNR to a binding peer, MOVE to a temporary peer, or another binding or temporary peer's NEIGHBOR to a binding or temporary peer |
| `NodeSpec.FanOutNoSelfIntroduction` | quon/Node.java:177-189 | no peer is sent its own NEIGHBOR packet |
| `NodeSpec.NotificationsContents` | quon/Node.java:219-230 | a notification goes only to the mover, and exactly for direct neighbours other than it that it now sees and did not see before |
| `NodeSpec.MoveSendsContents` | quon/Node.java:244-246 | a MOVE only appends; the appended datagrams are exactly the crossing notifications to the mover, and there are none unless the mover is a direct neighbour |
| `NodeSpec.MoveUpdatesOrigin` | quon/Node.java:232-242 | the origin has the packet's position, previous position, radius, contact time and flag (MOVE_BNR only), and other entries are unchanged |
| `NodeSpec.MoveKeepsWellFormed` | quon/Node.java:232-242 | a MOVE keeps the node invariant |
| `NodeSpec.NeighborIntroduces` | quon/Node.java:249-265 | the origin's contact is refreshed; an unknown subject gets the packet's data, the time and no request; a known subject keeps its data |
| `NodeSpec.NeighborKeepsWellFormed` | quon/Node.java:249-265 | a NEIGHBOR keeps the node invariant |
| `NodeSpec.NeighborsToContents` | quon/Node.java:292-297 | one datagram per listed entry, each the entry's NEIGHBOR to the joiner, and no others |
| `NodeSpec.JoinReplyShape` | quon/Node.java:280-297 | the reply is JOIN_ACK, then the MOVE, then exactly one NEIGHBOR per table entry |
| `NodeSpec.MaintenanceSurvivors` | quon/Node.java:66-71 | after one timer run an entry survives iff it was in the old table, lay within the radius, was bound or asked for updates, and has not timed out; survivors keep their records, and the direct set is the survivors within the radius |
| `NodeSpec.TimedOutAsWritten` | quon/Node.java:202 | the test as written holds only when the last contact lies after the current time |
| `NodeSpec.AsWrittenSweepRemovesNothing` | quon/Node.java:202 | with the test as written, a table whose contact times are all in the past loses no entry |
| `NodeSpec.AsWrittenKeepsSilentPeer` | quon/Node.java:202 | a peer silent for 20 s is kept by the test as written, but removed by the intended one |
| `NodeSpec.SweepKeepsTheRecent` | quon/Node.java:201-216 | with the intended test, an entry survives the sweep iff it was heard from less than 10000 ms ago |
| `NodeSpec.ClearSlots` | quon/Node.java:203-206 | exactly the slots holding a removed entry become empty |
| `NodeSpec.SweepKeepsWellFormed` | quon/Node.java:196-217 | the sweep keeps the node invariant, frees exactly the removed entries' slots, and keeps keys equal to the union of the groups |
| `NodeSpec.DirectLookupAlwaysFails` | quon/Node.java:244 | the lookup as written finds nothing, whatever the set holds |
| `NodeSpec.DirectLookupMissesMember` | quon/Node.java:244 | even a mover that is in the direct set is not found by the lookup as written |

## Left out

- The receive loop, `Thread.start`, `Timer`/`TimerTask` scheduling and `synchronized` (quon/Node.java:40-46, 55, 66-76). Each synchronized method is one atomic step. `Nodes.Node.UpdateTask` is one timer run; the timer would start it every `updateInterval` = 167 ms (quon/Node.java:31), a period the model does not represent.
- Waiting on the join latch (`connected.await()`, quon/Node.java:62-64) is left out, because it is blocking. The latch's state is the boolean `connected`, which JOIN and JOIN_ACK set.
- UDP I/O:
  - `DatagramSocket` creation and its failure path (quon/Node.java:49-53) are not part of this model.
  - `socket.send` is an append to the outbox.
  - `socket.receive` and its swallowed `IOException` are not modelled; a received datagram is a given payload plus the sender's identifier.
- `InetAddress`: `getByAddress`, `getAddress` and the swallowed `UnknownHostException` are left out. An address is four bytes, so the `null` address case of `equals`/`hashCode` cannot arise.
- The numeric value of `InetAddress.hashCode` is not modelled. `Identifiers.AddressHash` stands in for it by reading the address as a big-endian `int`. Of Java's hash codes, the model keeps only "equal implies equal hash".
- `Positions.Position.DistanceTo`: a mathematical integer, because Java's `long` subtraction and `Math.abs` can overflow at extreme coordinates. The same holds for `OldDistanceTo`.
- `Positions.Position.SetTo`: modelled on values. It returns the advanced position, which the handler stores back in the record. Java updates the shared `Position` object in place, and the overlap it could allow (an alias between the packet's position and a record's position) does not occur in the engine.
- Remote records are values in the table. The Java code mutates the shared `RemoteEntity` objects through the sets and slots. Because the sets and slots hold identifiers here, every update is visible through every group, as in Java.
- Changes to the local entity's position by the application are not modelled. `localEntity` is set by the constructor and no method here changes it.
- `System.currentTimeMillis()` is the parameter `now`.
- `Packet.NAMES` and `getOrigin` are left out: `NAMES` holds only labels, and `getOrigin` is the `origin` field itself. The `LEAVE` type code is modelled as far as the source goes: `Packets.GetType` recognises it and `Nodes.Node.HandlePacket` ignores it, and no LEAVE packet is ever built or handled.
- quon/TestApp.java (GUI, random motion, sleeping) is not part of this model.
- `Nodes.Node.HandleMovePacket` guards the notification with `identifier in directNeighbors`, the intended reading of quon/Node.java:244 (see Findings). As written, the guard is always false.
- `Nodes.Node.CheckForTimeOuts`: uses the intended test `now - lastContact >= timeout`, not the test at quon/Node.java:202 (see Findings).

## Findings

| source | as written | input that shows it | evidently intended | confidence | as-written member | corrected member |
|---|---|---|---|---|---|---|
| quon/Node.java:202 | `entity.lastContact - currentTime >= timeout`: removes a peer only if its last contact lies 10 s in the future | a peer last heard from at time 0, swept at time 20000: `0 - 20000 >= 10000` is false, so it is kept forever | `currentTime - entity.lastContact >= timeout` | high (not executed) | `NodeSpec.AsWrittenKeepsSilentPeer` | `NodeSpec.SweepKeepsTheRecent` |
| quon/Node.java:244 | `directNeighbors.contains(identifier)` probes a `HashSet<RemoteEntity>` with an `Identifier`; the lookup calls `Identifier.equals`, which rejects other classes, so it is always false and no crossing notification is sent | a mover whose record is in the direct set: the lookup still returns false | the mover's record is a direct neighbour | high (not executed) | `NodeSpec.DirectLookupMissesMember` | `NodeSpec.MoveSendsContents` |

The test as written is `NodeSpec.TimedOutAsWritten`, and `NodeSpec.AsWrittenSweepRemovesNothing` shows that sweeping with it removes nothing while all contact times lie in the past. `Nodes.Node.CheckForTimeOuts` and `Nodes.Node.UpdateTask` use the corrected test `NodeSpec.TimedOut`.

The lookup as written is `NodeSpec.DirectContainsAsWritten`, and `NodeSpec.DirectLookupAlwaysFails` shows that it never succeeds. `Nodes.Node.HandleMovePacket` uses the corrected membership test. `NodeSpec.MoveSendsContents`, built on `NodeSpec.NotificationsContents`, proves what a MOVE then sends.
