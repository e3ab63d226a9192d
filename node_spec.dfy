/**
 * The state of a QuON node as values, and what each step of the protocol
 * engine does to it: the classification of known entities into direct,
 * binding and temporary neighbours, the fan-out of a maintenance cycle, the
 * timeout sweep, and the effect of each kind of packet.
 *
 * The node's neighbour table maps identifiers to remote-entity records; the
 * direct and temporary sets and the four binding slots hold identifiers.
 * Java's hash sets and its binding array hold references to the table's own
 * records, and entities compare by identifier, so sets of identifiers with
 * the records looked up in the table say the same thing.
 */
module NodeSpec {
  import opened Bytes
  import opened Options
  import opened Positions
  import opened Identifiers
  import opened Entities
  import opened Packets

  /** `timeout`: milliseconds without contact after which a peer is dropped. */
  const TIMEOUT: int := 10000

  type Table = map<Identifier, RemoteEntity>

  type Slots = seq<Option<Identifier>>

  /** A datagram handed to the socket: its destination and its bytes. */
  datatype Datagram = Datagram(to: Identifier, data: seq<byte>)

  // =====================================================================
  // Classification

  function Distance(local: Entity, r: RemoteEntity): nat
  {
    local.position.DistanceTo(r.position)
  }

  function QuadrantOf(local: Entity, r: RemoteEntity): int
  {
    local.position.Classify(r.position)
  }

  /** The entries within the local entity's area of interest. */
  function DirectSet(local: Entity, table: Table): set<Identifier>
  {
    set k | k in table && Distance(local, table[k]) <= local.aoiRadius
  }

  /**
   * `slot` is a nearest entry of `keys` in quadrant `q`, or empty when no
   * entry of `keys` lies in that quadrant.
   */
  predicate BestAmong(local: Entity, table: Table, keys: set<Identifier>, q: int, slot: Option<Identifier>)
    requires keys <= table.Keys
  {
    match slot
    case None => forall k | k in keys :: QuadrantOf(local, table[k]) != q
    case Some(b) =>
      && b in keys
      && QuadrantOf(local, table[b]) == q
      && forall k | k in keys && QuadrantOf(local, table[k]) == q :: Distance(local, table[b]) <= Distance(local, table[k])
  }

  /** A possible outcome of `updateBindingNeighbors`, whatever the hash map's order. */
  predicate IsBindingChoice(local: Entity, table: Table, slots: Slots)
  {
    |slots| == QUADRANTS && forall q | 0 <= q < QUADRANTS :: BestAmong(local, table, table.Keys, q, slots[q])
  }

  /** The identifiers held in the binding slots. */
  function Bound(slots: Slots): set<Identifier>
  {
    set q | 0 <= q < |slots| && slots[q].Some? :: slots[q].value
  }

  lemma InBound(slots: Slots, x: Identifier)
    ensures x in Bound(slots) <==> exists q :: 0 <= q < |slots| && slots[q] == Some(x)
  {
    if exists q :: 0 <= q < |slots| && slots[q] == Some(x) {
      var q :| 0 <= q < |slots| && slots[q] == Some(x);
      assert slots[q].value == x;
    }
  }

  /** Slots filled one at a time: the occupants of a longer prefix. */
  lemma BoundSnoc(slots: Slots, q: int)
    requires 0 <= q < |slots|
    ensures Bound(slots[..q + 1]) == Bound(slots[..q]) + (if slots[q].Some? then {slots[q].value} else {})
    ensures Bound(slots[..q]) <= Bound(slots)
  {
    var a := slots[..q + 1];
    var b := slots[..q];
    forall x ensures x in Bound(a) <==> x in Bound(b) || slots[q] == Some(x) {
      InBound(a, x);
      InBound(b, x);
      if x in Bound(a) {
        var p :| 0 <= p < |a| && a[p] == Some(x);
        if p < q { assert b[p] == Some(x); }
      }
      if x in Bound(b) {
        var p :| 0 <= p < |b| && b[p] == Some(x);
        assert a[p] == Some(x);
      }
      if slots[q] == Some(x) { assert a[q] == Some(x); }
    }
    forall x | x in Bound(b) ensures x in Bound(slots) {
      InBound(b, x);
      InBound(slots, x);
      var p :| 0 <= p < |b| && b[p] == Some(x);
      assert slots[p] == Some(x);
    }
  }

  lemma BoundPrefixes(slots: Slots)
    ensures forall q | 0 <= q <= |slots| :: Bound(slots[..q]) <= Bound(slots)
  {
    forall q, x | 0 <= q <= |slots| && x in Bound(slots[..q]) ensures x in Bound(slots) {
      InBound(slots[..q], x);
      InBound(slots, x);
      var p :| 0 <= p < q && slots[..q][p] == Some(x);
      assert slots[p] == Some(x);
    }
  }

  /** Four empty slots hold nobody, and no identifier twice. */
  lemma EmptySlots(slots: Slots)
    requires forall q | 0 <= q < |slots| :: slots[q] == None
    ensures Bound(slots) == {} && SlotsDistinct(slots)
  {
    forall x ensures x !in Bound(slots) { InBound(slots, x); }
  }

  /** Entries that asked for updates and are not binding neighbours. */
  function TemporarySet(table: Table, slots: Slots): set<Identifier>
  {
    set k | k in table && table[k].requestedUpdates && k !in Bound(slots)
  }

  /** No identifier occupies two slots. */
  predicate SlotsDistinct(slots: Slots)
  {
    forall p, q | 0 <= p < q < |slots| :: slots[p].Some? ==> slots[p] != slots[q]
  }

  /** The table cut down to `keys`, as `updateNeighbors` rebuilds it. */
  function Restrict(table: Table, keys: set<Identifier>): Table
  {
    map k | k in table && k in keys :: table[k]
  }

  /** A map holding exactly the entries of `table` at `keys` is the restriction. */
  lemma RestrictByEntries(table: Table, keys: set<Identifier>, m: Table)
    requires keys <= table.Keys && m.Keys == keys
    requires forall k | k in m :: m[k] == table[k]
    ensures m == Restrict(table, keys)
  {
  }

  /**
   * The invariant of the node between steps: every set and slot refers to
   * an entry of the table, temporaries are never binding neighbours, no
   * entry holds two slots, and every entry is filed under its own identifier.
   */
  predicate WellFormed(table: Table, direct: set<Identifier>, slots: Slots, temporary: set<Identifier>)
  {
    && |slots| == QUADRANTS
    && direct <= table.Keys
    && Bound(slots) <= table.Keys
    && temporary <= table.Keys
    && temporary !! Bound(slots)
    && SlotsDistinct(slots)
    && forall k | k in table :: table[k].identifier == k
  }

  /**
   * A binding choice puts no entry in two slots, and after the table is
   * rebuilt from the three classifications its keys are exactly their union.
   */
  lemma ClassificationCovers(local: Entity, table: Table, slots: Slots)
    requires IsBindingChoice(local, table, slots)
    ensures SlotsDistinct(slots)
    ensures Bound(slots) <= table.Keys
    ensures TemporarySet(table, slots) !! Bound(slots)
    ensures var keys := DirectSet(local, table) + Bound(slots) + TemporarySet(table, slots);
      Restrict(table, keys).Keys == keys
  {
    forall p, q | 0 <= p < q < |slots| && slots[p].Some?
      ensures slots[p] != slots[q]
    {
      assert QuadrantOf(local, table[slots[p].value]) == p;
    }
    forall x | x in Bound(slots)
      ensures x in table
    {
      InBound(slots, x);
      var q :| 0 <= q < |slots| && slots[q] == Some(x);
      assert BestAmong(local, table, table.Keys, q, slots[q]);
    }
  }

  /** What the maintenance cycle leaves is well formed, whatever it started from. */
  lemma CycleWellFormed(local: Entity, table: Table, slots: Slots)
    requires forall k | k in table :: table[k].identifier == k
    requires IsBindingChoice(local, table, slots)
    ensures var keys := DirectSet(local, table) + Bound(slots) + TemporarySet(table, slots);
      WellFormed(Restrict(table, keys), DirectSet(local, table), slots, TemporarySet(table, slots))
  {
    ClassificationCovers(local, table, slots);
  }

  // =====================================================================
  // Orders of iteration

  predicate Distinct(s: seq<Identifier>)
  {
    forall i, j | 0 <= i < j < |s| :: s[i] != s[j]
  }

  /** `s` lists every element of `elements` exactly once: one order a hash set may iterate in. */
  predicate IsOrdering(s: seq<Identifier>, elements: set<Identifier>)
  {
    && Distinct(s)
    && (forall i | 0 <= i < |s| :: s[i] in elements)
    && (forall k | k in elements :: k in s)
  }

  lemma {:induction false} OrderingSize(s: seq<Identifier>, elements: set<Identifier>)
    requires IsOrdering(s, elements)
    ensures |s| == |elements|
  {
    if s != [] {
      var last := s[|s| - 1];
      var rest := s[..|s| - 1];
      assert IsOrdering(rest, elements - {last}) by {
        forall k | k in elements - {last}
          ensures k in rest
        {
          var i :| 0 <= i < |s| && s[i] == k;
          assert i != |s| - 1;
          assert rest[i] == k;
        }
      }
      OrderingSize(rest, elements - {last});
    }
  }

  /** An ordering grows by one element not yet listed. */
  lemma OrderingSnoc(s: seq<Identifier>, elements: set<Identifier>, x: Identifier)
    requires IsOrdering(s, elements) && x !in elements
    ensures IsOrdering(s + [x], elements + {x})
  {
    var t := s + [x];
    forall k | k in elements + {x} ensures k in t {
      if k != x { var i :| 0 <= i < |s| && s[i] == k; assert t[i] == k; }
      else { assert t[|s|] == x; }
    }
  }

  // =====================================================================
  // Fan-out of a maintenance cycle

  lemma ConcatAssociative(a: seq<Datagram>, b: seq<Datagram>, c: seq<Datagram>, d: seq<Datagram>)
    ensures a + b + c + d == a + (b + c + d)
  {
  }

  /** MOVE to every direct neighbour of `order` that is neither a binding nor a temporary neighbour. */
  function DirectMoves(move: seq<byte>, slots: Slots, temporary: set<Identifier>, order: seq<Identifier>): seq<Datagram>
  {
    if order == [] then []
    else
      var n := order[|order| - 1];
      DirectMoves(move, slots, temporary, order[..|order| - 1])
        + (if n !in Bound(slots) && n !in temporary then [Datagram(n, move)] else [])
  }

  /** The occupants of the slots in quadrant order. */
  function SlotIds(slots: Slots): (ids: seq<Identifier>)
    ensures forall x :: x in ids <==> x in Bound(slots)
  {
    if slots == [] then []
    else
      var prefix := slots[..|slots| - 1];
      var last := slots[|slots| - 1];
      assert forall x :: x in Bound(slots) <==> x in Bound(prefix) || last == Some(x) by {
        forall x ensures x in Bound(slots) <==> x in Bound(prefix) || last == Some(x) {
          InBound(slots, x);
          InBound(prefix, x);
          if x in Bound(slots) {
            var q :| 0 <= q < |slots| && slots[q] == Some(x);
            if q < |prefix| { assert prefix[q] == Some(x); }
          }
          if x in Bound(prefix) {
            var q :| 0 <= q < |prefix| && prefix[q] == Some(x);
            assert slots[q] == Some(x);
          }
        }
      }
      SlotIds(prefix) + (if last.Some? then [last.value] else [])
  }

  /** One NEIGHBOR packet per identifier of `ids`, in that order. */
  function NeighborPackets(table: Table, ids: seq<Identifier>): (packets: seq<seq<byte>>)
    requires forall i | 0 <= i < |ids| :: ids[i] in table
    ensures |packets| == |ids|
    ensures forall i | 0 <= i < |ids| :: packets[i] == NeighborBytes(table[ids[i]]) && |packets[i]| == MAXIMUM_SIZE
  {
    seq(|ids|, i requires 0 <= i < |ids| => NeighborBytes(table[ids[i]]))
  }

  lemma NeighborPacketsSnoc(table: Table, ids: seq<Identifier>, x: Identifier)
    requires forall i | 0 <= i < |ids| :: ids[i] in table
    requires x in table
    ensures NeighborPackets(table, ids + [x]) == NeighborPackets(table, ids) + [NeighborBytes(table[x])]
  {
    var l := NeighborPackets(table, ids + [x]);
    var r := NeighborPackets(table, ids) + [NeighborBytes(table[x])];
    assert |l| == |r|;
    forall i | 0 <= i < |l| ensures l[i] == r[i] {
      if i < |ids| { assert (ids + [x])[i] == ids[i]; } else { assert (ids + [x])[i] == x; }
    }
  }

  /** Every packet of `packets` whose subject identifier is not `r`, sent to `r`. */
  function Relay(r: Identifier, packets: seq<seq<byte>>): seq<Datagram>
    requires forall i | 0 <= i < |packets| :: |packets[i]| == MAXIMUM_SIZE
  {
    if packets == [] then []
    else
      var p := packets[|packets| - 1];
      Relay(r, packets[..|packets| - 1])
        + (if GetIdentifier(p, None) != Some(r) then [Datagram(r, p)] else [])
  }

  /** MOVE_BNR and the relayed NEIGHBOR packets to every binding neighbour, in quadrant order. */
  function BindingSends(slots: Slots, bnr: seq<byte>, packets: seq<seq<byte>>): seq<Datagram>
    requires forall i | 0 <= i < |packets| :: |packets[i]| == MAXIMUM_SIZE
  {
    if slots == [] then []
    else
      var last := slots[|slots| - 1];
      BindingSends(slots[..|slots| - 1], bnr, packets)
        + (if last.Some? then [Datagram(last.value, bnr)] + Relay(last.value, packets) else [])
  }

  /** MOVE and the relayed NEIGHBOR packets to every temporary neighbour of `order`. */
  function TemporarySends(move: seq<byte>, order: seq<Identifier>, packets: seq<seq<byte>>): seq<Datagram>
    requires forall i | 0 <= i < |packets| :: |packets[i]| == MAXIMUM_SIZE
  {
    if order == [] then []
    else
      var t := order[|order| - 1];
      TemporarySends(move, order[..|order| - 1], packets) + [Datagram(t, move)] + Relay(t, packets)
  }

  /**
   * Everything a maintenance cycle sends, given the order in which the
   * direct set (`directOrder`) and the temporary set (`tempOrder`) iterate.
   */
  function FanOut(local: Entity, table: Table, slots: Slots, temporary: set<Identifier>,
                  directOrder: seq<Identifier>, tempOrder: seq<Identifier>): seq<Datagram>
    requires Bound(slots) <= table.Keys
    requires forall i | 0 <= i < |tempOrder| :: tempOrder[i] in table
  {
    var ids := SlotIds(slots) + tempOrder;
    var packets := NeighborPackets(table, ids);
    DirectMoves(MoveBytes(local, false), slots, temporary, directOrder)
      + BindingSends(slots, MoveBytes(local, true), packets)
      + TemporarySends(MoveBytes(local, false), tempOrder, packets)
  }

  lemma {:induction false} DirectMovesContents(move: seq<byte>, slots: Slots, temporary: set<Identifier>,
                                               order: seq<Identifier>, d: Datagram)
    ensures d in DirectMoves(move, slots, temporary, order) <==>
      d.data == move && d.to in order && d.to !in Bound(slots) && d.to !in temporary
  {
    if order != [] {
      var prefix := order[..|order| - 1];
      DirectMovesContents(move, slots, temporary, prefix, d);
      assert order == prefix + [order[|order| - 1]];
    }
  }

  lemma {:induction false} RelayContents(r: Identifier, packets: seq<seq<byte>>, d: Datagram)
    requires forall i | 0 <= i < |packets| :: |packets[i]| == MAXIMUM_SIZE
    ensures d in Relay(r, packets) <==> d.to == r && d.data in packets && GetIdentifier(d.data, None) != Some(r)
  {
    if packets != [] {
      var prefix := packets[..|packets| - 1];
      RelayContents(r, prefix, d);
      assert packets == prefix + [packets[|packets| - 1]];
    }
  }

  lemma {:induction false} BindingSendsContents(slots: Slots, bnr: seq<byte>, packets: seq<seq<byte>>, d: Datagram)
    requires forall i | 0 <= i < |packets| :: |packets[i]| == MAXIMUM_SIZE
    ensures d in BindingSends(slots, bnr, packets) <==>
      d.to in Bound(slots) && (d.data == bnr || d in Relay(d.to, packets))
  {
    if slots != [] {
      var prefix := slots[..|slots| - 1];
      var last := slots[|slots| - 1];
      BindingSendsContents(prefix, bnr, packets, d);
      assert SlotIds(slots) == SlotIds(prefix) + (if last.Some? then [last.value] else []);
      assert d.to in Bound(slots) <==> d.to in Bound(prefix) || last == Some(d.to);
      if last.Some? {
        RelayContents(last.value, packets, d);
      }
    }
  }

  lemma {:induction false} TemporarySendsContents(move: seq<byte>, order: seq<Identifier>, packets: seq<seq<byte>>, d: Datagram)
    requires forall i | 0 <= i < |packets| :: |packets[i]| == MAXIMUM_SIZE
    ensures d in TemporarySends(move, order, packets) <==>
      d.to in order && (d.data == move || d in Relay(d.to, packets))
  {
    if order != [] {
      var prefix := order[..|order| - 1];
      TemporarySendsContents(move, prefix, packets, d);
      assert order == prefix + [order[|order| - 1]];
      RelayContents(order[|order| - 1], packets, d);
    }
  }

  /** The subject read back from the NEIGHBOR packet of an entry is the entry's key. */
  lemma NeighborPacketsSubjects(table: Table, ids: seq<Identifier>, p: seq<byte>)
    requires forall k | k in table :: table[k].identifier == k
    requires forall i | 0 <= i < |ids| :: ids[i] in table
    ensures p in NeighborPackets(table, ids) <==>
      exists x :: x in ids && p == NeighborBytes(table[x])
    ensures p in NeighborPackets(table, ids) ==>
      (GetIdentifier(p, None).Some? && GetIdentifier(p, None).value in ids
       && p == NeighborBytes(table[GetIdentifier(p, None).value]))
  {
    var packets := NeighborPackets(table, ids);
    if p in packets {
      var i :| 0 <= i < |packets| && packets[i] == p;
      NeighborRoundTrip(table[ids[i]], None);
    }
    if exists x :: x in ids && p == NeighborBytes(table[x]) {
      var x :| x in ids && p == NeighborBytes(table[x]);
      var i :| 0 <= i < |ids| && ids[i] == x;
      assert packets[i] == p;
    }
  }

  /** Relaying the NEIGHBOR packets of `ids` to `r` sends `r` those of every member but `r` itself. */
  lemma RelayOfNeighborPackets(table: Table, ids: seq<Identifier>, r: Identifier, d: Datagram)
    requires forall k | k in table :: table[k].identifier == k
    requires forall i | 0 <= i < |ids| :: ids[i] in table
    ensures d in Relay(r, NeighborPackets(table, ids)) <==>
      d.to == r && exists x :: x in ids && x != r && d.data == NeighborBytes(table[x])
  {
    RelayContents(r, NeighborPackets(table, ids), d);
    NeighborPacketsSubjects(table, ids, d.data);
    if exists x :: x in ids && x != r && d.data == NeighborBytes(table[x]) {
      var x :| x in ids && x != r && d.data == NeighborBytes(table[x]);
      NeighborRoundTrip(table[x], None);
    }
  }

  /**
   * What a maintenance cycle sends, per recipient:
   * - a plain direct neighbour gets MOVE;
   * - a binding neighbour gets MOVE_BNR and the NEIGHBOR packet of every
   *   other binding or temporary neighbour;
   * - a temporary neighbour gets MOVE and the same NEIGHBOR packets;
   * and nothing else is sent.
   */
  lemma FanOutContents(local: Entity, table: Table, direct: set<Identifier>, slots: Slots, temporary: set<Identifier>,
                       directOrder: seq<Identifier>, tempOrder: seq<Identifier>, d: Datagram)
    requires WellFormed(table, direct, slots, temporary)
    requires IsOrdering(directOrder, direct) && IsOrdering(tempOrder, temporary)
    ensures d in FanOut(local, table, slots, temporary, directOrder, tempOrder) <==>
      || (d.data == MoveBytes(local, false) && d.to in direct && d.to !in Bound(slots) && d.to !in temporary)
      || (d.data == MoveBytes(local, true) && d.to in Bound(slots))
      || (d.data == MoveBytes(local, false) && d.to in temporary)
      || (d.to in Bound(slots) + temporary
          && exists x :: x in Bound(slots) + temporary && x != d.to && d.data == NeighborBytes(table[x]))
  {
    var ids := SlotIds(slots) + tempOrder;
    var packets := NeighborPackets(table, ids);
    DirectMovesContents(MoveBytes(local, false), slots, temporary, directOrder, d);
    BindingSendsContents(slots, MoveBytes(local, true), packets, d);
    TemporarySendsContents(MoveBytes(local, false), tempOrder, packets, d);
    RelayOfNeighborPackets(table, ids, d.to, d);
    assert forall x :: x in ids <==> x in Bound(slots) + temporary;
  }

  /** Nobody is sent its own NEIGHBOR packet. */
  lemma FanOutNoSelfIntroduction(local: Entity, table: Table, direct: set<Identifier>, slots: Slots, temporary: set<Identifier>,
                                 directOrder: seq<Identifier>, tempOrder: seq<Identifier>, d: Datagram, x: Identifier)
    requires WellFormed(table, direct, slots, temporary)
    requires IsOrdering(directOrder, direct) && IsOrdering(tempOrder, temporary)
    requires d in FanOut(local, table, slots, temporary, directOrder, tempOrder)
    requires x in table && d.data == NeighborBytes(table[x])
    ensures d.to != x
  {
    FanOutContents(local, table, direct, slots, temporary, directOrder, tempOrder, d);
    NeighborRoundTrip(table[x], None);
    MoveRoundTrip(local, false, None);
    MoveRoundTrip(local, true, None);
    if exists y :: y in Bound(slots) + temporary && y != d.to && d.data == NeighborBytes(table[y]) {
      var y :| y in Bound(slots) + temporary && y != d.to && d.data == NeighborBytes(table[y]);
      NeighborBytesInjective(table[x], table[y]);
    }
  }

  // =====================================================================
  // Crossing notification after a MOVE

  /** `f` has just entered `e`'s area of interest: inside now, outside from `e`'s previous position. */
  predicate Crossed(e: RemoteEntity, f: RemoteEntity)
  {
    e.position.DistanceTo(f.position) <= e.aoiRadius && e.position.OldDistanceTo(f.position) > e.aoiRadius
  }

  /** `notifyAboutNewNeighbors(table[id])` over the direct set in `order`. */
  function Notifications(table: Table, id: Identifier, order: seq<Identifier>): seq<Datagram>
    requires id in table
    requires forall i | 0 <= i < |order| :: order[i] in table
  {
    if order == [] then []
    else
      var n := order[|order| - 1];
      Notifications(table, id, order[..|order| - 1])
        + (if n != id && Crossed(table[id], table[n]) then [Datagram(id, NeighborBytes(table[n]))] else [])
  }

  /**
   * The notification tells the mover about exactly the other direct
   * neighbours that have just entered its area of interest.
   */
  lemma {:induction false} NotificationsContents(table: Table, id: Identifier, direct: set<Identifier>,
                                                 order: seq<Identifier>, d: Datagram)
    requires id in table && direct <= table.Keys
    requires forall i | 0 <= i < |order| :: order[i] in direct
    ensures d in Notifications(table, id, order) <==>
      d.to == id && exists f :: f in order && f != id && Crossed(table[id], table[f]) && d.data == NeighborBytes(table[f])
  {
    if order != [] {
      var prefix := order[..|order| - 1];
      NotificationsContents(table, id, direct, prefix, d);
      assert order == prefix + [order[|order| - 1]];
    }
  }

  /** The sends of a MOVE handler. */
  ghost predicate MoveSends(before: seq<Datagram>, after: seq<Datagram>, table: Table, direct: set<Identifier>, id: Identifier)
    requires id in table && direct <= table.Keys
  {
    if id in direct then
      exists order :: IsOrdering(order, direct) && after == before + Notifications(table, id, order)
    else after == before
  }

  /**
   * A MOVE handler only appends, and what it appends is a notification to
   * the mover about the other direct neighbours that have just entered its
   * area of interest, sent only when the mover is itself a direct neighbour.
   */
  lemma MoveSendsContents(before: seq<Datagram>, after: seq<Datagram>, table: Table, direct: set<Identifier>,
                          id: Identifier, d: Datagram)
    requires id in table && direct <= table.Keys
    requires MoveSends(before, after, table, direct, id)
    ensures |before| <= |after| && after[..|before|] == before
    ensures d in after[|before|..] <==>
      id in direct && d.to == id
      && exists f :: f in direct && f != id && Crossed(table[id], table[f]) && d.data == NeighborBytes(table[f])
  {
    if id in direct {
      var order :| IsOrdering(order, direct) && after == before + Notifications(table, id, order);
      assert after[|before|..] == Notifications(table, id, order);
      NotificationsContents(table, id, direct, order, d);
    } else {
      assert after[|before|..] == [];
    }
  }

  // =====================================================================
  // Records changed by packet handlers

  /** A record after a MOVE or MOVE_BNR packet with bytes `data` arrived at time `now`. */
  function Moved(prev: RemoteEntity, data: seq<byte>, now: int64, bindingNeighborRequest: bool): RemoteEntity
    requires AOI_RADIUS + LONG_SIZE <= |data|
  {
    prev.(position := prev.position.SetTo(GetPosition(data)),
          aoiRadius := GetAoiRadius(data),
          lastContact := now,
          requestedUpdates := bindingNeighborRequest)
  }

  /** The table after `handleMovePacket`: the origin's record, created if unknown, is moved. */
  function AfterMove(table: Table, id: Identifier, data: seq<byte>, now: int64, bindingNeighborRequest: bool): Table
    requires AOI_RADIUS + LONG_SIZE <= |data|
  {
    var prev := if id in table then table[id] else NewRemoteEntity(id);
    table[id := Moved(prev, data, now, bindingNeighborRequest)]
  }

  /**
   * After a MOVE the origin's record has the packet's coordinates, keeps its
   * previous coordinates as the old ones ((0, 0) for a new record), has the
   * packet's radius and the contact time, and asked for updates iff the
   * packet was a MOVE_BNR; every other record is unchanged.
   */
  lemma MoveUpdatesOrigin(table: Table, id: Identifier, data: seq<byte>, now: int64, bindingNeighborRequest: bool)
    requires AOI_RADIUS + LONG_SIZE <= |data|
    ensures var t := AfterMove(table, id, data, now, bindingNeighborRequest);
      && t.Keys == table.Keys + {id}
      && (forall k | k in table && k != id :: t[k] == table[k])
      && t[id].position.x == GetPosition(data).x && t[id].position.y == GetPosition(data).y
      && (id in table ==> t[id].position.oldX == table[id].position.x && t[id].position.oldY == table[id].position.y)
      && (id !in table ==> t[id].position.oldX == 0 && t[id].position.oldY == 0 && t[id].identifier == id)
      && t[id].aoiRadius == GetAoiRadius(data)
      && t[id].lastContact == now
      && t[id].requestedUpdates == bindingNeighborRequest
  {
  }

  /** Handling a MOVE keeps the node well formed. */
  lemma MoveKeepsWellFormed(table: Table, direct: set<Identifier>, slots: Slots, temporary: set<Identifier>,
                            id: Identifier, data: seq<byte>, now: int64, bindingNeighborRequest: bool)
    requires WellFormed(table, direct, slots, temporary)
    requires AOI_RADIUS + LONG_SIZE <= |data|
    ensures WellFormed(AfterMove(table, id, data, now, bindingNeighborRequest), direct, slots, temporary)
  {
  }

  /** A record for a subject first heard of through a NEIGHBOR packet. */
  function Introduced(subject: Identifier, data: seq<byte>, now: int64): RemoteEntity
    requires AOI_RADIUS + LONG_SIZE <= |data|
  {
    var blank := NewRemoteEntity(subject);
    blank.(position := blank.position.SetTo(GetPosition(data)),
           aoiRadius := GetAoiRadius(data),
           lastContact := now,
           requestedUpdates := false)
  }

  /** The table after `handleNeighborPacket` from `origin` about `subject`. */
  function AfterNeighbor(table: Table, origin: Identifier, subject: Identifier, data: seq<byte>, now: int64): Table
    requires AOI_RADIUS + LONG_SIZE <= |data|
  {
    var refreshed := if origin in table then table[origin := table[origin].(lastContact := now)] else table;
    if subject in refreshed then refreshed else refreshed[subject := Introduced(subject, data, now)]
  }

  /**
   * A NEIGHBOR packet refreshes a known relay's contact time, adds an unknown
   * subject with the packet's coordinates and radius and no update request,
   * and leaves a known subject's position, radius and flag alone.
   */
  lemma NeighborIntroduces(table: Table, origin: Identifier, subject: Identifier, data: seq<byte>, now: int64)
    requires AOI_RADIUS + LONG_SIZE <= |data|
    ensures var t := AfterNeighbor(table, origin, subject, data, now);
      && t.Keys == table.Keys + {subject}
      && (origin in table ==> t[origin].lastContact == now)
      && (subject in table ==> t[subject] == table[subject].(lastContact := t[subject].lastContact))
      && (subject !in table ==>
            t[subject].identifier == subject
            && t[subject].position.x == GetPosition(data).x && t[subject].position.y == GetPosition(data).y
            && t[subject].aoiRadius == GetAoiRadius(data)
            && !t[subject].requestedUpdates
            && t[subject].lastContact == now)
      && forall k | k in table && k != origin && k != subject :: t[k] == table[k]
  {
  }

  /** Handling a NEIGHBOR keeps the node well formed. */
  lemma NeighborKeepsWellFormed(table: Table, direct: set<Identifier>, slots: Slots, temporary: set<Identifier>,
                                origin: Identifier, subject: Identifier, data: seq<byte>, now: int64)
    requires WellFormed(table, direct, slots, temporary)
    requires AOI_RADIUS + LONG_SIZE <= |data|
    ensures WellFormed(AfterNeighbor(table, origin, subject, data, now), direct, slots, temporary)
  {
  }

  // =====================================================================
  // JOIN routing

  /** Entry `r` is strictly closer to `target` than the local entity. */
  predicate Closer(local: Entity, r: RemoteEntity, target: Position)
  {
    r.position.DistanceTo(target) < local.position.DistanceTo(target)
  }

  /** One NEIGHBOR packet per entry of `order`, all sent to `to`. */
  function NeighborsTo(to: Identifier, table: Table, order: seq<Identifier>): seq<Datagram>
    requires forall i | 0 <= i < |order| :: order[i] in table
  {
    if order == [] then []
    else NeighborsTo(to, table, order[..|order| - 1]) + [Datagram(to, NeighborBytes(table[order[|order| - 1]]))]
  }

  /** The landing node's answer to a joiner: JOIN_ACK, its own MOVE, then every entry's NEIGHBOR packet. */
  function JoinReply(local: Entity, table: Table, joiner: Identifier, order: seq<Identifier>): seq<Datagram>
    requires forall i | 0 <= i < |order| :: order[i] in table
  {
    [Datagram(joiner, JoinAckBytes()), Datagram(joiner, MoveBytes(local, false))] + NeighborsTo(joiner, table, order)
  }

  /**
   * The sends of a JOIN handler: the unchanged packet forwarded to some
   * entry strictly closer to the joining position, if there is one;
   * otherwise the reply to the joiner.
   */
  ghost predicate JoinSends(before: seq<Datagram>, after: seq<Datagram>, local: Entity, table: Table, data: seq<byte>)
    requires |data| == MAXIMUM_SIZE && GetType(data) == JOIN
  {
    var target := GetPosition(data);
    if exists k | k in table :: Closer(local, table[k], target) then
      exists k | k in table && Closer(local, table[k], target) :: after == before + [Datagram(k, data)]
    else
      exists order :: IsOrdering(order, table.Keys) && after == before + JoinReply(local, table, GetIdentifier(data, None).value, order)
  }

  /** The reply tells the joiner about every entry of the table, once each. */
  lemma {:induction false} NeighborsToContents(to: Identifier, table: Table, order: seq<Identifier>, d: Datagram)
    requires forall i | 0 <= i < |order| :: order[i] in table
    ensures |NeighborsTo(to, table, order)| == |order|
    ensures d in NeighborsTo(to, table, order) <==> d.to == to && exists k :: k in order && d.data == NeighborBytes(table[k])
  {
    if order != [] {
      var prefix := order[..|order| - 1];
      NeighborsToContents(to, table, prefix, d);
      assert order == prefix + [order[|order| - 1]];
    }
  }

  /**
   * A landing node's reply: first JOIN_ACK, then MOVE, then exactly one
   * NEIGHBOR packet per table entry, all addressed to the joiner.
   */
  lemma JoinReplyShape(local: Entity, table: Table, joiner: Identifier, order: seq<Identifier>, d: Datagram)
    requires IsOrdering(order, table.Keys)
    ensures var r := JoinReply(local, table, joiner, order);
      && |r| == 2 + |table|
      && r[0] == Datagram(joiner, [JOIN_ACK])
      && r[1] == Datagram(joiner, MoveBytes(local, false))
      && (d in r[2..] <==> d.to == joiner && exists k :: k in table && d.data == NeighborBytes(table[k]))
  {
    OrderingSize(order, table.Keys);
    NeighborsToContents(joiner, table, order, d);
    var r := JoinReply(local, table, joiner, order);
    assert r[2..] == NeighborsTo(joiner, table, order);
    JoinAckShape();
  }

  // =====================================================================
  // Timeout sweep

  /** The evidently intended test: at least `TIMEOUT` ms have passed since the last contact. */
  predicate TimedOut(lastContact: int, now: int)
  {
    now - lastContact >= TIMEOUT
  }

  /** The test as the sweep writes it: the last contact lies `TIMEOUT` ms or more in the FUTURE. */
  predicate TimedOutAsWritten(lastContact: int, now: int)
    ensures TimedOutAsWritten(lastContact, now) ==> lastContact > now
  {
    lastContact - now >= TIMEOUT
  }

  /** The entries the (intended) sweep removes. */
  function Expired(table: Table, now: int): set<Identifier>
  {
    set k | k in table && TimedOut(table[k].lastContact, now)
  }

  /** The entries the sweep as written would remove. */
  function ExpiredAsWritten(table: Table, now: int): set<Identifier>
  {
    set k | k in table && TimedOutAsWritten(table[k].lastContact, now)
  }

  /** As written, a table whose contact times all lie in the past never loses an entry. */
  lemma AsWrittenSweepRemovesNothing(table: Table, now: int)
    requires forall k | k in table :: table[k].lastContact <= now
    ensures ExpiredAsWritten(table, now) == {}
  {
    forall k | k in table ensures !TimedOutAsWritten(table[k].lastContact, now) {
      assert table[k].lastContact - now <= 0 < TIMEOUT;
    }
  }

  /** A peer silent since time 0 is kept at time 20000 as written, though it is overdue. */
  lemma AsWrittenKeepsSilentPeer(id: Identifier)
    ensures var table := map[id := NewRemoteEntity(id)];
      id !in ExpiredAsWritten(table, 20000) && id in Expired(table, 20000)
  {
  }

  /**
   * With the intended test the sweep keeps exactly the entries heard from
   * less than `TIMEOUT` ms ago.
   */
  lemma SweepKeepsTheRecent(table: Table, now: int, k: Identifier)
    ensures k in (table - Expired(table, now)) <==> k in table && now - table[k].lastContact < TIMEOUT
  {
  }

  /** The slots with every occupant in `gone` emptied. */
  function ClearSlots(slots: Slots, gone: set<Identifier>): (r: Slots)
    ensures |r| == |slots|
    ensures forall q | 0 <= q < |slots| :: r[q] == if slots[q].Some? && slots[q].value in gone then None else slots[q]
  {
    seq(|slots|, q requires 0 <= q < |slots| => if slots[q].Some? && slots[q].value in gone then None else slots[q])
  }

  /**
   * One more expired entry: emptying the slot it occupies (if any) moves
   * from clearing `gone` to clearing `gone + {k}`.
   */
  lemma ClearSlotsStep(slots: Slots, gone: set<Identifier>, k: Identifier, q: int)
    requires SlotsDistinct(slots) && k !in gone
    requires -1 <= q < |slots|
    requires q >= 0 ==> ClearSlots(slots, gone)[q] == Some(k)
    requires q < 0 ==> k !in Bound(ClearSlots(slots, gone))
    ensures (if q >= 0 then ClearSlots(slots, gone)[q := None] else ClearSlots(slots, gone)) == ClearSlots(slots, gone + {k})
  {
    var cur := ClearSlots(slots, gone);
    var next := ClearSlots(slots, gone + {k});
    var l := if q >= 0 then cur[q := None] else cur;
    forall i | 0 <= i < |slots| ensures l[i] == next[i] {
      if slots[i] == Some(k) {
        assert cur[i] == Some(k);
        if q < 0 {
          InBound(cur, k);
        }
      }
    }
  }

  /**
   * Removing expired entries from the table, both sets and the slots keeps
   * the node well formed, and keeps the table equal to the union of the
   * three classifications if it was.
   */
  lemma SweepKeepsWellFormed(table: Table, direct: set<Identifier>, slots: Slots, temporary: set<Identifier>, gone: set<Identifier>)
    requires WellFormed(table, direct, slots, temporary)
    ensures WellFormed(table - gone, direct - gone, ClearSlots(slots, gone), temporary - gone)
    ensures Bound(ClearSlots(slots, gone)) == Bound(slots) - gone
    ensures table.Keys == direct + Bound(slots) + temporary ==>
      (table - gone).Keys == (direct - gone) + Bound(ClearSlots(slots, gone)) + (temporary - gone)
  {
    var cleared := ClearSlots(slots, gone);
    forall x ensures x in Bound(cleared) <==> x in Bound(slots) && x !in gone {
      InBound(cleared, x);
      InBound(slots, x);
    }
  }

  // =====================================================================
  // One run of the update task

  /**
   * A run of the update task from the table `before` at time `now`: the
   * sending half classifies `before` (with binding choice `slots`), sends
   * the fan-out in some iteration order and keeps the classified entries;
   * the sweep then removes those of them that have timed out.
   */
  ghost predicate MaintenanceStep(local: Entity, before: Table, now: int, sentBefore: seq<Datagram>,
                                  slots: Slots, directOrder: seq<Identifier>, tempOrder: seq<Identifier>,
                                  table: Table, direct: set<Identifier>, newSlots: Slots,
                                  temporary: set<Identifier>, sent: seq<Datagram>)
  {
    var d := DirectSet(local, before);
    var t := TemporarySet(before, slots);
    var kept := Restrict(before, d + Bound(slots) + t);
    var gone := Expired(kept, now);
    && IsBindingChoice(local, before, slots)
    && Bound(slots) <= before.Keys
    && IsOrdering(directOrder, d)
    && IsOrdering(tempOrder, t)
    && sent == sentBefore + FanOut(local, before, slots, t, directOrder, tempOrder)
    && table == kept - gone
    && direct == d - gone
    && temporary == t - gone
    && newSlots == ClearSlots(slots, gone)
  }

  /**
   * After a run of the update task an entry survives iff it was in the
   * table, is a direct, binding or temporary neighbour of the classification,
   * and has not timed out; survivors keep their records.
   */
  lemma MaintenanceSurvivors(local: Entity, before: Table, now: int, sentBefore: seq<Datagram>,
                             slots: Slots, directOrder: seq<Identifier>, tempOrder: seq<Identifier>,
                             table: Table, direct: set<Identifier>, newSlots: Slots,
                             temporary: set<Identifier>, sent: seq<Datagram>, k: Identifier)
    requires MaintenanceStep(local, before, now, sentBefore, slots, directOrder, tempOrder,
                             table, direct, newSlots, temporary, sent)
    ensures k in table <==>
      && k in before
      && (Distance(local, before[k]) <= local.aoiRadius || k in Bound(slots) || before[k].requestedUpdates)
      && !TimedOut(before[k].lastContact, now)
    ensures k in table ==> table[k] == before[k]
    ensures k in direct <==> k in table && Distance(local, before[k]) <= local.aoiRadius
  {
    var d := DirectSet(local, before);
    var t := TemporarySet(before, slots);
    var kept := Restrict(before, d + Bound(slots) + t);
    assert k in kept <==> k in before && (k in d || k in Bound(slots) || k in t);
  }

  // =====================================================================
  // The lookup before the crossing notification

  /**
   * `directNeighbors.contains(identifier)` as written: the set holds remote
   * entities, and a hash-set lookup ends in `identifier.equals(element)` for
   * the elements with the same hash, which rejects every element because it
   * is of another class.
   */
  predicate DirectContainsAsWritten(direct: set<Identifier>, probe: Identifier)
  {
    exists d | d in direct :: d.HashCode() == probe.HashCode() && probe.Equals(EntityObject(d))
  }

  /** As written, the lookup fails whatever the set holds, so no notification is ever sent. */
  lemma DirectLookupAlwaysFails(direct: set<Identifier>, probe: Identifier)
    ensures !DirectContainsAsWritten(direct, probe)
  {
  }

  /** A mover that is a direct neighbour is not found by the lookup as written. */
  lemma DirectLookupMissesMember(id: Identifier)
    ensures id in {id} && !DirectContainsAsWritten({id}, id)
  {
  }
}
