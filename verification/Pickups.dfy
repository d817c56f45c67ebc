// One tick of item pickup: which items are in reach, where they go, and what becomes of those that do not fit.

module Pickups {
  import opened Common
  import opened Inventories

  datatype Position = Position(x: real, y: real, z: real)

  /** Closer than the pickup range of 4. */
  predicate InReach(e: ItemEntity, p: Position) {
    (e.x - p.x) * (e.x - p.x) + (e.y - p.y) * (e.y - p.y) + (e.z - p.z) * (e.z - p.z) < 16.0
  }

  /** The range is measured along the straight line between the two. */
  lemma ReachExactly(e: ItemEntity, p: Position, distance: real)
    requires distance >= 0.0
    requires distance * distance == (e.x - p.x) * (e.x - p.x) + (e.y - p.y) * (e.y - p.y) + (e.z - p.z) * (e.z - p.z)
    ensures InReach(e, p) <==> distance < 4.0
  {
    if distance < 4.0 {
      assert distance * distance <= distance * 4.0;
    } else {
      assert distance * distance >= distance * 4.0;
    }
  }

  function Reached(es: seq<ItemEntity>, p: Position): seq<ItemEntity> {
    if es == [] then [] else (if InReach(es[0], p) then [es[0]] else []) + Reached(es[1..], p)
  }

  function OutOfReach(es: seq<ItemEntity>, p: Position): seq<ItemEntity> {
    if es == [] then [] else (if InReach(es[0], p) then [] else [es[0]]) + OutOfReach(es[1..], p)
  }

  /** The items in reach go into the inventory in reverse order. */
  function PickUp(inv: Inventory, es: seq<ItemEntity>): Inventory
    requires |inv| == INVENTORY_SIZE
    ensures |PickUp(inv, es)| == INVENTORY_SIZE
    decreases |es|
  {
    if es == [] then inv
    else
      var last := es[|es| - 1];
      PickUp(Insert(inv, 0, last.itemId, last.count).0, es[..|es| - 1])
  }

  /** How many items of a kind find no place. */
  function Unplaced(inv: Inventory, es: seq<ItemEntity>, itemId: int): int
    requires |inv| == INVENTORY_SIZE
    decreases |es|
  {
    if es == [] then 0
    else
      var last := es[|es| - 1];
      var (after, left) := Insert(inv, 0, last.itemId, last.count);
      (if last.itemId == itemId then left else 0) + Unplaced(after, es[..|es| - 1], itemId)
  }

  /** How many items of a kind some entities are. */
  function Ground(es: seq<ItemEntity>, itemId: int): int
    decreases |es|
  {
    if es == [] then 0 else (if es[0].itemId == itemId then es[0].count else 0) + Ground(es[1..], itemId)
  }

  predicate Counted(es: seq<ItemEntity>) {
    forall i :: 0 <= i < |es| ==> es[i].count > 0
  }

  // ---- accounting for one tick ----

  lemma {:induction false} GroundAppend(es: seq<ItemEntity>, e: ItemEntity, itemId: int)
    ensures Ground(es + [e], itemId) == Ground(es, itemId) + (if e.itemId == itemId then e.count else 0)
    decreases |es|
  {
    if es == [] {
      assert [e][1..] == [];
    } else {
      GroundAppend(es[1..], e, itemId);
      assert (es + [e])[1..] == es[1..] + [e];
    }
  }

  lemma GroundLast(es: seq<ItemEntity>, itemId: int)
    requires es != []
    ensures Ground(es, itemId) == Ground(es[..|es| - 1], itemId) + (if es[|es| - 1].itemId == itemId then es[|es| - 1].count else 0)
  {
    GroundAppend(es[..|es| - 1], es[|es| - 1], itemId);
    assert es == es[..|es| - 1] + [es[|es| - 1]];
  }

  lemma {:induction false} ReachSplitsGround(es: seq<ItemEntity>, p: Position, itemId: int)
    ensures Ground(es, itemId) == Ground(Reached(es, p), itemId) + Ground(OutOfReach(es, p), itemId)
    ensures Counted(es) ==> Counted(Reached(es, p)) && Counted(OutOfReach(es, p))
    decreases |es|
  {
    hide InReach;
    if es != [] {
      ReachSplitsGround(es[1..], p, itemId);
      var near, far := Reached(es[1..], p), OutOfReach(es[1..], p);
      assert es == [es[0]] + es[1..];
      assert Reached(es, p) == (if InReach(es[0], p) then [es[0]] + near else near) by { assert [] + near == near; }
      assert OutOfReach(es, p) == (if InReach(es[0], p) then far else [es[0]] + far) by { assert [] + far == far; }
      hide Reached, OutOfReach, Ground, Counted;
      GroundFirst(es[0], es[1..], itemId);
      GroundFirst(es[0], near, itemId);
      GroundFirst(es[0], far, itemId);
    }
  }

  lemma GroundFirst(e: ItemEntity, es: seq<ItemEntity>, itemId: int)
    ensures Ground([e] + es, itemId) == (if e.itemId == itemId then e.count else 0) + Ground(es, itemId)
    ensures Counted([e] + es) <==> e.count > 0 && Counted(es)
  {
    var all := [e] + es;
    assert all[1..] == es && all[0] == e;
    assert forall i :: 0 <= i < |es| ==> es[i] == all[i + 1];
  }

  /** What the inventory gains and what finds no place are together what was picked up, for every kind of item. */
  lemma {:induction false} PickUpAccounts(inv: Inventory, es: seq<ItemEntity>, itemId: int)
    requires Valid(inv) && Counted(es)
    ensures Valid(PickUp(inv, es)) && Unplaced(inv, es, itemId) >= 0
    ensures Total(PickUp(inv, es), itemId) + Unplaced(inv, es, itemId) == Total(inv, itemId) + Ground(es, itemId)
    decreases |es|
  {
    hide Total, Valid, Insert, Ground;
    assert |inv| == INVENTORY_SIZE by { ValidSize(inv); }
    if es != [] {
      var last := es[|es| - 1];
      InsertFrom(inv, 0, last.itemId, last.count, itemId);
      CapacityNonnegative(inv, 0, last.itemId);
      GroundLast(es, itemId);
      PickUpAccounts(Insert(inv, 0, last.itemId, last.count).0, es[..|es| - 1], itemId);
    } else {
      NoGround(itemId);
    }
  }

  lemma NoGround(itemId: int)
    ensures Ground([], itemId) == 0
  {
  }

  lemma ValidSize(inv: Inventory)
    requires Valid(inv)
    ensures |inv| == INVENTORY_SIZE
  {
  }

  /** Over a tick: items in the inventory, on the ground and unplaced afterwards are the items there were before. */
  lemma TickAccounts(inv: Inventory, es: seq<ItemEntity>, p: Position, itemId: int)
    requires Valid(inv) && Counted(es)
    ensures Total(PickUp(inv, Reached(es, p)), itemId) + Ground(OutOfReach(es, p), itemId)
            == Total(inv, itemId) + Ground(es, itemId) - Unplaced(inv, Reached(es, p), itemId)
  {
    ReachSplitsGround(es, p, itemId);
    PickUpAccounts(inv, Reached(es, p), itemId);
  }

  /** Each entity, when its turn comes, finds room for all its items. */
  predicate AllFit(inv: Inventory, es: seq<ItemEntity>)
    requires |inv| == INVENTORY_SIZE
    decreases |es|
  {
    es == [] ||
      (var last := es[|es| - 1];
       last.count <= Capacity(inv, 0, last.itemId) && AllFit(Insert(inv, 0, last.itemId, last.count).0, es[..|es| - 1]))
  }

  /** A tick conserves every kind of item exactly if each entity in reach fits when its turn comes. */
  lemma {:induction false} ConservedExactly(inv: Inventory, es: seq<ItemEntity>)
    requires Valid(inv) && Counted(es)
    ensures (forall itemId :: Unplaced(inv, es, itemId) == 0) <==> AllFit(inv, es)
    decreases |es|
  {
    hide Insert, Total, Capacity;
    if es != [] {
      var last, rest := es[|es| - 1], es[..|es| - 1];
      var (after, left) := Insert(inv, 0, last.itemId, last.count);
      InsertFrom(inv, 0, last.itemId, last.count, 0);
      ConservedExactly(after, rest);
      forall itemId
        ensures Unplaced(inv, es, itemId) == 0 <==> (last.itemId == itemId ==> left == 0) && Unplaced(after, rest, itemId) == 0
      {
        PickUpAccounts(after, rest, itemId);
        CapacityNonnegative(inv, 0, last.itemId);
      }
      assert left == 0 <==> last.count <= Capacity(inv, 0, last.itemId) by { CapacityNonnegative(inv, 0, last.itemId); }
      assert AllFit(inv, es) <==> last.count <= Capacity(inv, 0, last.itemId) && AllFit(after, rest);
      if AllFit(inv, es) {
        forall itemId
          ensures Unplaced(inv, es, itemId) == 0
        {
          assert Unplaced(after, rest, itemId) == 0;
        }
      } else if AllFit(after, rest) {
        assert Unplaced(inv, es, last.itemId) != 0;
      } else {
        var k :| Unplaced(after, rest, k) != 0;
        assert Unplaced(inv, es, k) != 0;
      }
    }
  }

  predicate OneKind(es: seq<ItemEntity>, itemId: int) {
    forall i :: 0 <= i < |es| ==> es[i].itemId == itemId
  }

  /** Items of one kind: what finds no place is what exceeds the free capacity before the tick. */
  lemma {:induction false} OneKindLoss(inv: Inventory, es: seq<ItemEntity>, itemId: int)
    requires Valid(inv) && Counted(es) && OneKind(es, itemId)
    ensures Unplaced(inv, es, itemId) == Ground(es, itemId) - Least(Ground(es, itemId), Capacity(inv, 0, itemId))
    decreases |es|
  {
    hide Insert, Total, Capacity, Ground;
    CapacityNonnegative(inv, 0, itemId);
    if es == [] {
      NoGround(itemId);
    } else {
      var last, rest := es[|es| - 1], es[..|es| - 1];
      GroundLast(es, itemId);
      InsertFrom(inv, 0, last.itemId, last.count, itemId);
      OneKindLoss(Insert(inv, 0, last.itemId, last.count).0, rest, itemId);
      GroundCounted(rest, itemId);
    }
  }

  lemma {:induction false} GroundCounted(es: seq<ItemEntity>, itemId: int)
    requires Counted(es)
    ensures Ground(es, itemId) >= 0
    decreases |es|
  {
    if es != [] { GroundCounted(es[1..], itemId); }
  }

  /** Slots with nothing in them, among those used for pickups. */
  function Empties(inv: Inventory, slot: nat): nat
    requires |inv| == INVENTORY_SIZE && slot <= PICKUP_SLOTS
    decreases PICKUP_SLOTS - slot
  {
    if slot == PICKUP_SLOTS then 0 else (if inv[slot].None? then 1 else 0) + Empties(inv, slot + 1)
  }

  /** The room for a kind of item in the slots before the first empty one. */
  function RoomBeforeGap(inv: Inventory, slot: nat, itemId: int): (room: int)
    requires |inv| == INVENTORY_SIZE && slot <= PICKUP_SLOTS
    ensures Valid(inv) ==> room >= 0
    decreases PICKUP_SLOTS - slot
  {
    if slot == PICKUP_SLOTS || inv[slot].None? then 0 else Room(inv[slot], itemId) + RoomBeforeGap(inv, slot + 1, itemId)
  }

  lemma {:induction false} GapsElsewhere(inv: Inventory, i: nat, slot: Option<ItemStack>, from: nat, itemId: int)
    requires |inv| == INVENTORY_SIZE && i < from <= PICKUP_SLOTS
    ensures Empties(inv[i := slot], from) == Empties(inv, from)
    ensures RoomBeforeGap(inv[i := slot], from, itemId) == RoomBeforeGap(inv, from, itemId)
    decreases PICKUP_SLOTS - from
  {
    if from < PICKUP_SLOTS { GapsElsewhere(inv, i, slot, from + 1, itemId); }
  }

  /** The slots that are taken are filled one after the other, and the rest of the last one stays at hand. */
  predicate OpenedInTurn(inv: Inventory, after: Inventory, slot: nat, itemId: int, n: int)
    requires |inv| == INVENTORY_SIZE == |after| && slot <= PICKUP_SLOTS
  {
    var taken := Empties(inv, slot) - Empties(after, slot);
    && taken >= 0
    && RoomBeforeGap(after, slot, itemId) + n >= RoomBeforeGap(inv, slot, itemId) + STACK_LIMIT * taken
    && (taken > 0 ==> n - RoomBeforeGap(inv, slot, itemId) > STACK_LIMIT * (taken - 1))
  }

  /** One slot's share of a pass. */
  predicate Shared(before: Option<ItemStack>, put: Option<ItemStack>, itemId: int, n: int, rest: int) {
    && put.Some? && rest == n - Least(Room(before, itemId), n)
    && Room(put, itemId) == Room(before, itemId) - (n - rest)
    && 0 <= n - rest <= STACK_LIMIT && (before.None? && rest > 0 ==> n - rest == STACK_LIMIT)
    && (before.None? ==> Room(before, itemId) == STACK_LIMIT)
  }

  lemma {:induction false} InsertOpens(inv: Inventory, slot: nat, itemId: int, n: int)
    requires Valid(inv) && slot <= PICKUP_SLOTS && n >= 0
    ensures Insert(inv, slot, itemId, n).1 == 0 ==> OpenedInTurn(inv, Insert(inv, slot, itemId, n).0, slot, itemId, n)
    decreases PICKUP_SLOTS - slot
  {
    if slot < PICKUP_SLOTS && n > 0 {
      var put := Put(inv[slot], itemId, n);
      var next, rest := inv[slot := put], n - Least(Room(inv[slot], itemId), n);
      assert Shared(inv[slot], put, itemId, n, rest) && Valid(next);
      var (after, left) := Insert(next, slot + 1, itemId, rest);
      assert Insert(inv, slot, itemId, n) == (after, left);
      InsertFrom(next, slot + 1, itemId, rest, itemId);
      hide Insert, Put, Room;
      InsertOpens(next, slot + 1, itemId, rest);
      GapsElsewhere(inv, slot, put, slot + 1, itemId);
      assert after[slot] == put;
      if left == 0 { OpenedFrom(inv, after, slot, itemId, n, rest); }
    }
  }

  lemma OpenedFrom(inv: Inventory, after: Inventory, slot: nat, itemId: int, n: int, rest: int)
    requires Valid(inv) && |after| == INVENTORY_SIZE && slot < PICKUP_SLOTS && n > 0
    requires Shared(inv[slot], after[slot], itemId, n, rest)
    requires OpenedInTurn(inv[slot := after[slot]], after, slot + 1, itemId, rest)
    ensures OpenedInTurn(inv, after, slot, itemId, n)
  {
    hide Room;
    GapsElsewhere(inv, slot, after[slot], slot + 1, itemId);
  }

  /** For any other kind there is at least as much room before the first empty slot as there was. */
  lemma {:induction false} InsertKeepsRoom(inv: Inventory, slot: nat, itemId: int, n: int, other: int)
    requires Valid(inv) && slot <= PICKUP_SLOTS && n >= 0 && other != itemId
    ensures RoomBeforeGap(Insert(inv, slot, itemId, n).0, slot, other) >= RoomBeforeGap(inv, slot, other)
    decreases PICKUP_SLOTS - slot
  {
    if slot < PICKUP_SLOTS && n > 0 {
      var put := Put(inv[slot], itemId, n);
      var next, rest := inv[slot := put], n - Least(Room(inv[slot], itemId), n);
      assert Valid(next) && put.Some? && (inv[slot].Some? ==> Room(put, other) == Room(inv[slot], other)) && Room(put, other) >= 0;
      var after := Insert(next, slot + 1, itemId, rest).0;
      assert Insert(inv, slot, itemId, n).0 == after;
      InsertFrom(next, slot + 1, itemId, rest, itemId);
      hide Insert, Put, Room;
      InsertKeepsRoom(next, slot + 1, itemId, rest, other);
      GapsElsewhere(inv, slot, put, slot + 1, other);
      assert after[slot] == put;
    }
  }

  lemma {:induction false} CapacityOfGaps(inv: Inventory, slot: nat, itemId: int)
    requires Valid(inv) && slot <= PICKUP_SLOTS
    ensures Capacity(inv, slot, itemId) >= RoomBeforeGap(inv, slot, itemId) + STACK_LIMIT * Empties(inv, slot)
    decreases PICKUP_SLOTS - slot
  {
    if slot < PICKUP_SLOTS {
      CapacityOfGaps(inv, slot + 1, itemId);
    }
  }

  /** The empty slots that the items of one kind may take: one for every 64 that find no room before the first of them. */
  function Needed(inv: Inventory, es: seq<ItemEntity>, itemId: int): (n: nat)
    requires |inv| == INVENTORY_SIZE
  {
    StacksOf(Ground(es, itemId) - RoomBeforeGap(inv, 0, itemId))
  }

  /** How many stacks so many items make. */
  function StacksOf(n: int): nat {
    if n <= 0 then 0 else (n + STACK_LIMIT - 1) / STACK_LIMIT
  }

  function NeededFor(inv: Inventory, es: seq<ItemEntity>, kinds: seq<int>): (n: nat)
    requires |inv| == INVENTORY_SIZE
  {
    if kinds == [] then 0 else Needed(inv, es, kinds[0]) + NeededFor(inv, es, kinds[1..])
  }

  lemma {:induction false} NeededLess(inv: Inventory, es: seq<ItemEntity>, after: Inventory, rest: seq<ItemEntity>, kinds: seq<int>,
                                      itemId: int, taken: nat)
    requires |inv| == INVENTORY_SIZE == |after| && Distinct(kinds)
    requires forall k | k in kinds && k != itemId :: Needed(after, rest, k) <= Needed(inv, es, k)
    requires itemId in kinds ==> Needed(after, rest, itemId) + taken <= Needed(inv, es, itemId)
    ensures NeededFor(after, rest, kinds) + (if itemId in kinds then taken else 0) <= NeededFor(inv, es, kinds)
    ensures itemId in kinds ==> Needed(inv, es, itemId) <= NeededFor(inv, es, kinds)
  {
    hide Needed;
    if kinds != [] {
      var more := kinds[1..];
      assert forall k :: k in kinds <==> k == kinds[0] || k in more;
      assert kinds[0] !in more;
      NeededLess(inv, es, after, rest, more, itemId, taken);
    }
  }

  /** What one pickup changes in the needs of its own kind. */
  lemma OwnNeedAfter(inv: Inventory, after: Inventory, rest: seq<ItemEntity>, last: ItemEntity)
    requires Valid(inv) && Counted(rest) && last.count > 0 && Insert(inv, 0, last.itemId, last.count) == (after, 0)
    ensures Valid(after) && Empties(after, 0) <= Empties(inv, 0)
    ensures Needed(after, rest, last.itemId) + (Empties(inv, 0) - Empties(after, 0)) <= Needed(inv, rest + [last], last.itemId)
  {
    hide Insert, Ground, RoomBeforeGap, Empties, Total, Capacity, StacksOf, Counted, Valid, OpenedInTurn;
    assert Valid(after) by { InsertFrom(inv, 0, last.itemId, last.count, last.itemId); }
    assert |inv| == INVENTORY_SIZE == |after| by { ValidSize(inv); ValidSize(after); }
    assert OpenedInTurn(inv, after, 0, last.itemId, last.count) by { InsertOpens(inv, 0, last.itemId, last.count); }
    var ground := Ground(rest, last.itemId);
    assert Ground(rest + [last], last.itemId) == ground + last.count by { GroundAppend(rest, last, last.itemId); }
    assert ground >= 0 by { GroundCounted(rest, last.itemId); }
    NeedOfOpened(inv, after, ground, last.itemId, last.count);
  }

  lemma NeedOfOpened(inv: Inventory, after: Inventory, ground: int, itemId: int, n: int)
    requires |inv| == INVENTORY_SIZE == |after| && ground >= 0 && n > 0 && OpenedInTurn(inv, after, 0, itemId, n)
    ensures Empties(after, 0) <= Empties(inv, 0)
    ensures StacksOf(ground - RoomBeforeGap(after, 0, itemId)) + (Empties(inv, 0) - Empties(after, 0))
         <= StacksOf(ground + n - RoomBeforeGap(inv, 0, itemId))
  {
    hide RoomBeforeGap, Empties;
    NeededArithmetic(ground, RoomBeforeGap(inv, 0, itemId), RoomBeforeGap(after, 0, itemId), n, Empties(inv, 0) - Empties(after, 0));
  }

  /** And in those of any other kind. */
  lemma OtherNeedAfter(inv: Inventory, after: Inventory, rest: seq<ItemEntity>, last: ItemEntity, other: int)
    requires Valid(inv) && last.count > 0 && other != last.itemId
    requires |after| == INVENTORY_SIZE && Insert(inv, 0, last.itemId, last.count) == (after, 0)
    ensures Needed(after, rest, other) <= Needed(inv, rest + [last], other)
  {
    InsertKeepsRoom(inv, 0, last.itemId, last.count, other);
    GroundAppend(rest, last, other);
    hide Insert, Ground, RoomBeforeGap, Valid;
  }

  lemma NeededArithmetic(ground: int, room: int, after: int, n: int, taken: nat)
    requires 0 <= n && 0 <= ground && after + n >= room + 64 * taken
    requires taken > 0 ==> n - room > 64 * (taken - 1)
    ensures StacksOf(ground - after) + taken <= StacksOf(ground + n - room)
  {
    assert ground - after <= ground + n - room - 64 * taken;
  }

  /**
   * If every kind of item in reach finds enough empty slots, one for every 64 of what does not fit before the first of
   * them, nothing is lost: whatever the order of the entities and the other stacks.
   */
  lemma {:induction false} EmptySlotsSuffice(inv: Inventory, es: seq<ItemEntity>, kinds: seq<int>)
    requires Valid(inv) && Counted(es) && Distinct(kinds) && forall i :: 0 <= i < |es| ==> es[i].itemId in kinds
    requires NeededFor(inv, es, kinds) <= Empties(inv, 0)
    ensures AllFit(inv, es)
    decreases |es|
  {
    if es != [] {
      var last, rest := es[|es| - 1], es[..|es| - 1];
      assert es == rest + [last] && Counted(rest) && last.itemId in kinds && last.count > 0;
      assert forall i :: 0 <= i < |rest| ==> rest[i] == es[i];
      var after := PickUpLast(inv, rest, last, kinds);
      EmptySlotsSuffice(after, rest, kinds);
      hide Insert, Capacity, Needed, NeededFor, Empties, Distinct, Valid, Counted;
      FirstFits(inv, rest, last);
    }
  }

  /** Picking the last entity up: all of it fits, and the slots it takes were needed for it. */
  lemma PickUpLast(inv: Inventory, rest: seq<ItemEntity>, last: ItemEntity, kinds: seq<int>) returns (after: Inventory)
    requires Valid(inv) && Counted(rest) && last.count > 0 && Distinct(kinds) && last.itemId in kinds
    requires NeededFor(inv, rest + [last], kinds) <= Empties(inv, 0)
    ensures Valid(after) && Insert(inv, 0, last.itemId, last.count) == (after, 0)
    ensures last.count <= Capacity(inv, 0, last.itemId)
    ensures NeededFor(after, rest, kinds) <= Empties(after, 0)
  {
    FitsNow(inv, rest, last, kinds);
    InsertFrom(inv, 0, last.itemId, last.count, last.itemId);
    hide Insert, Capacity, Total, Needed, NeededFor, Empties, Distinct, Counted;
    after := Insert(inv, 0, last.itemId, last.count).0;
    OwnNeedAfter(inv, after, rest, last);
    forall k | k in kinds && k != last.itemId
      ensures Needed(after, rest, k) <= Needed(inv, rest + [last], k)
    {
      OtherNeedAfter(inv, after, rest, last, k);
    }
    NeededLess(inv, rest + [last], after, rest, kinds, last.itemId, Empties(inv, 0) - Empties(after, 0));
  }

  lemma FirstFits(inv: Inventory, rest: seq<ItemEntity>, last: ItemEntity)
    requires |inv| == INVENTORY_SIZE && last.count <= Capacity(inv, 0, last.itemId)
    requires AllFit(Insert(inv, 0, last.itemId, last.count).0, rest)
    ensures AllFit(inv, rest + [last])
  {
    hide Insert, Capacity;
    assert (rest + [last])[..|rest|] == rest;
  }

  lemma FitsNow(inv: Inventory, rest: seq<ItemEntity>, last: ItemEntity, kinds: seq<int>)
    requires Valid(inv) && Counted(rest) && last.count > 0 && Distinct(kinds) && last.itemId in kinds
    requires NeededFor(inv, rest + [last], kinds) <= Empties(inv, 0)
    ensures last.count <= Capacity(inv, 0, last.itemId)
  {
    var es := rest + [last];
    hide NeededFor, Ground, RoomBeforeGap, Capacity;
    NeededLess(inv, es, inv, es, kinds, last.itemId, 0);
    GroundAppend(rest, last, last.itemId);
    GroundCounted(rest, last.itemId);
    CapacityOfGaps(inv, 0, last.itemId);
  }

  // ---- and how many empty slots are necessary ----

  /** The room for a kind of item in all its stacks. */
  function StackRoom(inv: Inventory, itemId: int): int
    requires |inv| == INVENTORY_SIZE
  {
    Capacity(inv, 0, itemId) - STACK_LIMIT * Empties(inv, 0)
  }

  /** The empty slots that the items of one kind take at the least: one for every 64 that find no room in any stack. */
  function LeastNeeded(inv: Inventory, es: seq<ItemEntity>, itemId: int): (n: nat)
    requires |inv| == INVENTORY_SIZE
  {
    StacksOf(Ground(es, itemId) - StackRoom(inv, itemId))
  }

  function LeastNeededFor(inv: Inventory, es: seq<ItemEntity>, kinds: seq<int>): (n: nat)
    requires |inv| == INVENTORY_SIZE
  {
    if kinds == [] then 0 else LeastNeeded(inv, es, kinds[0]) + LeastNeededFor(inv, es, kinds[1..])
  }

  /** A slot that a pass opens is lost to the other kinds; their stacks are left alone. */
  lemma {:induction false} InsertTakes(inv: Inventory, slot: nat, itemId: int, n: int, other: int)
    requires Valid(inv) && slot <= PICKUP_SLOTS && n >= 0
    ensures var after := Insert(inv, slot, itemId, n).0;
            && Empties(after, slot) <= Empties(inv, slot)
            && (other != itemId ==>
                  Capacity(after, slot, other) == Capacity(inv, slot, other) - STACK_LIMIT * (Empties(inv, slot) - Empties(after, slot)))
    decreases PICKUP_SLOTS - slot
  {
    if slot < PICKUP_SLOTS && n > 0 {
      var put := Put(inv[slot], itemId, n);
      var next, rest := inv[slot := put], n - Least(Room(inv[slot], itemId), n);
      assert Valid(next) && put.Some?;
      assert other != itemId ==> Room(put, other) == if inv[slot].None? then Room(inv[slot], other) - STACK_LIMIT else Room(inv[slot], other);
      var after := Insert(next, slot + 1, itemId, rest).0;
      assert Insert(inv, slot, itemId, n).0 == after;
      InsertFrom(next, slot + 1, itemId, rest, itemId);
      assert rest >= 0;
      hide Insert, Put, Room;
      InsertTakes(next, slot + 1, itemId, rest, other);
      GapsElsewhere(inv, slot, put, slot + 1, other);
      CapacityUpdate(inv, slot, put, slot + 1, other);
      assert after[slot] == put;
    }
  }

  /** What one pickup changes in what is needed at the least. */
  lemma LeastNeedAfter(inv: Inventory, after: Inventory, rest: seq<ItemEntity>, last: ItemEntity, k: int)
    requires Valid(inv) && last.count > 0
    requires |after| == INVENTORY_SIZE && Insert(inv, 0, last.itemId, last.count) == (after, 0)
    ensures Empties(after, 0) <= Empties(inv, 0)
    ensures LeastNeeded(inv, rest + [last], k)
         <= LeastNeeded(after, rest, k) + (if k == last.itemId then Empties(inv, 0) - Empties(after, 0) else 0)
  {
    hide Insert, Ground, Capacity, Empties, Total, Valid;
    InsertTakes(inv, 0, last.itemId, last.count, k);
    InsertFrom(inv, 0, last.itemId, last.count, k);
    GroundAppend(rest, last, k);
  }

  lemma {:induction false} LeastNeededLess(inv: Inventory, es: seq<ItemEntity>, after: Inventory, rest: seq<ItemEntity>,
                                           kinds: seq<int>, itemId: int, taken: nat)
    requires |inv| == INVENTORY_SIZE == |after| && Distinct(kinds)
    requires forall k | k in kinds :: LeastNeeded(inv, es, k) <= LeastNeeded(after, rest, k) + (if k == itemId then taken else 0)
    ensures LeastNeededFor(inv, es, kinds) <= LeastNeededFor(after, rest, kinds) + (if itemId in kinds then taken else 0)
  {
    hide LeastNeeded;
    if kinds != [] {
      var more := kinds[1..];
      assert forall k :: k in kinds <==> k == kinds[0] || k in more;
      assert kinds[0] !in more;
      LeastNeededLess(inv, es, after, rest, more, itemId, taken);
    }
  }

  lemma {:induction false} NothingNeeded(inv: Inventory, kinds: seq<int>)
    requires Valid(inv)
    ensures LeastNeededFor(inv, [], kinds) == 0
  {
    hide Empties, Capacity, RoomBeforeGap;
    if kinds != [] {
      CapacityOfGaps(inv, 0, kinds[0]);
      NothingNeeded(inv, kinds[1..]);
    }
  }

  /** If nothing is lost there were enough empty slots, one for every 64 of what found no room in a stack. */
  lemma {:induction false} EmptySlotsNeeded(inv: Inventory, es: seq<ItemEntity>, kinds: seq<int>)
    requires Valid(inv) && Counted(es) && Distinct(kinds) && AllFit(inv, es)
    ensures LeastNeededFor(inv, es, kinds) <= Empties(inv, 0)
    decreases |es|
  {
    hide Insert, Capacity, Empties, LeastNeeded, Distinct, Valid, Total;
    ValidSize(inv);
    if es == [] {
      NothingNeeded(inv, kinds);
    } else {
      var last, rest := es[|es| - 1], es[..|es| - 1];
      assert es == rest + [last] && last.count > 0 && Counted(rest);
      InsertFrom(inv, 0, last.itemId, last.count, last.itemId);
      var after := Insert(inv, 0, last.itemId, last.count).0;
      EmptySlotsNeeded(after, rest, kinds);
      forall k
        ensures LeastNeeded(inv, es, k)
             <= LeastNeeded(after, rest, k) + (if k == last.itemId then Empties(inv, 0) - Empties(after, 0) else 0)
        ensures Empties(after, 0) <= Empties(inv, 0)
      {
        LeastNeedAfter(inv, after, rest, last, k);
      }
      LeastNeededLess(inv, es, after, rest, kinds, last.itemId, Empties(inv, 0) - Empties(after, 0));
    }
  }

  /** Behind its first empty slot the inventory has no unfilled stack of this kind. */
  predicate Tidy(inv: Inventory, itemId: int)
    requires |inv| == INVENTORY_SIZE
  {
    forall g, i :: 0 <= g < i < PICKUP_SLOTS && inv[g].None? && inv[i].Some? ==> Room(inv[i], itemId) == 0
  }

  lemma {:induction false} NoStackRoom(inv: Inventory, slot: nat, itemId: int)
    requires |inv| == INVENTORY_SIZE && slot <= PICKUP_SLOTS
    requires forall i :: slot <= i < PICKUP_SLOTS && inv[i].Some? ==> Room(inv[i], itemId) == 0
    ensures Capacity(inv, slot, itemId) == STACK_LIMIT * Empties(inv, slot)
    decreases PICKUP_SLOTS - slot
  {
    if slot < PICKUP_SLOTS { NoStackRoom(inv, slot + 1, itemId); }
  }

  lemma {:induction false} TidyRoom(inv: Inventory, slot: nat, itemId: int)
    requires |inv| == INVENTORY_SIZE && slot <= PICKUP_SLOTS && Tidy(inv, itemId)
    ensures RoomBeforeGap(inv, slot, itemId) == Capacity(inv, slot, itemId) - STACK_LIMIT * Empties(inv, slot)
    decreases PICKUP_SLOTS - slot
  {
    hide Room;
    if slot < PICKUP_SLOTS {
      if inv[slot].None? {
        NoStackRoom(inv, slot + 1, itemId);
        assert Room(inv[slot], itemId) == STACK_LIMIT by { GapRoom(inv[slot], itemId); }
      } else {
        TidyRoom(inv, slot + 1, itemId);
      }
    }
  }

  lemma GapRoom(slot: Option<ItemStack>, itemId: int)
    requires slot.None?
    ensures Room(slot, itemId) == STACK_LIMIT
  {
  }

  lemma {:induction false} NeedsAgree(inv: Inventory, es: seq<ItemEntity>, kinds: seq<int>)
    requires |inv| == INVENTORY_SIZE && forall k <- kinds :: Tidy(inv, k)
    ensures NeededFor(inv, es, kinds) == LeastNeededFor(inv, es, kinds)
  {
    hide Tidy, Ground, Capacity, RoomBeforeGap, Empties, StacksOf;
    if kinds != [] {
      TidyRoom(inv, 0, kinds[0]);
      NeedsAgree(inv, es, kinds[1..]);
    }
  }

  /**
   * In an inventory that is tidy for every kind in reach, a tick loses nothing exactly if the kinds together need no
   * more empty slots than there are: a condition on the inventory and the ground before the tick.
   */
  lemma {:induction false} TidyConservedExactly(inv: Inventory, es: seq<ItemEntity>, kinds: seq<int>)
    requires Valid(inv) && Counted(es) && Distinct(kinds) && forall i :: 0 <= i < |es| ==> es[i].itemId in kinds
    requires forall k <- kinds :: Tidy(inv, k)
    ensures (forall itemId :: Unplaced(inv, es, itemId) == 0) <==> NeededFor(inv, es, kinds) <= Empties(inv, 0)
  {
    hide AllFit, Unplaced, NeededFor, LeastNeededFor, Empties, Tidy, Counted, Distinct, Valid;
    assert |inv| == INVENTORY_SIZE by { ValidSize(inv); }
    NeedsAgree(inv, es, kinds);
    ConservedExactly(inv, es);
    if AllFit(inv, es) {
      EmptySlotsNeeded(inv, es, kinds);
    } else if NeededFor(inv, es, kinds) <= Empties(inv, 0) {
      EmptySlotsSuffice(inv, es, kinds);
    }
  }

  /** An item in reach that does not fit is gone from the ground all the same. */
  lemma FullInventoryLosesItems(inv: Inventory, e: ItemEntity, p: Position)
    requires Valid(inv) && e.count > 0 && InReach(e, p) && Capacity(inv, 0, e.itemId) == 0
    ensures PickUp(inv, Reached([e], p)) == inv && OutOfReach([e], p) == []
    ensures Unplaced(inv, Reached([e], p), e.itemId) == e.count
  {
    hide InReach;
    assert Reached([e], p) == [e] && [e][..0] == [] && [e][1..] == [];
    FullUnchanged(inv, 0, e.itemId, e.count);
  }

  lemma {:induction false} FullUnchanged(inv: Inventory, slot: nat, itemId: int, remaining: int)
    requires Valid(inv) && slot <= PICKUP_SLOTS && Capacity(inv, slot, itemId) == 0
    ensures Insert(inv, slot, itemId, remaining) == (inv, remaining)
    decreases PICKUP_SLOTS - slot
  {
    if slot < PICKUP_SLOTS && remaining > 0 {
      CapacityNonnegative(inv, slot + 1, itemId);
      assert inv[slot := inv[slot]] == inv;
      FullUnchanged(inv, slot + 1, itemId, remaining);
    }
  }
}
