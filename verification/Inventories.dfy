// Picking items up into a capacity-limited inventory.

module Inventories {
  import opened Common

  const INVENTORY_SIZE := 46
  const PICKUP_SLOTS := 36
  const STACK_LIMIT := 64

  datatype ItemStack = ItemStack(itemId: int, count: int)

  type Inventory = seq<Option<ItemStack>>

  /** A dropped item. */
  datatype ItemEntity = ItemEntity(entityId: int, itemId: int, count: int, x: real, y: real, z: real)

  /** Every stack holds 1 to 64 items, and nothing is ever put beyond the first 36 slots. */
  predicate Valid(inv: Inventory) {
    && |inv| == INVENTORY_SIZE
    && (forall i :: 0 <= i < PICKUP_SLOTS && inv[i].Some? ==> 1 <= inv[i].value.count <= STACK_LIMIT)
    && (forall i :: PICKUP_SLOTS <= i < INVENTORY_SIZE ==> inv[i] == None)
  }

  // ---- one item entity ----

  /** What one slot takes of `remaining` items. */
  function Put(slot: Option<ItemStack>, itemId: int, remaining: int): Option<ItemStack> {
    match slot
    case Some(stack) =>
      if stack.itemId == itemId && stack.count < STACK_LIMIT then
        Some(ItemStack(itemId, stack.count + Least(STACK_LIMIT - stack.count, remaining)))
      else slot
    case None => Some(ItemStack(itemId, Least(remaining, STACK_LIMIT)))
  }

  function Least(a: int, b: int): int {
    if a < b then a else b
  }

  /** How many items of this kind a slot can still take. */
  function Room(slot: Option<ItemStack>, itemId: int): int {
    match slot
    case Some(stack) => if stack.itemId == itemId && stack.count < STACK_LIMIT then STACK_LIMIT - stack.count else 0
    case None => STACK_LIMIT
  }

  /** The pass over the slots from `slot` on: the inventory after it and what is left over. */
  function Insert(inv: Inventory, slot: nat, itemId: int, remaining: int): (r: (Inventory, int))
    requires |inv| == INVENTORY_SIZE && slot <= PICKUP_SLOTS
    ensures |r.0| == INVENTORY_SIZE
    decreases PICKUP_SLOTS - slot
  {
    if slot == PICKUP_SLOTS || remaining <= 0 then (inv, remaining)
    else
      Insert(inv[slot := Put(inv[slot], itemId, remaining)], slot + 1, itemId, remaining - Least(Room(inv[slot], itemId), remaining))
  }

  /** How many items of a kind the inventory holds. */
  function Total(inv: Inventory, itemId: int): int {
    if inv == [] then 0 else Held(inv[0], itemId) + Total(inv[1..], itemId)
  }

  function Held(slot: Option<ItemStack>, itemId: int): int {
    if slot.Some? && slot.value.itemId == itemId then slot.value.count else 0
  }

  /** How many items of a kind fit into the slots from `slot` on. */
  function Capacity(inv: Inventory, slot: nat, itemId: int): int
    requires |inv| == INVENTORY_SIZE && slot <= PICKUP_SLOTS
    decreases PICKUP_SLOTS - slot
  {
    if slot == PICKUP_SLOTS then 0 else Room(inv[slot], itemId) + Capacity(inv, slot + 1, itemId)
  }

  lemma {:induction false} TotalUpdate(inv: Inventory, i: nat, slot: Option<ItemStack>, itemId: int)
    requires i < |inv|
    ensures Total(inv[i := slot], itemId) == Total(inv, itemId) - Held(inv[i], itemId) + Held(slot, itemId)
  {
    if i > 0 {
      TotalUpdate(inv[1..], i - 1, slot, itemId);
      assert inv[i := slot][1..] == inv[1..][i - 1 := slot];
    } else {
      assert inv[0 := slot][1..] == inv[1..];
    }
  }

  lemma {:induction false} CapacityUpdate(inv: Inventory, i: nat, slot: Option<ItemStack>, from: nat, itemId: int)
    requires |inv| == INVENTORY_SIZE && i < from <= PICKUP_SLOTS
    ensures Capacity(inv[i := slot], from, itemId) == Capacity(inv, from, itemId)
    decreases PICKUP_SLOTS - from
  {
    if from < PICKUP_SLOTS { CapacityUpdate(inv, i, slot, from + 1, itemId); }
  }

  lemma {:induction false} CapacityNonnegative(inv: Inventory, from: nat, itemId: int)
    requires |inv| == INVENTORY_SIZE && from <= PICKUP_SLOTS
    ensures Capacity(inv, from, itemId) >= 0
    decreases PICKUP_SLOTS - from
  {
    if from < PICKUP_SLOTS { CapacityNonnegative(inv, from + 1, itemId); }
  }

  /** A pass stores as much as fits and accounts for all of it, touches no other kind and no slot outside its range. */
  lemma {:induction false} InsertFrom(inv: Inventory, slot: nat, itemId: int, remaining: int, other: int)
    requires Valid(inv) && slot <= PICKUP_SLOTS && remaining >= 0
    ensures var (after, left) := Insert(inv, slot, itemId, remaining);
            && Valid(after)
            && left == remaining - Least(remaining, Capacity(inv, slot, itemId))
            && Total(after, itemId) + left == Total(inv, itemId) + remaining
            && (other != itemId ==> Total(after, other) == Total(inv, other))
            && Capacity(after, slot, itemId) == Capacity(inv, slot, itemId) - (remaining - left)
            && (forall i :: 0 <= i < slot ==> after[i] == inv[i])
    decreases PICKUP_SLOTS - slot
  {
    hide Total, Put, Room, Held;
    CapacityNonnegative(inv, slot, itemId);
    if slot < PICKUP_SLOTS && remaining > 0 {
      var put := Put(inv[slot], itemId, remaining);
      var next, rest := inv[slot := put], remaining - Least(Room(inv[slot], itemId), remaining);
      PutAccounts(inv[slot], itemId, remaining, other);
      CapacityUpdate(inv, slot, put, slot + 1, itemId);
      TotalUpdate(inv, slot, put, itemId);
      TotalUpdate(inv, slot, put, other);
      InsertFrom(next, slot + 1, itemId, rest, other);
      var after := Insert(next, slot + 1, itemId, rest).0;
      assert Insert(inv, slot, itemId, remaining).0 == after && after[slot] == put;
    }
  }

  /** What one slot's share of a pass changes. */
  lemma PutAccounts(slot: Option<ItemStack>, itemId: int, remaining: int, other: int)
    requires remaining > 0 && (slot.Some? ==> 1 <= slot.value.count <= STACK_LIMIT)
    ensures var put, taken := Put(slot, itemId, remaining), Least(Room(slot, itemId), remaining);
            && put.Some? && 1 <= put.value.count <= STACK_LIMIT && 0 <= taken <= remaining
            && Room(put, itemId) == Room(slot, itemId) - taken && Room(slot, itemId) >= 0
            && Held(put, itemId) == Held(slot, itemId) + taken
            && (other != itemId ==> Held(put, other) == Held(slot, other))
  {
  }
}
