// The server state of the play phase as it is updated in place. Each method is an event of module Play.

module PlayServer {
  import opened Common
  import opened BlockPositions
  import opened Inventories
  import opened Pickups
  import opened Play

  /** What is sent to the client about items. */
  datatype Notice =
    | AddEntity(entityId: int, x: real, y: real, z: real) | SetEntityData(entityId: int, itemId: int, count: int)
    | BlockUpdate(pos: int, state: int) | TakeItem(entityId: int, count: int)
    | SetSlot(stateId: int, update: SlotUpdate)

  // ---- positions and the entities at them ----

  function Selected(es: seq<ItemEntity>, picked: seq<nat>): seq<ItemEntity>
    requires forall k :: 0 <= k < |picked| ==> picked[k] < |es|
  {
    seq(|picked|, k requires 0 <= k < |picked| => es[picked[k]])
  }

  predicate Increasing(picked: seq<nat>) {
    forall j, k :: 0 <= j < k < |picked| ==> picked[j] < picked[k]
  }

  /** `picked` lists exactly the positions in reach, in order. */
  ghost predicate Finds(es: seq<ItemEntity>, p: Position, picked: seq<nat>) {
    && Increasing(picked)
    && (forall k :: 0 <= k < |picked| ==> picked[k] < |es|)
    && (forall i :: 0 <= i < |es| ==> (i in picked <==> InReach(es[i], p)))
  }

  /** Removing positions from the back. */
  function RemoveAll(es: seq<ItemEntity>, picked: seq<nat>): seq<ItemEntity>
    requires Increasing(picked) && forall k :: 0 <= k < |picked| ==> picked[k] < |es|
    decreases |picked|
  {
    if picked == [] then es
    else
      var last := picked[|picked| - 1];
      RemoveAll(es[..last] + es[last + 1..], picked[..|picked| - 1])
  }

  lemma {:induction false} ReachedAppend(es: seq<ItemEntity>, e: ItemEntity, p: Position)
    ensures Reached(es + [e], p) == Reached(es, p) + (if InReach(e, p) then [e] else [])
    ensures OutOfReach(es + [e], p) == OutOfReach(es, p) + (if InReach(e, p) then [] else [e])
    decreases |es|
  {
    hide InReach;
    if es == [] {
      assert [e][1..] == [];
    } else {
      ReachedAppend(es[1..], e, p);
      assert (es + [e])[1..] == es[1..] + [e];
    }
  }

  lemma {:induction false} RemoveTail(es: seq<ItemEntity>, e: ItemEntity, picked: seq<nat>)
    requires Increasing(picked) && forall k :: 0 <= k < |picked| ==> picked[k] < |es|
    ensures RemoveAll(es + [e], picked) == RemoveAll(es, picked) + [e]
    decreases |picked|
  {
    if picked != [] {
      var last := picked[|picked| - 1];
      var less := es[..last] + es[last + 1..];
      assert (es + [e])[..last] + (es + [e])[last + 1..] == less + [e];
      RemoveTail(less, e, picked[..|picked| - 1]);
    }
  }

  lemma {:induction false} FoundAreReached(es: seq<ItemEntity>, p: Position, picked: seq<nat>)
    requires Finds(es, p, picked)
    ensures Selected(es, picked) == Reached(es, p) && RemoveAll(es, picked) == OutOfReach(es, p)
    decreases |es|
  {
    hide InReach, Reached, OutOfReach, Selected, RemoveAll;
    if es == [] {
      NoneFound(es, p, picked);
    } else {
      var n := |es| - 1;
      var less, e := es[..n], es[n];
      assert es == less + [e];
      ReachedAppend(less, e, p);
      if InReach(e, p) {
        LastFound(es, p, picked);
        var earlier := picked[..|picked| - 1];
        FoundAreReached(less, p, earlier);
        assert picked == earlier + [n];
        hide Finds;
        PickedLast(less, e, earlier);
      } else {
        FoundBefore(es, p, picked);
        FoundAreReached(less, p, picked);
        RemoveTail(less, e, picked);
        SelectedBefore(less, e, picked);
      }
    }
  }

  lemma NoneFound(es: seq<ItemEntity>, p: Position, picked: seq<nat>)
    requires es == [] && Finds(es, p, picked)
    ensures Selected(es, picked) == Reached(es, p) && RemoveAll(es, picked) == OutOfReach(es, p)
  {
    PickedCount(picked, 0);
  }

  /** There are no more positions than there are entities. */
  lemma {:induction false} PickedCount(picked: seq<nat>, n: nat)
    requires Increasing(picked) && forall k :: 0 <= k < |picked| ==> picked[k] < n
    ensures |picked| <= n
    decreases |picked|
  {
    if picked != [] { PickedCount(picked[..|picked| - 1], picked[|picked| - 1]); }
  }

  lemma PickedLast(less: seq<ItemEntity>, e: ItemEntity, earlier: seq<nat>)
    requires Increasing(earlier) && forall k :: 0 <= k < |earlier| ==> earlier[k] < |less|
    ensures var es, picked := less + [e], earlier + [|less|];
            && Increasing(picked) && (forall k :: 0 <= k < |picked| ==> picked[k] < |es|)
            && Selected(es, picked) == Selected(less, earlier) + [e]
            && RemoveAll(es, picked) == RemoveAll(less, earlier)
  {
    var es, picked := less + [e], earlier + [|less|];
    assert picked[..|earlier|] == earlier;
    assert es[..|less|] + es[|less| + 1..] == less;
  }

  lemma SelectedBefore(less: seq<ItemEntity>, e: ItemEntity, picked: seq<nat>)
    requires forall k :: 0 <= k < |picked| ==> picked[k] < |less|
    ensures Selected(less + [e], picked) == Selected(less, picked)
  {
  }

  lemma FoundBefore(es: seq<ItemEntity>, p: Position, picked: seq<nat>)
    requires es != [] && Finds(es, p, picked) && !InReach(es[|es| - 1], p)
    ensures Finds(es[..|es| - 1], p, picked)
  {
    hide InReach;
    assert |es| - 1 !in picked;
    assert forall k :: 0 <= k < |picked| ==> picked[k] in picked;
  }

  /** If the last entity is in reach, its position is the last one found, and the others are found among the rest. */
  lemma LastFound(es: seq<ItemEntity>, p: Position, picked: seq<nat>)
    requires es != [] && Finds(es, p, picked) && InReach(es[|es| - 1], p)
    ensures picked != [] && picked[|picked| - 1] == |es| - 1
    ensures Finds(es[..|es| - 1], p, picked[..|picked| - 1])
  {
    hide InReach;
    var n, m := |es| - 1, |picked| - 1;
    assert n in picked;
    var k :| 0 <= k <= m && picked[k] == n;
    var earlier := picked[..m];
    forall i | 0 <= i < n
      ensures i in earlier <==> InReach(es[..n][i], p)
    {
      if i in picked {
        var j :| 0 <= j <= m && picked[j] == i;
        assert j < m && earlier[j] == i;
      }
    }
  }

  // ---- what a tick tells the client ----

  /** One notice for each entity of which something was stored, in the order of the pickups. */
  function TakeNotices(inv: Inventory, es: seq<ItemEntity>): seq<Notice>
    requires |inv| == INVENTORY_SIZE
    decreases |es|
  {
    if es == [] then []
    else
      var last := es[|es| - 1];
      var r := Insert(inv, 0, last.itemId, last.count);
      TakeNotice(last, r.1) + TakeNotices(r.0, es[..|es| - 1])
  }

  /** What is said of one entity: how much of it was taken, unless that is nothing. */
  function TakeNotice(e: ItemEntity, left: int): seq<Notice> {
    if left == e.count then [] else [TakeItem(e.entityId, e.count - left)]
  }

  function SlotNotices(stateId: int, us: seq<SlotUpdate>): seq<Notice> {
    seq(|us|, i requires 0 <= i < |us| => SetSlot(stateId, us[i]))
  }

  /** All notices of a tick. */
  function TickNotices(s: Items): seq<Notice>
    requires |s.inventory| == INVENTORY_SIZE
  {
    var reached := Reached(s.ground, s.player);
    TakeNotices(s.inventory, reached)
    + (if reached == [] then [] else SlotNotices(s.containerStateId + 1, Sync(PickUp(s.inventory, reached), 0)))
  }

  /** How many items of a kind the client is told are taken; `kindOf` says what the entities are. */
  function TakenOf(ns: seq<Notice>, kindOf: int -> int, itemId: int): int {
    if ns == [] then 0
    else (if ns[0].TakeItem? && kindOf(ns[0].entityId) == itemId then ns[0].count else 0) + TakenOf(ns[1..], kindOf, itemId)
  }

  /** What the client is told is taken is what the inventory gains, for every kind of item. */
  lemma {:induction false} TakesAccount(inv: Inventory, es: seq<ItemEntity>, kindOf: int -> int, itemId: int)
    requires Valid(inv) && Counted(es) && forall i :: 0 <= i < |es| ==> kindOf(es[i].entityId) == es[i].itemId
    ensures TakenOf(TakeNotices(inv, es), kindOf, itemId) == Total(PickUp(inv, es), itemId) - Total(inv, itemId)
    ensures forall n <- TakeNotices(inv, es) :: n.TakeItem? && n.count > 0
    decreases |es|
  {
    hide Insert, Total, Valid, Capacity;
    ValidSize(inv);
    if es != [] {
      var last, rest := es[|es| - 1], es[..|es| - 1];
      var r := Insert(inv, 0, last.itemId, last.count);
      InsertFrom(inv, 0, last.itemId, last.count, itemId);
      CapacityNonnegative(inv, 0, last.itemId);
      TakesAccount(r.0, rest, kindOf, itemId);
      TakenFirst(last, r.1, TakeNotices(r.0, rest), kindOf, itemId);
    }
  }

  lemma TakenFirst(e: ItemEntity, left: int, later: seq<Notice>, kindOf: int -> int, itemId: int)
    requires kindOf(e.entityId) == e.itemId && left <= e.count
    requires forall n <- later :: n.TakeItem? && n.count > 0
    ensures TakenOf(TakeNotice(e, left) + later, kindOf, itemId)
         == (if e.itemId == itemId then e.count - left else 0) + TakenOf(later, kindOf, itemId)
    ensures forall n <- TakeNotice(e, left) + later :: n.TakeItem? && n.count > 0
  {
    var ns := TakeNotice(e, left);
    if ns == [] {
      assert ns + later == later;
    } else {
      assert (ns + later)[1..] == later && (ns + later)[0] == ns[0];
    }
  }

  /** One tick in literal terms: which slots the client is told of, under which number, and that nothing else is said. */
  lemma TickTells(s: Items, n: Notice)
    requires Valid(s.inventory) && Counted(Reached(s.ground, s.player))
    ensures n in TickNotices(s) ==> n.TakeItem? || n.SetSlot?
    ensures n.SetSlot? ==>
              var after, k := PickUp(s.inventory, Reached(s.ground, s.player)), n.update.window;
              (n in TickNotices(s)
               <==> && Reached(s.ground, s.player) != [] && n.stateId == s.containerStateId + 1
                    && (|| (36 <= k <= 44 && after[k - 36] == Some(n.update.stack))
                        || (9 <= k <= 35 && after[k] == Some(n.update.stack))))
  {
    hide PickUp, Reached, Sync, TakeNotices, Valid, Counted;
    ValidSize(s.inventory);
    var reached := Reached(s.ground, s.player);
    var after := PickUp(s.inventory, reached);
    OnlyTakes(s.inventory, reached);
    var us := Sync(after, 0);
    if n.SetSlot? {
      SyncExactly(after, n.update);
      if n.update in us {
        var i :| 0 <= i < |us| && us[i] == n.update;
        assert SlotNotices(s.containerStateId + 1, us)[i] == SetSlot(s.containerStateId + 1, n.update);
      }
    }
  }

  lemma {:induction false} OnlyTakes(inv: Inventory, es: seq<ItemEntity>)
    requires |inv| == INVENTORY_SIZE
    ensures forall n <- TakeNotices(inv, es) :: n.TakeItem?
    decreases |es|
  {
    hide Insert;
    if es != [] {
      OnlyTakes(Insert(inv, 0, es[|es| - 1].itemId, es[|es| - 1].count).0, es[..|es| - 1]);
    }
  }

  // ---- the first block dug and picked up ----

  lemma {:induction false} NothingSynced(inv: Inventory, slot: nat)
    requires |inv| == INVENTORY_SIZE && slot <= PICKUP_SLOTS && forall i :: slot <= i < PICKUP_SLOTS ==> inv[i] == None
    ensures Sync(inv, slot) == []
    decreases PICKUP_SLOTS - slot
  {
    if slot < PICKUP_SLOTS {
      NothingSynced(inv, slot + 1);
    }
  }

  lemma FirstItem(e: ItemEntity, p: Position)
    requires e.count == 1 && InReach(e, p)
    ensures Reached([e], p) == [e] && OutOfReach([e], p) == []
    ensures PickUp(NO_ITEMS, [e]) == NO_ITEMS[0 := Some(ItemStack(e.itemId, 1))]
    ensures Sync(NO_ITEMS[0 := Some(ItemStack(e.itemId, 1))], 0) == [SlotUpdate(36, ItemStack(e.itemId, 1))]
    ensures TakeNotices(NO_ITEMS, [e]) == [TakeItem(e.entityId, 1)]
  {
    hide InReach;
    assert [e][1..] == [] && [e][..0] == [];
    var inv := NO_ITEMS[0 := Some(ItemStack(e.itemId, 1))];
    assert Insert(NO_ITEMS, 0, e.itemId, 1) == (inv, 0) by {
      assert Insert(inv, 1, e.itemId, 0) == (inv, 0);
    }
    NothingSynced(inv, 1);
  }

  /**
   * From the start of play: a block is dug within reach of the player, and the next tick picks its drop up. It is the
   * entity 1000, the inventory holds it in its first slot, and the client is told so at place 36 of its window.
   */
  lemma FirstBlockPickedUp(x: int, y: int, z: int, p: Position)
    requires Fits(x, y, z) && z >= 0 && InReach(ItemEntity(0, 0, 1, x as real + 0.5, y as real + 0.5, z as real + 0.5), p)
    ensures var item := ItemStack(if y == -64 then 85 else 55, 1);
            var before := Run(INIT, [Move(p), FinishDig(Pack(x, y, z))]);
            && before.Some? && |before.value.ground| == 1 && before.value.ground[0].entityId == 1000
            && Step(before.value, Tick) == Some(Items(NO_ITEMS[0 := Some(item)], [], 1001, 0, 1, p))
            && TickNotices(before.value) == [TakeItem(1000, 1), SetSlot(1, SlotUpdate(36, item))]
  {
    hide *;
    var e := Drop(Pack(x, y, z), 1000);
    DropIs(x, y, z, 1000);
    SamePlace(e, ItemEntity(0, 0, 1, x as real + 0.5, y as real + 0.5, z as real + 0.5), p);
    FirstDug(Pack(x, y, z), p);
    FirstTick(e, p);
  }

  /** A player who has not moved stands at the origin at height -59: the drops it reaches are those closer than 4 to there. */
  lemma HomeReach(x: int, y: int, z: int, id: int)
    requires Fits(x, y, z) && z >= 0
    ensures InReach(Drop(Pack(x, y, z), id), INIT.player)
       <==> (2 * x + 1) * (2 * x + 1) + (2 * y + 119) * (2 * y + 119) + (2 * z + 1) * (2 * z + 1) < 64
  {
    hide Drop, Pack, InReach;
    DropIs(x, y, z, id);
    var e, p := Drop(Pack(x, y, z), id), INIT.player;
    ReachSum(e, p, e.x - p.x, e.y - p.y, e.z - p.z);
    SumOfHalves(e.x - p.x, e.y - p.y, e.z - p.z, 2 * x + 1, 2 * y + 119, 2 * z + 1);
  }

  lemma ReachSum(e: ItemEntity, p: Position, a: real, b: real, c: real)
    requires a == e.x - p.x && b == e.y - p.y && c == e.z - p.z
    ensures InReach(e, p) <==> a * a + b * b + c * c < 16.0
  {
  }

  lemma SumOfHalves(a: real, b: real, c: real, l: int, m: int, n: int)
    requires 2.0 * a == l as real && 2.0 * b == m as real && 2.0 * c == n as real
    ensures a * a + b * b + c * c < 16.0 <==> l * l + m * m + n * n < 64
  {
    HalfSquare(a, l);
    HalfSquare(b, m);
    HalfSquare(c, n);
  }

  lemma HalfSquare(a: real, n: int)
    requires 2.0 * a == n as real
    ensures 4.0 * (a * a) == (n * n) as real
  {
    assert (n * n) as real == n as real * n as real;
  }

  lemma SamePlace(e: ItemEntity, other: ItemEntity, p: Position)
    requires e.x == other.x && e.y == other.y && e.z == other.z
    ensures InReach(e, p) == InReach(other, p)
  {
  }

  lemma FirstDug(pos: int, p: Position)
    ensures Run(INIT, [Move(p), FinishDig(pos)]) == Some(Items(NO_ITEMS, [Drop(pos, 1000)], 1001, 0, 0, p))
  {
    hide Drop;
    var es := [Move(p), FinishDig(pos)];
    assert es[1..] == [FinishDig(pos)] && es[1..][1..] == [];
    var moved := INIT.(player := p);
    assert [] + [Drop(pos, 1000)] == [Drop(pos, 1000)];
    var dug := Items(NO_ITEMS, [Drop(pos, 1000)], 1001, 0, 0, p);
    assert Step(INIT, Move(p)) == Some(moved) && Step(moved, FinishDig(pos)) == Some(dug);
    assert Run(dug, []) == Some(dug);
    hide Step;
    assert Run(moved, es[1..]) == Some(dug);
  }

  lemma FirstTick(e: ItemEntity, p: Position)
    requires e.count == 1 && InReach(e, p)
    ensures var s, item := Items(NO_ITEMS, [e], 1001, 0, 0, p), ItemStack(e.itemId, 1);
            && Step(s, Tick) == Some(Items(NO_ITEMS[0 := Some(item)], [], 1001, 0, 1, p))
            && TickNotices(s) == [TakeItem(e.entityId, 1), SetSlot(1, SlotUpdate(36, item))]
  {
    FirstItem(e, p);
    hide InReach, Reached, OutOfReach, PickUp, Sync, TakeNotices;
    var us := [SlotUpdate(36, ItemStack(e.itemId, 1))];
    assert SlotNotices(1, us) == [SetSlot(1, us[0])];
  }

  class ItemState {
    const inventory: array<Option<ItemStack>>
    var ground: seq<ItemEntity>
    var nextEntityId: int
    var heldSlot: nat
    var containerStateId: int
    var player: Position
    var notices: seq<Notice>

    ghost predicate Sized() {
      inventory.Length == INVENTORY_SIZE
    }

    ghost function Abs(): Items
      reads this, inventory
    {
      Items(inventory[..], ground, nextEntityId, heldSlot, containerStateId, player)
    }

    constructor ()
      ensures Sized() && Abs() == INIT && notices == [] && fresh(inventory)
    {
      inventory := new Option<ItemStack>[INVENTORY_SIZE](_ => None);
      ground, notices := [], [];
      nextEntityId, heldSlot, containerStateId := FIRST_ENTITY_ID, 0, 0;
      player := Position(0.0, -59.0, 0.0);
      new;
      assert inventory[..] == NO_ITEMS;
    }

    /** The loop over the slots for one item entity; answers what is left over. */
    method InsertItem(itemId: int, count: int) returns (remaining: int)
      requires Sized()
      modifies inventory
      ensures Insert(old(inventory[..]), 0, itemId, count) == (inventory[..], remaining)
    {
      hide Put, Room, Insert, Least;
      remaining := count;
      var slot := 0;
      while slot < PICKUP_SLOTS
        invariant 0 <= slot <= PICKUP_SLOTS
        invariant Insert(inventory[..], slot, itemId, remaining) == Insert(old(inventory[..]), 0, itemId, count)
      {
        if remaining <= 0 {
          break;
        }
        InsertStep(inventory[..], slot, itemId, remaining);
        ghost var inv, before := inventory[..], remaining;
        remaining := FillSlot(slot, itemId, remaining);
        assert inventory[..] == inv[slot := Put(inv[slot], itemId, before)];
        slot := slot + 1;
      }
      InsertEnds(inventory[..], slot, itemId, remaining);
    }

    method FillSlot(slot: nat, itemId: int, remaining: int) returns (left: int)
      requires Sized() && slot < PICKUP_SLOTS && remaining > 0
      modifies inventory
      ensures inventory[..] == old(inventory[..])[slot := Put(old(inventory[slot]), itemId, remaining)]
      ensures left == remaining - Least(Room(old(inventory[slot]), itemId), remaining)
    {
      left := remaining;
      match inventory[slot] {
        case Some(stack) =>
          if stack.itemId == itemId && stack.count < STACK_LIMIT {
            var add := Least(STACK_LIMIT - stack.count, remaining);
            inventory[slot] := Some(ItemStack(itemId, stack.count + add));
            left := remaining - add;
          }
        case None =>
          var add := Least(remaining, STACK_LIMIT);
          inventory[slot] := Some(ItemStack(itemId, add));
          left := remaining - add;
      }
    }

    /** The positions of the entities in reach, in increasing order. */
    method FindReached() returns (picked: seq<nat>)
      ensures forall k :: 0 <= k < |picked| ==> picked[k] < |ground|
      ensures forall j, k :: 0 <= j < k < |picked| ==> picked[j] < picked[k]
      ensures forall i :: 0 <= i < |ground| ==> (i in picked <==> InReach(ground[i], player))
    {
      hide InReach;
      picked := [];
      for i := 0 to |ground|
        invariant forall k :: 0 <= k < |picked| ==> picked[k] < i
        invariant forall j, k :: 0 <= j < k < |picked| ==> picked[j] < picked[k]
        invariant forall k :: 0 <= k < i ==> (k in picked <==> InReach(ground[k], player))
      {
        if InReach(ground[i], player) {
          picked := picked + [i];
        }
      }
    }

    /** Picks up the entities at the given positions, from the last to the first. */
    method PickUpReached(picked: seq<nat>)
      requires Sized() && forall k :: 0 <= k < |picked| ==> picked[k] < |ground|
      modifies inventory, this`notices
      ensures inventory[..] == PickUp(old(inventory[..]), Selected(ground, picked))
      ensures notices == old(notices) + TakeNotices(old(inventory[..]), Selected(ground, picked))
    {
      hide Insert, PickUp, TakeNotices;
      ghost var es := Selected(ground, picked);
      var k := |picked|;
      assert es[..k] == es;
      while k > 0
        invariant 0 <= k <= |picked|
        invariant PickUp(inventory[..], es[..k]) == PickUp(old(inventory[..]), es)
        invariant notices + TakeNotices(inventory[..], es[..k]) == old(notices) + TakeNotices(old(inventory[..]), es)
      {
        k := k - 1;
        var entity := ground[picked[k]];
        LastIsFirst(inventory[..], es[..k + 1], notices);
        assert es[..k + 1][..k] == es[..k] && es[..k + 1][k] == entity;
        var remaining := InsertItem(entity.itemId, entity.count);
        if remaining != entity.count {
          notices := notices + [TakeItem(entity.entityId, entity.count - remaining)];
        }
      }
      NothingPicked(inventory[..]);
      assert es[..0] == [] && notices + [] == notices;
    }

    /** The window slots of everything that is held. */
    method CollectSlots() returns (slots: seq<nat>)
      requires Sized()
      ensures AllNamed(slots, inventory[..])
      ensures Updates(slots, inventory[..]) == Sync(inventory[..], 0)
    {
      hide Sync, Updates, WindowSlot;
      slots := [];
      ghost var inv := inventory[..];
      ghost var us: seq<SlotUpdate> := [];
      SyncStep(us, inv, 0);
      NoUpdates(inv);
      for i := 0 to PICKUP_SLOTS
        invariant AllNamed(slots, inv) && us == Updates(slots, inv)
        invariant us + Sync(inv, i) == Sync(inv, 0)
      {
        SyncStep(us, inv, i);
        if inventory[i].Some? {
          UpdatesAppend(slots, i, inv);
          slots := slots + [WindowSlot(i)];
          us := us + [SlotUpdate(WindowSlot(i), inv[i].value)];
        }
      }
      SyncStep(us, inv, PICKUP_SLOTS);
    }

    /** Tells the client about every slot that holds something; false if the counter of the updates overflows. */
    method SyncInventory() returns (ok: bool)
      requires Sized()
      modifies this`notices, this`containerStateId
      ensures var us := Sync(inventory[..], 0);
              && ok == (us == [] || old(containerStateId) != I32_MAX)
              && (ok ==> containerStateId == old(containerStateId) + (if us == [] then 0 else 1)
                         && notices == old(notices) + SlotNotices(old(containerStateId) + 1, us))
    {
      hide Sync;
      ghost var inv := inventory[..];
      var slots := CollectSlots();
      ghost var us := Updates(slots, inventory[..]);
      assert |us| == |slots|;
      if slots == [] {
        assert SlotNotices(containerStateId + 1, us) == [];
        return true;
      }
      if containerStateId == I32_MAX {
        return false;
      }
      containerStateId := containerStateId + 1;
      ghost var told := notices;
      for k := 0 to |slots|
        invariant inventory[..] == inv && us == Updates(slots, inv) && containerStateId == old(containerStateId) + 1
        invariant notices == told + SlotNotices(containerStateId, us[..k])
      {
        var window := slots[k];
        assert us[k] == UpdateOf(window, inventory[..]);
        var stack := inventory[Internal(window)].value;
        notices := notices + [SetSlot(containerStateId, SlotUpdate(window, stack))];
        assert SlotNotices(containerStateId, us[..k + 1]) == SlotNotices(containerStateId, us[..k]) + [SetSlot(containerStateId, us[k])];
      }
      assert us[..|us|] == us;
      return true;
    }

    /** The pickup part of `send_per_tick`; false if it panics. */
    method TickPickup() returns (ok: bool)
      requires Sized()
      modifies this, inventory
      ensures ok == Step(old(Abs()), Tick).Some?
      ensures ok ==> Some(Abs()) == Step(old(Abs()), Tick) && notices == old(notices) + TickNotices(old(Abs()))
    {
      hide InReach, PickUp, TakeNotices, Sync, Insert;
      ghost var s := Abs();
      if ground == [] {
        assert TickNotices(s) == [] by { NothingTold(s); }
        return true;
      }
      var picked := FindReached();
      assert Finds(ground, player, picked);
      FoundAreReached(ground, player, picked);
      ghost var reached := Reached(ground, player);
      PickUpReached(picked);
      ok := true;
      if picked != [] {
        assert |Selected(ground, picked)| == |picked|;
        ok := SyncInventory();
        if !ok {
          return;
        }
      } else {
        NothingPicked(s.inventory);
      }
      RemoveReached(picked);
    }

    /** Removing the positions from the last to the first. */
    method RemoveReached(picked: seq<nat>)
      requires Increasing(picked) && forall k :: 0 <= k < |picked| ==> picked[k] < |ground|
      modifies this`ground
      ensures ground == RemoveAll(old(ground), picked)
    {
      var k := |picked|;
      assert picked[..k] == picked;
      while k > 0
        invariant 0 <= k <= |picked|
        invariant forall j :: 0 <= j < k ==> picked[j] < |ground|
        invariant RemoveAll(ground, picked[..k]) == RemoveAll(old(ground), picked)
      {
        k := k - 1;
        assert picked[..k + 1][..k] == picked[..k];
        ground := ground[..picked[k]] + ground[picked[k] + 1..];
      }
    }

    /** The digging case of `handle_sb_packet`, with the queues it fills drained as the play loop does; false if it panics. */
    method FinishDigging(pos: int) returns (ok: bool)
      requires Sized()
      modifies this
      ensures ok == Step(old(Abs()), FinishDig(pos)).Some?
      ensures ok ==> Some(Abs()) == Step(old(Abs()), FinishDig(pos))
      ensures ok ==> var e := Drop(pos, old(nextEntityId));
                     notices == old(notices)
                                + [BlockUpdate(pos, 0), AddEntity(e.entityId, e.x, e.y, e.z), SetEntityData(e.entityId, e.itemId, 1)]
    {
      hide UnpackX, UnpackY, UnpackZ;
      var x, y, z := UnpackX(pos), UnpackY(pos), UnpackZ(pos);
      var eid := nextEntityId;
      if nextEntityId == I32_MAX {
        return false;
      }
      nextEntityId := nextEntityId + 1;
      var ex, ey, ez := x as real + 0.5, y as real + 0.5, z as real + 0.5;
      var itemId := DropItemId(y);
      ground := ground + [ItemEntity(eid, itemId, 1, ex, ey, ez)];
      notices := notices + [BlockUpdate(pos, 0)] + [AddEntity(eid, ex, ey, ez), SetEntityData(eid, itemId, 1)];
      return true;
    }

    /** The placing case of `handle_sb_packet`; false if it panics. */
    method UseHeldItem() returns (ok: bool)
      requires Sized()
      modifies inventory
      ensures ok == Step(old(Abs()), UseItemOn).Some?
      ensures ok ==> Some(Abs()) == Step(old(Abs()), UseItemOn)
    {
      if heldSlot >= INVENTORY_SIZE {
        return false;
      }
      if inventory[heldSlot].Some? {
        var stack := inventory[heldSlot].value;
        var count := stack.count - 1;
        inventory[heldSlot] := if count <= 0 then None else Some(ItemStack(stack.itemId, count));
      }
      assert inventory[..] == old(inventory[..])[heldSlot := UseOne(old(inventory[..])[heldSlot])];
      return true;
    }
  }

  lemma InsertEnds(inv: Inventory, slot: nat, itemId: int, remaining: int)
    requires |inv| == INVENTORY_SIZE && slot <= PICKUP_SLOTS && (slot == PICKUP_SLOTS || remaining <= 0)
    ensures Insert(inv, slot, itemId, remaining) == (inv, remaining)
  {
  }

  /** The pass takes one slot and goes on with the next. */
  lemma InsertStep(inv: Inventory, slot: nat, itemId: int, remaining: int)
    requires |inv| == INVENTORY_SIZE && slot < PICKUP_SLOTS && remaining > 0
    ensures Insert(inv, slot, itemId, remaining)
         == Insert(inv[slot := Put(inv[slot], itemId, remaining)], slot + 1, itemId,
                   remaining - Least(Room(inv[slot], itemId), remaining))
  {
  }

  /** The way back from a window slot to the internal one. */
  function Internal(window: nat): nat {
    if window >= 36 then window - 36 else window
  }

  predicate Named(window: nat, inv: Inventory) {
    Internal(window) < |inv| && inv[Internal(window)].Some?
  }

  predicate AllNamed(slots: seq<nat>, inv: Inventory) {
    forall k :: 0 <= k < |slots| ==> Named(slots[k], inv)
  }

  function UpdateOf(window: nat, inv: Inventory): SlotUpdate
    requires Named(window, inv)
  {
    SlotUpdate(window, inv[Internal(window)].value)
  }

  function Updates(slots: seq<nat>, inv: Inventory): seq<SlotUpdate>
    requires AllNamed(slots, inv)
  {
    seq(|slots|, k requires 0 <= k < |slots| && AllNamed(slots, inv) => UpdateOf(slots[k], inv))
  }

  lemma NoUpdates(inv: Inventory)
    ensures Updates([], inv) == []
  {
  }

  lemma SyncStep(us: seq<SlotUpdate>, inv: Inventory, i: nat)
    requires |inv| == INVENTORY_SIZE && i <= PICKUP_SLOTS
    ensures [] + Sync(inv, i) == Sync(inv, i)
    ensures us + Sync(inv, i)
            == if i == PICKUP_SLOTS then us
               else if inv[i].None? then us + Sync(inv, i + 1)
               else us + [SlotUpdate(WindowSlot(i), inv[i].value)] + Sync(inv, i + 1)
  {
    if i == PICKUP_SLOTS {
      assert us + [] == us;
    } else if inv[i].None? {
      assert [] + Sync(inv, i + 1) == Sync(inv, i + 1);
    } else {
      var u := SlotUpdate(WindowSlot(i), inv[i].value);
      assert us + ([u] + Sync(inv, i + 1)) == us + [u] + Sync(inv, i + 1);
    }
  }

  lemma UpdatesAppend(slots: seq<nat>, i: nat, inv: Inventory)
    requires AllNamed(slots, inv) && i < PICKUP_SLOTS && i < |inv| && inv[i].Some?
    ensures AllNamed(slots + [WindowSlot(i)], inv)
    ensures Updates(slots + [WindowSlot(i)], inv) == Updates(slots, inv) + [SlotUpdate(WindowSlot(i), inv[i].value)]
  {
    assert Internal(WindowSlot(i)) == i;
  }

  lemma NothingTold(s: Items)
    requires |s.inventory| == INVENTORY_SIZE && s.ground == []
    ensures TickNotices(s) == []
  {
  }

  /** The last entity is picked up first. */
  lemma LastIsFirst(inv: Inventory, es: seq<ItemEntity>, told: seq<Notice>)
    requires |inv| == INVENTORY_SIZE && es != []
    ensures var last, rest := es[|es| - 1], es[..|es| - 1];
            var r := Insert(inv, 0, last.itemId, last.count);
            && PickUp(inv, es) == PickUp(r.0, rest)
            && told + TakeNotices(inv, es) == told + TakeNotice(last, r.1) + TakeNotices(r.0, rest)
  {
    hide Insert, TakeNotice, PickUp, TakeNotices;
    var last, rest := es[|es| - 1], es[..|es| - 1];
    var r := Insert(inv, 0, last.itemId, last.count);
    FirstPickUp(inv, es);
    FirstNotice(inv, es);
    ToldInTurn(told, TakeNotice(last, r.1), TakeNotices(r.0, rest));
  }

  lemma FirstPickUp(inv: Inventory, es: seq<ItemEntity>)
    requires |inv| == INVENTORY_SIZE && es != []
    ensures PickUp(inv, es) == PickUp(Insert(inv, 0, es[|es| - 1].itemId, es[|es| - 1].count).0, es[..|es| - 1])
  {
    hide Insert;
  }

  lemma FirstNotice(inv: Inventory, es: seq<ItemEntity>)
    requires |inv| == INVENTORY_SIZE && es != []
    ensures var r := Insert(inv, 0, es[|es| - 1].itemId, es[|es| - 1].count);
            TakeNotices(inv, es) == TakeNotice(es[|es| - 1], r.1) + TakeNotices(r.0, es[..|es| - 1])
  {
    hide Insert, TakeNotice;
  }

  lemma ToldInTurn(a: seq<Notice>, b: seq<Notice>, c: seq<Notice>)
    ensures a + (b + c) == a + b + c
  {
  }

  lemma NothingPicked(inv: Inventory)
    requires |inv| == INVENTORY_SIZE
    ensures PickUp(inv, []) == inv && TakeNotices(inv, []) == []
  {
  }
}
