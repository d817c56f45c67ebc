// Where picked-up items go. The design document looks for stacks of the same kind first and for empty slots then; the
// server takes the slots in one pass. What is left over is always the same, where the items lie is not.

module Stacking {
  import opened Common
  import opened Inventories

  /** Which slots a pass looks at. */
  datatype Scope = All | Stacks | Gaps {
    predicate Covers(slot: Option<ItemStack>) {
      match this
      case All => true
      case Stacks => slot.Some?
      case Gaps => slot.None?
    }
  }

  function RoomIn(scope: Scope, slot: Option<ItemStack>, itemId: int): int {
    if scope.Covers(slot) then Room(slot, itemId) else 0
  }

  /** A pass over the slots that the scope covers. */
  function Pass(inv: Inventory, slot: nat, itemId: int, n: int, scope: Scope): (r: (Inventory, int))
    requires |inv| == INVENTORY_SIZE && slot <= PICKUP_SLOTS
    ensures |r.0| == INVENTORY_SIZE
    decreases PICKUP_SLOTS - slot
  {
    if slot == PICKUP_SLOTS || n <= 0 then (inv, n)
    else
      var put := if scope.Covers(inv[slot]) then Put(inv[slot], itemId, n) else inv[slot];
      Pass(inv[slot := put], slot + 1, itemId, n - Least(RoomIn(scope, inv[slot], itemId), n), scope)
  }

  /** The documented order. */
  function InsertAsDocumented(inv: Inventory, itemId: int, n: int): (Inventory, int)
    requires |inv| == INVENTORY_SIZE
  {
    var (stacked, left) := Pass(inv, 0, itemId, n, Stacks);
    Pass(stacked, 0, itemId, left, Gaps)
  }

  lemma {:induction false} InsertIsPass(inv: Inventory, slot: nat, itemId: int, n: int)
    requires |inv| == INVENTORY_SIZE && slot <= PICKUP_SLOTS
    ensures Insert(inv, slot, itemId, n) == Pass(inv, slot, itemId, n, All)
    decreases PICKUP_SLOTS - slot
  {
    if slot < PICKUP_SLOTS && n > 0 {
      InsertIsPass(inv[slot := Put(inv[slot], itemId, n)], slot + 1, itemId, n - Least(Room(inv[slot], itemId), n));
    }
  }

  // ---- a pass in closed form ----

  /** The room in the slots from `from` up to `to`. */
  function RoomBetween(inv: Inventory, from: nat, to: nat, itemId: int, scope: Scope): int
    requires from <= to <= |inv|
    decreases |inv| - from
  {
    if from == to then 0 else RoomIn(scope, inv[from], itemId) + RoomBetween(inv, from + 1, to, itemId, scope)
  }

  /** What a slot becomes when `n` items reach it. */
  function Given(slot: Option<ItemStack>, itemId: int, n: int, scope: Scope): Option<ItemStack> {
    if n > 0 && scope.Covers(slot) then Put(slot, itemId, n) else slot
  }

  lemma {:induction false} RoomElsewhere(inv: Inventory, i: nat, slot: Option<ItemStack>, from: nat, to: nat, itemId: int, scope: Scope)
    requires i < from <= to <= |inv|
    ensures RoomBetween(inv[i := slot], from, to, itemId, scope) == RoomBetween(inv, from, to, itemId, scope)
    decreases |inv| - from
  {
    if from < to { RoomElsewhere(inv, i, slot, from + 1, to, itemId, scope); }
  }

  lemma {:induction false} RoomNonnegative(inv: Inventory, from: nat, to: nat, itemId: int, scope: Scope)
    requires Valid(inv) && from <= to <= PICKUP_SLOTS
    ensures RoomBetween(inv, from, to, itemId, scope) >= 0
    decreases |inv| - from
  {
    if from < to { RoomNonnegative(inv, from + 1, to, itemId, scope); }
  }

  /** Each slot gets what the slots before it leave. */
  lemma {:induction false} PassAt(inv: Inventory, slot: nat, itemId: int, n: int, scope: Scope, i: nat)
    requires Valid(inv) && slot <= PICKUP_SLOTS && i < INVENTORY_SIZE && n >= 0
    ensures Pass(inv, slot, itemId, n, scope).0[i]
         == if slot <= i < PICKUP_SLOTS then Given(inv[i], itemId, n - RoomBetween(inv, slot, i, itemId, scope), scope) else inv[i]
    ensures Pass(inv, slot, itemId, n, scope).1 == n - Least(n, RoomBetween(inv, slot, PICKUP_SLOTS, itemId, scope))
    decreases PICKUP_SLOTS - slot
  {
    if slot < PICKUP_SLOTS && n > 0 {
      var put := if scope.Covers(inv[slot]) then Put(inv[slot], itemId, n) else inv[slot];
      var next, rest := inv[slot := put], n - Least(RoomIn(scope, inv[slot], itemId), n);
      assert Pass(inv, slot, itemId, n, scope) == Pass(next, slot + 1, itemId, rest, scope);
      PutKeepsValid(inv, slot, itemId, n, scope);
      hide Pass, Put, Given, Valid, RoomIn;
      PassAt(next, slot + 1, itemId, rest, scope, i);
      LeftAfterFirst(inv, slot, put, PICKUP_SLOTS, itemId, n, scope);
      if slot < i < PICKUP_SLOTS {
        LeftAfterFirst(inv, slot, put, i, itemId, n, scope);
        GivenLess(inv[i], itemId, rest - RoomBetween(next, slot + 1, i, itemId, scope),
                  n - RoomBetween(inv, slot, i, itemId, scope), scope);
      } else if i == slot {
        FirstGiven(inv[slot], itemId, n, scope);
      }
    } else {
      hide Valid, RoomIn, Put;
      RoomNonnegative(inv, slot, PICKUP_SLOTS, itemId, scope);
      if slot <= i < PICKUP_SLOTS { RoomNonnegative(inv, slot, i, itemId, scope); }
    }
  }

  lemma PutKeepsValid(inv: Inventory, slot: nat, itemId: int, n: int, scope: Scope)
    requires Valid(inv) && slot < PICKUP_SLOTS && n > 0
    ensures Valid(inv[slot := if scope.Covers(inv[slot]) then Put(inv[slot], itemId, n) else inv[slot]])
    ensures 0 <= RoomIn(scope, inv[slot], itemId)
  {
  }

  lemma FirstGiven(slot: Option<ItemStack>, itemId: int, n: int, scope: Scope)
    requires n > 0
    ensures (if scope.Covers(slot) then Put(slot, itemId, n) else slot) == Given(slot, itemId, n, scope)
  {
  }

  /** A slot that nothing reaches does not care by how much. */
  lemma GivenLess(slot: Option<ItemStack>, itemId: int, a: int, b: int, scope: Scope)
    requires a == b || (a <= 0 && b <= 0)
    ensures Given(slot, itemId, a, scope) == Given(slot, itemId, b, scope)
  {
  }

  lemma LeftAfterFirst(inv: Inventory, slot: nat, put: Option<ItemStack>, to: nat, itemId: int, n: int, scope: Scope)
    requires Valid(inv) && slot < to <= PICKUP_SLOTS && n > 0 && 0 <= RoomIn(scope, inv[slot], itemId)
    ensures var room, later := RoomIn(scope, inv[slot], itemId), RoomBetween(inv[slot := put], slot + 1, to, itemId, scope);
            RoomBetween(inv, slot, to, itemId, scope) == room + later && later >= 0
  {
    hide RoomIn;
    RoomElsewhere(inv, slot, put, slot + 1, to, itemId, scope);
    RoomNonnegative(inv, slot + 1, to, itemId, scope);
  }

  /** The same for the documented order, in terms of the inventory it began with. */
  lemma DocumentedAt(inv: Inventory, itemId: int, n: int, i: nat)
    requires Valid(inv) && i < PICKUP_SLOTS && n >= 0
    ensures var left := n - Least(n, RoomBetween(inv, 0, PICKUP_SLOTS, itemId, Stacks));
            && InsertAsDocumented(inv, itemId, n).0[i]
               == (if inv[i].None? then Given(None, itemId, left - RoomBetween(inv, 0, i, itemId, Gaps), Gaps)
                   else Given(inv[i], itemId, n - RoomBetween(inv, 0, i, itemId, Stacks), Stacks))
            && InsertAsDocumented(inv, itemId, n).1 == left - Least(left, RoomBetween(inv, 0, PICKUP_SLOTS, itemId, Gaps))
  {
    hide Pass, RoomBetween;
    var (stacked, left) := Pass(inv, 0, itemId, n, Stacks);
    forall j | 0 <= j < INVENTORY_SIZE
      ensures stacked[j].None? <==> inv[j].None?
      ensures j == i ==> stacked[j] == Given(inv[j], itemId, n - RoomBetween(inv, 0, j, itemId, Stacks), Stacks)
      ensures j >= PICKUP_SLOTS ==> stacked[j] == inv[j]
      ensures stacked[j].Some? && j < PICKUP_SLOTS ==> 1 <= stacked[j].value.count <= STACK_LIMIT
    {
      PassAt(inv, 0, itemId, n, Stacks, j);
    }
    PassAt(inv, 0, itemId, n, Stacks, i);
    RoomNonnegative(inv, 0, PICKUP_SLOTS, itemId, Stacks);
    PassAt(stacked, 0, itemId, left, Gaps, i);
    SameGaps(inv, stacked, 0, i, itemId);
    SameGaps(inv, stacked, 0, PICKUP_SLOTS, itemId);
  }

  lemma {:induction false} SameGaps(a: Inventory, b: Inventory, from: nat, to: nat, itemId: int)
    requires |a| == |b| && from <= to <= |a| && forall j :: 0 <= j < |a| ==> (a[j].None? <==> b[j].None?)
    ensures RoomBetween(a, from, to, itemId, Gaps) == RoomBetween(b, from, to, itemId, Gaps)
    decreases |a| - from
  {
    if from < to { SameGaps(a, b, from + 1, to, itemId); }
  }

  // ---- when the two orders agree ----

  /** A stack of this kind that is not full. */
  predicate Partial(slot: Option<ItemStack>, itemId: int) {
    slot.Some? && Room(slot, itemId) > 0
  }

  /** For every empty slot before a stack that is not full: the items run out before the one or fill the other. */
  predicate Settled(inv: Inventory, itemId: int, n: int)
    requires |inv| == INVENTORY_SIZE
  {
    forall e: nat, p: nat :: e < p < PICKUP_SLOTS && inv[e].None? && Partial(inv[p], itemId) ==>
      n <= RoomBetween(inv, 0, e, itemId, All) || n >= RoomBetween(inv, 0, p + 1, itemId, All)
  }

  lemma {:induction false} RoomSplit(inv: Inventory, from: nat, mid: nat, to: nat, itemId: int, scope: Scope)
    requires from <= mid <= to <= |inv|
    ensures RoomBetween(inv, from, to, itemId, scope)
         == RoomBetween(inv, from, mid, itemId, scope) + RoomBetween(inv, mid, to, itemId, scope)
    decreases mid - from
  {
    if from < mid { RoomSplit(inv, from + 1, mid, to, itemId, scope); }
  }

  lemma {:induction false} RoomByScope(inv: Inventory, from: nat, to: nat, itemId: int)
    requires from <= to <= |inv|
    ensures RoomBetween(inv, from, to, itemId, All)
         == RoomBetween(inv, from, to, itemId, Stacks) + RoomBetween(inv, from, to, itemId, Gaps)
    decreases |inv| - from
  {
    if from < to { RoomByScope(inv, from + 1, to, itemId); }
  }

  lemma {:induction false} LastPartial(inv: Inventory, from: nat, itemId: int) returns (p: nat)
    requires Valid(inv) && from <= PICKUP_SLOTS && RoomBetween(inv, from, PICKUP_SLOTS, itemId, Stacks) > 0
    ensures from <= p < PICKUP_SLOTS && Partial(inv[p], itemId) && RoomBetween(inv, p + 1, PICKUP_SLOTS, itemId, Stacks) == 0
    decreases PICKUP_SLOTS - from
  {
    RoomNonnegative(inv, from + 1, PICKUP_SLOTS, itemId, Stacks);
    if RoomBetween(inv, from + 1, PICKUP_SLOTS, itemId, Stacks) == 0 {
      p := from;
    } else {
      p := LastPartial(inv, from + 1, itemId);
    }
  }

  lemma {:induction false} FirstGap(inv: Inventory, from: nat, to: nat, itemId: int) returns (e: nat)
    requires from <= to <= |inv| && RoomBetween(inv, from, to, itemId, Gaps) > 0
    ensures from <= e < to && inv[e].None? && RoomBetween(inv, from, e, itemId, Gaps) == 0
    decreases |inv| - from
  {
    if inv[from].None? {
      e := from;
    } else {
      e := FirstGap(inv, from + 1, to, itemId);
    }
  }

  lemma AtGap(inv: Inventory, itemId: int, n: int, i: nat)
    requires Valid(inv) && n >= 0 && Settled(inv, itemId, n) && i < PICKUP_SLOTS && inv[i].None?
    ensures var left := n - Least(n, RoomBetween(inv, 0, PICKUP_SLOTS, itemId, Stacks));
            Given(None, itemId, left - RoomBetween(inv, 0, i, itemId, Gaps), Gaps)
            == Given(None, itemId, n - RoomBetween(inv, 0, i, itemId, All), All)
  {
    hide RoomBetween;
    RoomByScope(inv, 0, i, itemId);
    RoomSplit(inv, 0, i, PICKUP_SLOTS, itemId, Stacks);
    RoomNonnegative(inv, 0, i, itemId, Stacks);
    RoomNonnegative(inv, 0, i, itemId, Gaps);
    RoomNonnegative(inv, i, PICKUP_SLOTS, itemId, Stacks);
    if RoomBetween(inv, i, PICKUP_SLOTS, itemId, Stacks) > 0 {
      var p := LastPartial(inv, i, itemId);
      RoomByScope(inv, 0, p + 1, itemId);
      RoomSplit(inv, 0, p + 1, PICKUP_SLOTS, itemId, Stacks);
      RoomSplit(inv, 0, i, p + 1, itemId, Gaps);
      GapHolds(inv, i, p + 1, itemId);
    }
  }

  lemma GapHolds(inv: Inventory, i: nat, to: nat, itemId: int)
    requires Valid(inv) && i < to <= PICKUP_SLOTS && inv[i].None?
    ensures RoomBetween(inv, i, to, itemId, Gaps) >= STACK_LIMIT
  {
    RoomNonnegative(inv, i + 1, to, itemId, Gaps);
  }

  lemma AtPartial(inv: Inventory, itemId: int, n: int, i: nat)
    requires Valid(inv) && n >= 0 && Settled(inv, itemId, n) && i < PICKUP_SLOTS && inv[i].Some?
    ensures Given(inv[i], itemId, n - RoomBetween(inv, 0, i, itemId, Stacks), Stacks)
         == Given(inv[i], itemId, n - RoomBetween(inv, 0, i, itemId, All), All)
  {
    RoomNext(inv, i, itemId);
    hide RoomBetween;
    RoomByScope(inv, 0, i, itemId);
    RoomNonnegative(inv, 0, i, itemId, Gaps);
    if RoomBetween(inv, 0, i, itemId, Gaps) > 0 && Partial(inv[i], itemId) {
      var e := FirstGap(inv, 0, i, itemId);
      RoomByScope(inv, 0, e, itemId);
      RoomSplit(inv, 0, e, i, itemId, Stacks);
      RoomNonnegative(inv, e, i, itemId, Stacks);
    }
  }

  lemma RoomNext(inv: Inventory, i: nat, itemId: int)
    requires i < |inv|
    ensures RoomBetween(inv, 0, i + 1, itemId, All) == RoomBetween(inv, 0, i, itemId, All) + Room(inv[i], itemId)
  {
    RoomSplit(inv, 0, i, i + 1, itemId, All);
    assert RoomBetween(inv, i + 1, i + 1, itemId, All) == 0;
  }

  /** An empty slot that gets items, or a stack that is not filled for it, tells the orders apart. */
  lemma Unsettled(inv: Inventory, itemId: int, n: int, e: nat, p: nat)
    requires Valid(inv) && n >= 0 && e < p < PICKUP_SLOTS && inv[e].None? && Partial(inv[p], itemId)
    requires RoomBetween(inv, 0, e, itemId, All) < n < RoomBetween(inv, 0, p + 1, itemId, All)
    ensures Insert(inv, 0, itemId, n) != InsertAsDocumented(inv, itemId, n)
  {
    RoomNext(inv, p, itemId);
    hide *;
    RoomByScope(inv, 0, p, itemId);
    RoomSplit(inv, 0, e, p, itemId, Gaps);
    GapHolds(inv, e, p, itemId);
    RoomNonnegative(inv, 0, e, itemId, Gaps);
    RoomNonnegative(inv, 0, e, itemId, All);
    RoomNonnegative(inv, 0, p, itemId, Stacks);
    if n > RoomBetween(inv, 0, p, itemId, Stacks) {
      StackDiffers(inv, itemId, n, p);
    } else {
      GapDiffers(inv, itemId, n, e, p);
    }
  }

  lemma StackDiffers(inv: Inventory, itemId: int, n: int, p: nat)
    requires Valid(inv) && p < PICKUP_SLOTS && Partial(inv[p], itemId)
    requires 0 <= RoomBetween(inv, 0, p, itemId, Stacks) < RoomBetween(inv, 0, p, itemId, All)
    requires RoomBetween(inv, 0, p, itemId, Stacks) < n < RoomBetween(inv, 0, p, itemId, All) + Room(inv[p], itemId)
    ensures Insert(inv, 0, itemId, n) != InsertAsDocumented(inv, itemId, n)
  {
    hide RoomBetween, Insert, Pass, InsertAsDocumented, Given, Room;
    InsertIsPass(inv, 0, itemId, n);
    PassAt(inv, 0, itemId, n, All, p);
    DocumentedAt(inv, itemId, n, p);
    FilledDifferently(inv[p], itemId, n - RoomBetween(inv, 0, p, itemId, All), n - RoomBetween(inv, 0, p, itemId, Stacks));
  }

  lemma GapDiffers(inv: Inventory, itemId: int, n: int, e: nat, p: nat)
    requires Valid(inv) && e < p < PICKUP_SLOTS && inv[e].None?
    requires 0 <= RoomBetween(inv, 0, e, itemId, All) < n <= RoomBetween(inv, 0, p, itemId, Stacks)
    ensures Insert(inv, 0, itemId, n) != InsertAsDocumented(inv, itemId, n)
  {
    hide RoomBetween, Insert, Pass, InsertAsDocumented, Given;
    RoomSplit(inv, 0, p, PICKUP_SLOTS, itemId, Stacks);
    RoomNonnegative(inv, p, PICKUP_SLOTS, itemId, Stacks);
    RoomNonnegative(inv, 0, e, itemId, Gaps);
    InsertIsPass(inv, 0, itemId, n);
    PassAt(inv, 0, itemId, n, All, e);
    DocumentedAt(inv, itemId, n, e);
    GivenOrNot(itemId, n - RoomBetween(inv, 0, e, itemId, All), 0 - RoomBetween(inv, 0, e, itemId, Gaps));
  }

  lemma FilledDifferently(slot: Option<ItemStack>, itemId: int, few: int, many: int)
    requires Partial(slot, itemId) && few < Room(slot, itemId) && 0 < many && few < many
    ensures Given(slot, itemId, few, All) != Given(slot, itemId, many, Stacks)
  {
  }

  lemma GivenOrNot(itemId: int, some: int, none: int)
    requires none <= 0 < some
    ensures Given(None, itemId, some, All) != Given(None, itemId, none, Gaps)
  {
  }

  /** The same is left over in either order, always. */
  lemma SameLeftOver(inv: Inventory, itemId: int, n: int)
    requires Valid(inv) && n >= 0
    ensures Insert(inv, 0, itemId, n).1 == InsertAsDocumented(inv, itemId, n).1
  {
    hide RoomBetween, Insert, Pass, InsertAsDocumented;
    InsertIsPass(inv, 0, itemId, n);
    PassAt(inv, 0, itemId, n, All, 0);
    DocumentedAt(inv, itemId, n, 0);
    RoomByScope(inv, 0, PICKUP_SLOTS, itemId);
    RoomNonnegative(inv, 0, PICKUP_SLOTS, itemId, Stacks);
    RoomNonnegative(inv, 0, PICKUP_SLOTS, itemId, Gaps);
  }

  /** The server fills the slots in the documented order exactly in the settled case. */
  lemma DocumentedExactly(inv: Inventory, itemId: int, n: int)
    requires Valid(inv) && n >= 0
    ensures Insert(inv, 0, itemId, n) == InsertAsDocumented(inv, itemId, n) <==> Settled(inv, itemId, n)
  {
    hide RoomBetween, Insert, Pass, InsertAsDocumented;
    if Settled(inv, itemId, n) {
      InsertIsPass(inv, 0, itemId, n);
      SameLeftOver(inv, itemId, n);
      DocumentedSize(inv, itemId, n);
      forall i | 0 <= i < INVENTORY_SIZE
        ensures Insert(inv, 0, itemId, n).0[i] == InsertAsDocumented(inv, itemId, n).0[i]
      {
        PassAt(inv, 0, itemId, n, All, i);
        if i >= PICKUP_SLOTS {
          DocumentedBeyond(inv, itemId, n, i);
        } else {
          DocumentedAt(inv, itemId, n, i);
          if inv[i].None? { AtGap(inv, itemId, n, i); } else { AtPartial(inv, itemId, n, i); }
        }
      }
      assert Insert(inv, 0, itemId, n).0 == InsertAsDocumented(inv, itemId, n).0;
    } else {
      var e: nat, p: nat :| e < p < PICKUP_SLOTS && inv[e].None? && Partial(inv[p], itemId)
        && RoomBetween(inv, 0, e, itemId, All) < n < RoomBetween(inv, 0, p + 1, itemId, All);
      Unsettled(inv, itemId, n, e, p);
    }
  }

  lemma DocumentedSize(inv: Inventory, itemId: int, n: int)
    requires |inv| == INVENTORY_SIZE
    ensures |InsertAsDocumented(inv, itemId, n).0| == INVENTORY_SIZE
  {
  }

  lemma {:induction false} PassBeyond(inv: Inventory, slot: nat, itemId: int, n: int, scope: Scope, i: nat)
    requires |inv| == INVENTORY_SIZE && slot <= PICKUP_SLOTS <= i < INVENTORY_SIZE
    ensures Pass(inv, slot, itemId, n, scope).0[i] == inv[i]
    decreases PICKUP_SLOTS - slot
  {
    if slot < PICKUP_SLOTS && n > 0 {
      var put := if scope.Covers(inv[slot]) then Put(inv[slot], itemId, n) else inv[slot];
      PassBeyond(inv[slot := put], slot + 1, itemId, n - Least(RoomIn(scope, inv[slot], itemId), n), scope, i);
    }
  }

  lemma DocumentedBeyond(inv: Inventory, itemId: int, n: int, i: nat)
    requires |inv| == INVENTORY_SIZE && PICKUP_SLOTS <= i < INVENTORY_SIZE
    ensures InsertAsDocumented(inv, itemId, n).0[i] == inv[i]
  {
    hide Pass;
    var (stacked, left) := Pass(inv, 0, itemId, n, Stacks);
    PassBeyond(inv, 0, itemId, n, Stacks, i);
    PassBeyond(stacked, 0, itemId, left, Gaps, i);
  }

  /** An empty slot in front of a stack of one item. */
  const GAP_THEN_STACK: Inventory := seq(INVENTORY_SIZE, i => if i == 1 then Some(ItemStack(55, 1)) else None)

  /** One more item of that kind goes into the gap, although it was to go onto the stack. */
  lemma UnsettledInventory()
    ensures Valid(GAP_THEN_STACK) && !Settled(GAP_THEN_STACK, 55, 1)
    ensures Insert(GAP_THEN_STACK, 0, 55, 1).0[..2] == [Some(ItemStack(55, 1)), Some(ItemStack(55, 1))]
    ensures InsertAsDocumented(GAP_THEN_STACK, 55, 1).0[..2] == [None, Some(ItemStack(55, 2))]
  {
    var inv := GAP_THEN_STACK;
    assert RoomBetween(inv, 2, 2, 55, All) == 0 && RoomBetween(inv, 1, 2, 55, All) == 63;
    assert RoomBetween(inv, 0, 2, 55, All) == 127 && RoomBetween(inv, 0, 0, 55, All) == 0;
    assert RoomBetween(inv, 0, 1, 55, All) == 64 && RoomBetween(inv, 0, 1, 55, Stacks) == 0;
    assert inv[0].None? && Partial(inv[1], 55);
    RoomSplit(inv, 0, 1, PICKUP_SLOTS, 55, Stacks);
    RoomNonnegative(inv, 2, PICKUP_SLOTS, 55, Stacks);
    assert RoomBetween(inv, 0, PICKUP_SLOTS, 55, Stacks) >= 63;
    hide Insert, Pass, RoomBetween, InsertAsDocumented;
    InsertIsPass(inv, 0, 55, 1);
    DocumentedSize(inv, 55, 1);
    PassAt(inv, 0, 55, 1, All, 0);
    PassAt(inv, 0, 55, 1, All, 1);
    DocumentedAt(inv, 55, 1, 0);
    DocumentedAt(inv, 55, 1, 1);
    assert RoomBetween(inv, 0, 0, 55, Gaps) == 0 by { RoomByScope(inv, 0, 0, 55); }
  }
}
