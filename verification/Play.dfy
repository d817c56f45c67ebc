// The items of the play phase over whole runs: blocks are dug, drops picked up each tick, blocks placed from the hand.

module Play {
  import opened Common
  import opened BlockPositions
  import opened Inventories
  import opened Pickups

  const FIRST_ENTITY_ID := 1000

  /** `get_drop_item_id`: bedrock at the bottom layer, dirt everywhere else. */
  function DropItemId(y: int): int {
    if y == -64 then 85 else 55
  }

  datatype Items = Items(
    inventory: Inventory, ground: seq<ItemEntity>, nextEntityId: int, heldSlot: nat, containerStateId: int, player: Position)

  datatype Event = Move(to: Position) | FinishDig(pos: int) | UseItemOn | SelectSlot(slot: int) | Tick

  const NO_ITEMS: Inventory := seq(INVENTORY_SIZE, _ => None)

  const INIT := Items(NO_ITEMS, [], FIRST_ENTITY_ID, 0, 0, Position(0.0, -59.0, 0.0))

  /** The entity that drops from a broken block. */
  function Drop(pos: int, entityId: int): ItemEntity {
    ItemEntity(entityId, DropItemId(UnpackY(pos)), 1,
               UnpackX(pos) as real + 0.5, UnpackY(pos) as real + 0.5, UnpackZ(pos) as real + 0.5)
  }

  function UseOne(slot: Option<ItemStack>): Option<ItemStack> {
    match slot
    case None => None
    case Some(stack) => if stack.count - 1 <= 0 then None else Some(ItemStack(stack.itemId, stack.count - 1))
  }

  /** One event; nothing if the server panics. */
  function Step(s: Items, e: Event): Option<Items>
    requires |s.inventory| == INVENTORY_SIZE
    ensures Step(s, e).Some? ==> |Step(s, e).value.inventory| == INVENTORY_SIZE
  {
    match e
    case Move(to) => Some(s.(player := to))
    case FinishDig(pos) =>
      if s.nextEntityId == I32_MAX then None
      else Some(s.(nextEntityId := s.nextEntityId + 1, ground := s.ground + [Drop(pos, s.nextEntityId)]))
    case UseItemOn =>
      if s.heldSlot >= INVENTORY_SIZE then None
      else Some(s.(inventory := s.inventory[s.heldSlot := UseOne(s.inventory[s.heldSlot])]))
    case SelectSlot(slot) => Some(s.(heldSlot := slot % 0x1_0000))
    case Tick =>
      var reached := Reached(s.ground, s.player);
      if reached == [] then Some(s)
      else
        var inv := PickUp(s.inventory, reached);
        if Sync(inv, 0) != [] && s.containerStateId == I32_MAX then None
        else
          Some(s.(inventory := inv, ground := OutOfReach(s.ground, s.player),
                  containerStateId := s.containerStateId + (if Sync(inv, 0) != [] then 1 else 0)))
  }

  function Run(s: Items, es: seq<Event>): Option<Items>
    requires |s.inventory| == INVENTORY_SIZE
    ensures Run(s, es).Some? ==> |Run(s, es).value.inventory| == INVENTORY_SIZE
    decreases |es|
  {
    if es == [] then Some(s)
    else
      match Step(s, es[0])
      case None => None
      case Some(next) => Run(next, es[1..])
  }

  // ---- what the client is told about its inventory ----

  /** The slot of the client's inventory window that shows an internal slot. */
  function WindowSlot(i: nat): nat {
    if i < 9 then i + 36 else i
  }

  datatype SlotUpdate = SlotUpdate(window: nat, stack: ItemStack)

  /** The updates sent after a pickup: one for every slot that holds something. */
  function Sync(inv: Inventory, slot: nat): seq<SlotUpdate>
    requires |inv| == INVENTORY_SIZE && slot <= PICKUP_SLOTS
    decreases PICKUP_SLOTS - slot
  {
    if slot == PICKUP_SLOTS then []
    else (match inv[slot] case None => [] case Some(stack) => [SlotUpdate(WindowSlot(slot), stack)]) + Sync(inv, slot + 1)
  }

  type Window = map<nat, Option<ItemStack>>

  function Apply(w: Window, us: seq<SlotUpdate>): Window
    decreases |us|
  {
    if us == [] then w else Apply(w[us[0].window := Some(us[0].stack)], us[1..])
  }

  /** The client sees the hotbar, which is the first nine slots, at 36 to 44 of its window, and the main slots at 9 to 35. */
  predicate Mirrors(w: Window, inv: Inventory) {
    && |inv| == INVENTORY_SIZE
    && (forall k :: 36 <= k <= 44 ==> k in w && w[k] == inv[k - 36])
    && (forall k :: 9 <= k <= 35 ==> k in w && w[k] == inv[k])
  }

  lemma MirrorAt(w: Window, inv: Inventory, i: nat)
    requires Mirrors(w, inv) && i < PICKUP_SLOTS
    ensures |inv| == INVENTORY_SIZE && WindowSlot(i) in w && w[WindowSlot(i)] == inv[i]
  {
    var k := if i < 9 then 36 + i else i;
    assert k in w;
  }

  lemma MirrorOf(w: Window, inv: Inventory)
    requires |inv| == INVENTORY_SIZE
    requires forall i: nat :: i < PICKUP_SLOTS ==> WindowSlot(i) in w && w[WindowSlot(i)] == inv[i]
    ensures Mirrors(w, inv)
  {
    forall k | 36 <= k <= 44
      ensures k in w && w[k] == inv[k - 36]
    {
      assert WindowSlot(k - 36) == k;
    }
    forall k | 9 <= k <= 35
      ensures k in w && w[k] == inv[k]
    {
      assert WindowSlot(k) == k;
    }
  }

  lemma {:induction false} SyncFrom(inv: Inventory, slot: nat, u: SlotUpdate)
    requires |inv| == INVENTORY_SIZE && slot <= PICKUP_SLOTS
    ensures u in Sync(inv, slot) <==> exists i: nat :: slot <= i < PICKUP_SLOTS && WindowSlot(i) == u.window && inv[i] == Some(u.stack)
    decreases PICKUP_SLOTS - slot
  {
    hide WindowSlot;
    if slot < PICKUP_SLOTS {
      SyncFrom(inv, slot + 1, u);
      if WindowSlot(slot) == u.window && inv[slot] == Some(u.stack) {
        assert u == SlotUpdate(WindowSlot(slot), u.stack);
      }
    }
  }

  /** After a pickup the client is told of exactly the slots that hold something, at the places of its window. */
  lemma SyncExactly(inv: Inventory, u: SlotUpdate)
    requires |inv| == INVENTORY_SIZE
    ensures u in Sync(inv, 0)
       <==> || (36 <= u.window <= 44 && inv[u.window - 36] == Some(u.stack))
            || (9 <= u.window <= 35 && inv[u.window] == Some(u.stack))
  {
    hide Sync;
    SyncFrom(inv, 0, u);
    if 36 <= u.window <= 44 && inv[u.window - 36] == Some(u.stack) {
      assert WindowSlot(u.window - 36) == u.window;
    }
    if 9 <= u.window <= 35 && inv[u.window] == Some(u.stack) {
      assert WindowSlot(u.window) == u.window;
    }
  }

  lemma {:induction false} ApplySync(w: Window, inv: Inventory, slot: nat, i: nat)
    requires |inv| == INVENTORY_SIZE && slot <= PICKUP_SLOTS && i < PICKUP_SLOTS && WindowSlot(i) in w
    ensures var after := Apply(w, Sync(inv, slot));
            WindowSlot(i) in after
            && after[WindowSlot(i)] == if i >= slot && inv[i].Some? then inv[i] else w[WindowSlot(i)]
    decreases PICKUP_SLOTS - slot
  {
    if slot < PICKUP_SLOTS {
      var later := Sync(inv, slot + 1);
      if inv[slot].None? {
        assert Sync(inv, slot) == [] + later == later;
        hide Sync, Apply;
        ApplySync(w, inv, slot + 1, i);
      } else {
        var u := SlotUpdate(WindowSlot(slot), inv[slot].value);
        assert Sync(inv, slot) == [u] + later && ([u] + later)[1..] == later;
        assert Apply(w, [u] + later) == Apply(w[u.window := inv[slot]], later);
        hide Sync, Apply;
        ApplySync(w[u.window := inv[slot]], inv, slot + 1, i);
        SameWindow(slot, i);
      }
    }
  }

  lemma SameWindow(i: nat, j: nat)
    requires i < PICKUP_SLOTS && j < PICKUP_SLOTS
    ensures WindowSlot(i) == WindowSlot(j) <==> i == j
  {
  }

  /** No pass ever empties a slot. */
  lemma {:induction false} InsertKeepsFilled(inv: Inventory, slot: nat, itemId: int, remaining: int, i: nat)
    requires |inv| == INVENTORY_SIZE && slot <= PICKUP_SLOTS && i < INVENTORY_SIZE && inv[i].Some?
    ensures |Insert(inv, slot, itemId, remaining).0| == INVENTORY_SIZE && Insert(inv, slot, itemId, remaining).0[i].Some?
    decreases PICKUP_SLOTS - slot
  {
    if slot < PICKUP_SLOTS && remaining > 0 {
      InsertKeepsFilled(inv[slot := Put(inv[slot], itemId, remaining)], slot + 1, itemId,
                        remaining - Least(Room(inv[slot], itemId), remaining), i);
    }
  }

  lemma {:induction false} PickUpKeepsFilled(inv: Inventory, es: seq<ItemEntity>, i: nat)
    requires |inv| == INVENTORY_SIZE && i < INVENTORY_SIZE && inv[i].Some?
    ensures PickUp(inv, es)[i].Some?
    decreases |es|
  {
    hide Insert;
    if es != [] {
      var last := es[|es| - 1];
      InsertKeepsFilled(inv, 0, last.itemId, last.count, i);
      PickUpKeepsFilled(Insert(inv, 0, last.itemId, last.count).0, es[..|es| - 1], i);
    }
  }

  /** A client that saw the inventory before a pickup sees it after applying the updates, though only filled slots are sent. */
  lemma SyncKeepsMirror(w: Window, inv: Inventory, es: seq<ItemEntity>)
    requires Mirrors(w, inv)
    ensures Mirrors(Apply(w, Sync(PickUp(inv, es), 0)), PickUp(inv, es))
  {
    assert |inv| == INVENTORY_SIZE;
    hide Sync, Apply, PickUp, Mirrors, WindowSlot;
    var after := PickUp(inv, es);
    forall i: nat | i < PICKUP_SLOTS
      ensures var w' := Apply(w, Sync(after, 0)); WindowSlot(i) in w' && w'[WindowSlot(i)] == after[i]
    {
      MirrorAt(w, inv, i);
      ApplySync(w, after, 0, i);
      if inv[i].Some? { PickUpKeepsFilled(inv, es, i); }
    }
    MirrorOf(Apply(w, Sync(after, 0)), after);
  }

  // ---- what the client has been told after whole runs ----

  /** The client's window after one more event: only a pickup is announced. */
  function Told(s: Items, w: Window, e: Event): Window
    requires |s.inventory| == INVENTORY_SIZE
  {
    if e.Tick? && Reached(s.ground, s.player) != [] then Apply(w, Sync(PickUp(s.inventory, Reached(s.ground, s.player)), 0)) else w
  }

  function ToldOver(s: Items, w: Window, es: seq<Event>): Window
    requires |s.inventory| == INVENTORY_SIZE
    decreases |es|
  {
    if es == [] || Step(s, es[0]).None? then w else ToldOver(Step(s, es[0]).value, Told(s, w, es[0]), es[1..])
  }

  /**
   * The slots that items have been used from since they were last announced: a use adds one, and a pickup takes out
   * those that hold something after it.
   */
  function Stale(s: Items, stale: set<nat>, e: Event): set<nat>
    requires |s.inventory| == INVENTORY_SIZE
  {
    if e.UseItemOn? && s.heldSlot < PICKUP_SLOTS && s.inventory[s.heldSlot].Some? then stale + {s.heldSlot}
    else if e.Tick? && Reached(s.ground, s.player) != [] then
      var inv := PickUp(s.inventory, Reached(s.ground, s.player));
      set i | i in stale && (i < INVENTORY_SIZE ==> inv[i].None?)
    else stale
  }

  function StaleOver(s: Items, stale: set<nat>, es: seq<Event>): set<nat>
    requires |s.inventory| == INVENTORY_SIZE
    decreases |es|
  {
    if es == [] || Step(s, es[0]).None? then stale else StaleOver(Step(s, es[0]).value, Stale(s, stale, es[0]), es[1..])
  }

  /** A stale slot shows items that are gone, every other one what is there. */
  predicate Shows(w: Window, inv: Inventory, stale: set<nat>) {
    |inv| == INVENTORY_SIZE && forall i: nat :: i < PICKUP_SLOTS ==> WindowSlot(i) in w && ShowsSlot(w[WindowSlot(i)], inv[i], i in stale)
  }

  predicate ShowsSlot(shown: Option<ItemStack>, held: Option<ItemStack>, stale: bool) {
    if !stale then shown == held
    else shown.Some? && (held.None? || (held.value.itemId == shown.value.itemId && held.value.count < shown.value.count))
  }

  lemma UseShows(w: Window, s: Items, stale: set<nat>)
    requires Shows(w, s.inventory, stale) && Step(s, UseItemOn).Some?
    ensures Shows(w, Step(s, UseItemOn).value.inventory, Stale(s, stale, UseItemOn))
  {
    var inv, after := s.inventory, Step(s, UseItemOn).value.inventory;
    forall i: nat | i < PICKUP_SLOTS
      ensures WindowSlot(i) in w && ShowsSlot(w[WindowSlot(i)], after[i], i in Stale(s, stale, UseItemOn))
    {
      assert ShowsSlot(w[WindowSlot(i)], inv[i], i in stale);
    }
  }

  lemma PickUpShows(w: Window, s: Items, stale: set<nat>)
    requires Shows(w, s.inventory, stale) && Reached(s.ground, s.player) != []
    ensures Shows(Told(s, w, Tick), PickUp(s.inventory, Reached(s.ground, s.player)), Stale(s, stale, Tick))
  {
    hide Apply, Sync, PickUp, Reached;
    var inv, es := s.inventory, Reached(s.ground, s.player);
    var after := PickUp(inv, es);
    forall i: nat | i < PICKUP_SLOTS
      ensures var w' := Told(s, w, Tick);
              WindowSlot(i) in w' && ShowsSlot(w'[WindowSlot(i)], after[i], i in Stale(s, stale, Tick))
    {
      assert ShowsSlot(w[WindowSlot(i)], inv[i], i in stale);
      ApplySync(w, after, 0, i);
      if inv[i].Some? { PickUpKeepsFilled(inv, es, i); }
    }
  }

  lemma StepShows(w: Window, s: Items, stale: set<nat>, e: Event)
    requires Shows(w, s.inventory, stale) && Step(s, e).Some?
    ensures Shows(Told(s, w, e), Step(s, e).value.inventory, Stale(s, stale, e))
  {
    hide Apply, Sync, PickUp, Reached, Drop, Shows;
    match e
    case UseItemOn => UseShows(w, s, stale);
    case Tick => if Reached(s.ground, s.player) != [] { PickUpShows(w, s, stale); }
    case _ =>
  }

  lemma {:induction false} RunShows(w: Window, s: Items, stale: set<nat>, es: seq<Event>)
    requires Shows(w, s.inventory, stale) && Run(s, es).Some?
    ensures Shows(ToldOver(s, w, es), Run(s, es).value.inventory, StaleOver(s, stale, es))
    decreases |es|
  {
    hide Step, Shows, Told, Stale;
    assert |s.inventory| == INVENTORY_SIZE by { ShowsSize(w, s.inventory, stale); }
    if es != [] {
      StepShows(w, s, stale, es[0]);
      RunShows(Told(s, w, es[0]), Step(s, es[0]).value, Stale(s, stale, es[0]), es[1..]);
    }
  }

  lemma ShowsSize(w: Window, inv: Inventory, stale: set<nat>)
    requires Shows(w, inv, stale)
    ensures |inv| == INVENTORY_SIZE
  {
  }

  /**
   * After any run from a window that showed the inventory: a slot is shown wrongly exactly if items have been used from
   * it since it was last announced. It then shows items that are gone.
   */
  lemma {:induction false} ShownWronglyExactly(w: Window, s: Items, es: seq<Event>, i: nat)
    requires Mirrors(w, s.inventory) && Run(s, es).Some? && i < PICKUP_SLOTS
    ensures var shown, held, window := ToldOver(s, w, es), Run(s, es).value.inventory, if i < 9 then 36 + i else i;
            && window in shown
            && (shown[window] != held[i] <==> i in StaleOver(s, {}, es))
            && (i in StaleOver(s, {}, es) ==>
                  shown[window].Some?
                  && (held[i].Some? ==> held[i].value.itemId == shown[window].value.itemId
                                        && held[i].value.count < shown[window].value.count))
  {
    hide Run, ToldOver, StaleOver;
    assert Shows(w, s.inventory, {}) by {
      forall k: nat | k < PICKUP_SLOTS
        ensures WindowSlot(k) in w && ShowsSlot(w[WindowSlot(k)], s.inventory[k], false)
      {
        MirrorAt(w, s.inventory, k);
      }
    }
    RunShows(w, s, {}, es);
    assert WindowSlot(i) in ToldOver(s, w, es);
  }

  // ---- invariants over whole runs ----

  /** Entity ids grow along the ground and are all below the next one; every drop is a single item. */
  predicate Tracked(ground: seq<ItemEntity>, nextEntityId: int) {
    && (forall i :: 0 <= i < |ground| ==> FIRST_ENTITY_ID <= ground[i].entityId < nextEntityId && ground[i].count == 1)
    && (forall i, j :: 0 <= i < j < |ground| ==> ground[i].entityId < ground[j].entityId)
  }

  predicate Invariant(s: Items) {
    && Valid(s.inventory) && Tracked(s.ground, s.nextEntityId)
    && FIRST_ENTITY_ID <= s.nextEntityId <= I32_MAX && s.heldSlot < 0x1_0000
    && 0 <= s.containerStateId <= I32_MAX
  }

  lemma {:induction false} OutOfReachTracked(es: seq<ItemEntity>, p: Position, nextEntityId: int)
    requires Tracked(es, nextEntityId)
    ensures Tracked(OutOfReach(es, p), nextEntityId)
    ensures forall e :: e in OutOfReach(es, p) <==> e in es && !InReach(e, p)
    decreases |es|
  {
    hide InReach;
    if es != [] {
      var rest := OutOfReach(es[1..], p);
      TrackedTail(es, nextEntityId);
      OutOfReachTracked(es[1..], p, nextEntityId);
      assert forall e :: e in es <==> e == es[0] || e in es[1..];
      hide Tracked;
      TrackedAgain(es, rest, nextEntityId);
    }
  }

  lemma TrackedTail(es: seq<ItemEntity>, nextEntityId: int)
    requires Tracked(es, nextEntityId) && es != []
    ensures Tracked(es[1..], nextEntityId)
  {
  }

  lemma TrackedAgain(es: seq<ItemEntity>, rest: seq<ItemEntity>, nextEntityId: int)
    requires Tracked(es, nextEntityId) && es != [] && Tracked(rest, nextEntityId) && forall e <- rest :: e in es[1..]
    ensures Tracked([es[0]] + rest, nextEntityId)
  {
    var all := [es[0]] + rest;
    forall i, j | 0 <= i < j < |all|
      ensures all[i].entityId < all[j].entityId
    {
      assert all[j] in es[1..];
    }
  }

  /** No event, whatever it is, breaks the invariants of the inventory and the entities. */
  lemma StepKeepsInvariant(s: Items, e: Event)
    requires Invariant(s) && Step(s, e).Some?
    ensures Invariant(Step(s, e).value)
  {
    hide PickUp, Sync, Drop, Reached;
    match e
    case Tick =>
      OutOfReachTracked(s.ground, s.player, s.nextEntityId);
      ReachSplitsGround(s.ground, s.player, 0);
      PickUpAccounts(s.inventory, Reached(s.ground, s.player), 0);
    case FinishDig(pos) => DropIsFresh(pos, s.nextEntityId);
    case _ =>
  }

  lemma DropIsFresh(pos: int, id: int)
    ensures Drop(pos, id).entityId == id && Drop(pos, id).count == 1
  {
  }

  lemma {:induction false} RunKeepsInvariant(s: Items, es: seq<Event>)
    requires Invariant(s) && Run(s, es).Some?
    ensures Invariant(Run(s, es).value)
    decreases |es|
  {
    hide Step, Invariant;
    assert |s.inventory| == INVENTORY_SIZE by { InvariantSize(s); }
    if es != [] {
      StepKeepsInvariant(s, es[0]);
      RunKeepsInvariant(Step(s, es[0]).value, es[1..]);
    }
  }

  lemma InvariantSize(s: Items)
    requires Invariant(s)
    ensures |s.inventory| == INVENTORY_SIZE
  {
  }

  /** Every reachable state satisfies the invariants. */
  lemma InvariantReachable(es: seq<Event>)
    ensures Run(INIT, es).Some? ==> Invariant(Run(INIT, es).value)
  {
    hide Run;
    if Run(INIT, es).Some? { RunKeepsInvariant(INIT, es); }
  }

  // ---- which runs panic ----

  /** How many blocks the events dig. */
  function Digs(es: seq<Event>): nat
    decreases |es|
  {
    if es == [] then 0 else (if es[0].FinishDig? then 1 else 0) + Digs(es[1..])
  }

  /** An item is used while the slot selected last, or `held` if none has been, lies outside the inventory. */
  predicate Overreaches(es: seq<Event>, held: nat)
    decreases |es|
  {
    es != []
    && match es[0]
       case UseItemOn => held >= INVENTORY_SIZE || Overreaches(es[1..], held)
       case SelectSlot(slot) => Overreaches(es[1..], slot % 0x1_0000)
       case _ => Overreaches(es[1..], held)
  }

  /** As many entities as there are ids for. */
  const MOST_DIGS := I32_MAX - FIRST_ENTITY_ID

  /** Every announced pickup has taken an entity from the ground: the counter of the updates stays behind the ids. */
  predicate Numbered(s: Items) {
    && |s.inventory| == INVENTORY_SIZE
    && 0 <= s.containerStateId && FIRST_ENTITY_ID + s.containerStateId + |s.ground| <= s.nextEntityId <= I32_MAX
  }

  lemma {:induction false} ReachSplits(es: seq<ItemEntity>, p: Position)
    ensures |Reached(es, p)| + |OutOfReach(es, p)| == |es|
    decreases |es|
  {
    hide InReach;
    if es != [] { ReachSplits(es[1..], p); }
  }

  lemma StepPanicsExactly(s: Items, e: Event)
    requires Numbered(s)
    ensures Step(s, e).None? <==> (e.FinishDig? && s.nextEntityId == I32_MAX) || (e.UseItemOn? && s.heldSlot >= INVENTORY_SIZE)
    ensures Step(s, e).Some? ==>
              var next := Step(s, e).value;
              && Numbered(next) && next.nextEntityId == s.nextEntityId + (if e.FinishDig? then 1 else 0)
              && next.heldSlot == if e.SelectSlot? then e.slot % 0x1_0000 else s.heldSlot
  {
    hide PickUp, Sync, Drop, Reached, OutOfReach;
    ReachSplits(s.ground, s.player);
  }

  /**
   * Over every run: the server panics exactly if an item is used from a slot outside the inventory, or more blocks are
   * dug than there are entity ids. The counter of the updates never overflows.
   */
  lemma {:induction false} RunPanicsExactly(s: Items, es: seq<Event>)
    requires Numbered(s)
    ensures Run(s, es).None? <==> Overreaches(es, s.heldSlot) || Digs(es) > I32_MAX - s.nextEntityId
    decreases |es|
  {
    hide Step;
    if es != [] {
      StepPanicsExactly(s, es[0]);
      if Step(s, es[0]).Some? {
        RunPanicsExactly(Step(s, es[0]).value, es[1..]);
      }
    } else {
      assert s.nextEntityId <= I32_MAX;
    }
  }

  lemma PanicsExactly(es: seq<Event>)
    ensures Run(INIT, es).None? <==> Overreaches(es, 0) || Digs(es) > MOST_DIGS
  {
    hide Run, Overreaches, Digs;
    RunPanicsExactly(INIT, es);
  }

  /** The shortest run that panics: the first slot outside the inventory, which has 46, and a use. */
  lemma OverreachPanics(slot: nat)
    requires slot < 0x1_0000
    ensures Run(INIT, [SelectSlot(slot), UseItemOn]) == None <==> slot >= 46
  {
    var es := [SelectSlot(slot), UseItemOn];
    assert es[1..] == [UseItemOn] && [UseItemOn][1..] == [];
    assert Overreaches([], slot) == false;
    assert Overreaches([UseItemOn], slot) <==> slot >= 46;
    assert Digs([]) == 0 && Digs([UseItemOn]) == 0;
    hide Run;
    PanicsExactly(es);
  }

  // ---- no item appears or disappears unaccounted ----

  /** What an event adds to the blocks dug, the items used up and the items lost, for one kind of item. */
  datatype Ledger = Ledger(dug: int, used: int, lost: int)

  function Entry(s: Items, e: Event, itemId: int): Ledger
    requires |s.inventory| == INVENTORY_SIZE
  {
    match e
    case FinishDig(pos) => Ledger(if DropItemId(UnpackY(pos)) == itemId then 1 else 0, 0, 0)
    case UseItemOn =>
      var used := s.heldSlot < INVENTORY_SIZE && s.inventory[s.heldSlot].Some? && s.inventory[s.heldSlot].value.itemId == itemId;
      Ledger(0, if used then 1 else 0, 0)
    case Tick => Ledger(0, 0, Unplaced(s.inventory, Reached(s.ground, s.player), itemId))
    case _ => Ledger(0, 0, 0)
  }

  function Books(s: Items, es: seq<Event>, itemId: int): Ledger
    requires |s.inventory| == INVENTORY_SIZE
    decreases |es|
  {
    if es == [] || Step(s, es[0]).None? then Ledger(0, 0, 0)
    else
      var now, later := Entry(s, es[0], itemId), Books(Step(s, es[0]).value, es[1..], itemId);
      Ledger(now.dug + later.dug, now.used + later.used, now.lost + later.lost)
  }

  function Stock(s: Items, itemId: int): int {
    Total(s.inventory, itemId) + Ground(s.ground, itemId)
  }

  lemma StepAccounts(s: Items, e: Event, itemId: int)
    requires Invariant(s) && Step(s, e).Some?
    ensures var l := Entry(s, e, itemId);
            && Stock(Step(s, e).value, itemId) == Stock(s, itemId) + l.dug - l.used - l.lost
            && l.dug >= 0 && l.used >= 0 && l.lost >= 0
  {
    hide Total, Ground, PickUp, Sync, Reached, OutOfReach, Unplaced, UnpackX, UnpackY, UnpackZ;
    match e
    case Tick =>
      var reached := Reached(s.ground, s.player);
      ReachSplitsGround(s.ground, s.player, itemId);
      TickAccounts(s.inventory, s.ground, s.player, itemId);
      PickUpAccounts(s.inventory, reached, itemId);
      if reached == [] { NothingReached(s, itemId); }
    case FinishDig(pos) => GroundAppend(s.ground, Drop(pos, s.nextEntityId), itemId);
    case UseItemOn => TotalUpdate(s.inventory, s.heldSlot, UseOne(s.inventory[s.heldSlot]), itemId);
    case _ =>
  }

  lemma NothingReached(s: Items, itemId: int)
    requires Reached(s.ground, s.player) == []
    requires |s.inventory| == INVENTORY_SIZE
    ensures Unplaced(s.inventory, Reached(s.ground, s.player), itemId) == 0
  {
  }

  /**
   * Over every run: the items of a kind in the inventory and on the ground are those dug up, less those used and those
   * that found no place when they were picked up.
   */
  lemma {:induction false} RunAccounts(s: Items, es: seq<Event>, itemId: int)
    requires Invariant(s) && Run(s, es).Some?
    ensures var l := Books(s, es, itemId);
            && Stock(Run(s, es).value, itemId) == Stock(s, itemId) + l.dug - l.used - l.lost
            && l.dug >= 0 && l.used >= 0 && l.lost >= 0
    decreases |es|
  {
    hide Step, Invariant, Stock, Entry;
    assert |s.inventory| == INVENTORY_SIZE by { InvariantSize(s); }
    if es != [] {
      StepAccounts(s, es[0], itemId);
      StepKeepsInvariant(s, es[0]);
      RunAccounts(Step(s, es[0]).value, es[1..], itemId);
    }
  }

  /** From the start of play: what was dug is held, lying, used or lost. */
  lemma NothingUnaccounted(es: seq<Event>, itemId: int)
    requires Run(INIT, es).Some?
    ensures var l := Books(INIT, es, itemId);
            Stock(Run(INIT, es).value, itemId) == l.dug - l.used - l.lost
  {
    hide Run, Books;
    RunAccounts(INIT, es, itemId);
    EmptyTotal(NO_ITEMS, itemId);
    NoGround(itemId);
  }

  lemma {:induction false} EmptyTotal(inv: Inventory, itemId: int)
    requires forall i :: 0 <= i < |inv| ==> inv[i] == None
    ensures Total(inv, itemId) == 0
  {
    if inv != [] { EmptyTotal(inv[1..], itemId); }
  }

  // ---- drops at negative z ----

  /** What lies where the block stood. */
  function AtBlock(x: int, y: int, z: int, id: int): ItemEntity {
    ItemEntity(id, DropItemId(y), 1, x as real + 0.5, y as real + 0.5, z as real + 0.5)
  }

  const ASTRAY: real := 67108864.0

  /**
   * A block broken by its packed position drops its item where it stood exactly if z is not negative. Otherwise the item
   * is reached exactly from 2^26 blocks further on, and by no player who reaches the place where the block stood.
   */
  lemma DropPlacedExactly(x: int, y: int, z: int, id: int)
    requires Fits(x, y, z)
    ensures Drop(Pack(x, y, z), id) == AtBlock(x, y, z, id) <==> z >= 0
    ensures z < 0 ==> forall p: Position ::
              InReach(Drop(Pack(x, y, z), id), p) <==> InReach(AtBlock(x, y, z, id), Position(p.x, p.y, p.z - ASTRAY))
    ensures z < 0 ==> forall p: Position :: !(InReach(Drop(Pack(x, y, z), id), p) && InReach(AtBlock(x, y, z, id), p))
  {
    hide Pack, UnpackX, UnpackY, UnpackZ, InReach;
    UnpackPacked(x, y, z);
    var e, block := Drop(Pack(x, y, z), id), AtBlock(x, y, z, id);
    if z < 0 {
      assert UnpackZ(Pack(x, y, z)) == z + XZ_SIZE;
      assert e.x == block.x && e.y == block.y && e.z == block.z + ASTRAY;
      forall p: Position
        ensures InReach(e, p) <==> InReach(block, Position(p.x, p.y, p.z - ASTRAY))
        ensures !(InReach(e, p) && InReach(block, p))
      {
        ReachMoved(e, block, p);
        if e.z - p.z > 4.0 { FarAway(e, p); } else { FarAway(block, p); }
      }
    }
  }

  /** Where the drop of a packed position lies, and what it is: bedrock for the bottom layer and dirt for any other. */
  lemma DropIs(x: int, y: int, z: int, id: int)
    requires Fits(x, y, z)
    ensures Drop(Pack(x, y, z), id)
         == ItemEntity(id, if y == -64 then 85 else 55, 1, x as real + 0.5, y as real + 0.5,
                       (if z >= 0 then z else z + 0x400_0000) as real + 0.5)
  {
    hide Pack, UnpackX, UnpackY, UnpackZ;
    UnpackPacked(x, y, z);
  }

  lemma ReachMoved(e: ItemEntity, block: ItemEntity, p: Position)
    requires e.x == block.x && e.y == block.y && e.z == block.z + ASTRAY
    ensures InReach(e, p) <==> InReach(block, Position(p.x, p.y, p.z - ASTRAY))
  {
    assert e.z - p.z == block.z - (p.z - ASTRAY);
  }

  lemma FarAway(e: ItemEntity, p: Position)
    requires e.z - p.z > 4.0 || e.z - p.z < -4.0
    ensures !InReach(e, p)
  {
    Square(e.x - p.x);
    Square(e.y - p.y);
    var d := e.z - p.z;
    assert d * d > 16.0 by { assert (d - 4.0) * (d + 4.0) > 0.0; }
  }

  lemma Square(d: real)
    ensures d * d >= 0.0
  {
  }
}
