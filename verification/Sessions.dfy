// The play loop as a whole: packets and ticks change the items, and each read is followed by the check of the chunks.
// Then a whole session, from a client's first byte to the items and chunks it ends up with.

module Sessions {
  import opened Common
  import opened Buffers
  import opened Frames
  import opened Streams
  import opened Inventories
  import opened Pickups
  import opened Play
  import opened PlayServer
  import opened PlayPackets
  import opened BlockPositions
  import Packets
  import Connections
  import Handover
  import Views

  datatype Game = Game(items: Items, view: Views.View)

  function ChunkOf(p: Position): Views.Chunk {
    (Views.ChunkCoord(p.x), Views.ChunkCoord(p.z))
  }

  /** The check after a read; nothing if listing the chunks overflows. */
  function CheckChunks(view: Views.View, here: Views.Chunk): Option<Views.View> {
    if here == view.last || Views.Viewable(here) then Some(Views.Check(view, here)) else None
  }

  /** The loop of `finish_play_start`; nothing if it panics. */
  function PlayGame(g: Game, kept: seq<byte>, turns: seq<Turn>, o: Outside): Option<(Game, seq<byte>)>
    requires |g.items.inventory| == INVENTORY_SIZE
    decreases |turns|
  {
    if Closes(turns) then Some((g, kept))
    else
      match turns[0]
      case Timer =>
        (match Step(g.items, Tick)
         case None => None
         case Some(next) => PlayGame(g.(items := next), kept, turns[1..], o))
      case Read(piece) =>
        (match ServeBuffer(g.items, kept + piece, o)
         case None => None
         case Some((next, left)) =>
           match CheckChunks(g.view, ChunkOf(next.player))
           case None => None
           case Some(view) => PlayGame(Game(next, view), left, turns[1..], o))
  }

  // ---- items and chunks apart, on any bytes ----

  /** Where a player at `p` is after these events. */
  function LastMove(es: seq<Event>, p: Position): Position
    decreases |es|
  {
    if es == [] then p else LastMove(es[1..], if es[0].Move? then es[0].to else p)
  }

  /** Where the player is after each read that the server survives. */
  function Visits(p: Position, kept: seq<byte>, turns: seq<Turn>, o: Outside): seq<Views.Chunk>
    decreases |turns|
  {
    if Closes(turns) then []
    else
      match turns[0]
      case Timer => Visits(p, kept, turns[1..], o)
      case Read(piece) =>
        var now := Hear(kept + piece, o);
        if !now.heard.alive then []
        else
          var there := LastMove(now.heard.events, p);
          [ChunkOf(there)] + Visits(there, now.left, turns[1..], o)
  }

  predicate AllViewable(path: seq<Views.Chunk>) {
    forall i :: 0 <= i < |path| ==> Views.Viewable(path[i])
  }

  lemma StepPlace(s: Items, e: Event)
    requires |s.inventory| == INVENTORY_SIZE && Step(s, e).Some?
    ensures Step(s, e).value.player == if e.Move? then e.to else s.player
  {
    hide PickUp, Reached, OutOfReach, Sync, Drop;
  }

  lemma {:induction false} RunPlace(s: Items, es: seq<Event>)
    requires |s.inventory| == INVENTORY_SIZE && Run(s, es).Some?
    ensures Run(s, es).value.player == LastMove(es, s.player)
    decreases |es|
  {
    hide Step;
    if es != [] {
      StepPlace(s, es[0]);
      RunPlace(Step(s, es[0]).value, es[1..]);
    }
  }

  /** The last chunk remembered is one that could be listed. */
  lemma CheckViewable(view: Views.View, here: Views.Chunk)
    requires Views.Viewable(view.last)
    ensures CheckChunks(view, here).Some? <==> Views.Viewable(here)
    ensures CheckChunks(view, here).Some? ==>
              CheckChunks(view, here).value == Views.Check(view, here) && Views.Viewable(Views.Check(view, here).last)
  {
    hide Views.Viewable;
  }

  lemma RunFirst(view: Views.View, here: Views.Chunk, path: seq<Views.Chunk>)
    ensures Views.Run(view, [here] + path) == Views.Run(Views.Check(view, here), path)
    ensures AllViewable([here] + path) <==> Views.Viewable(here) && AllViewable(path)
  {
    hide Views.Check, Views.Viewable;
    var all := [here] + path;
    assert all[1..] == path && all[0] == here;
    assert forall i :: 0 <= i < |path| ==> path[i] == all[i + 1];
  }

  /**
   * On every sequence of bytes, however cut: the loop panics exactly if running what is heard does or a chunk cannot be
   * listed; otherwise the items are those of what is heard, the chunks those of the visits, and neither touches the other.
   */
  lemma {:induction false} GameExactly(g: Game, kept: seq<byte>, turns: seq<Turn>, o: Outside)
    requires |g.items.inventory| == INVENTORY_SIZE && Views.Viewable(g.view.last)
    ensures var path, h, end := Visits(g.items.player, kept, turns, o), Deeds(kept, turns, o), Do(g.items, Deeds(kept, turns, o).heard);
            PlayGame(g, kept, turns, o)
            == if end.Some? && AllViewable(path) then Some((Game(end.value, Views.Run(g.view, path)), h.left)) else None
    decreases |turns|
  {
    hide Step, Run, ServeBuffer, Hear, Then, LastMove, Views.Check, Views.Viewable, CheckChunks, AllViewable;
    DoOne(g.items, Tick);
    if Closes(turns) {
      NoPath(g.view);
    } else {
      match turns[0]
      case Timer =>
        DoThen(g.items, Heard([Tick], true), Deeds(kept, turns[1..], o).heard);
        var next := Step(g.items, Tick);
        if next.Some? {
          StepPlace(g.items, Tick);
          GameExactly(g.(items := next.value), kept, turns[1..], o);
        }
      case Read(piece) =>
        var now := Hear(kept + piece, o);
        ServeHears(g.items, kept + piece, o);
        DoThen(g.items, now.heard, Deeds(now.left, turns[1..], o).heard);
        var next := Do(g.items, now.heard);
        if next.Some? {
          RunPlace(g.items, now.heard.events);
          var here := ChunkOf(next.value.player);
          CheckViewable(g.view, here);
          RunFirst(g.view, here, Visits(next.value.player, now.left, turns[1..], o));
          if Views.Viewable(here) { GameExactly(Game(next.value, Views.Check(g.view, here)), now.left, turns[1..], o); }
        }
    }
  }

  lemma NoPath(view: Views.View)
    ensures Views.Run(view, []) == view && AllViewable([])
  {
  }

  // ---- what a client ends up with, whatever it sends ----

  /** The chunk that a player starts in. */
  const HOME: Views.Chunk := (0, 0)

  /** The game when the play loop starts. */
  function Opening(items: Items, templates: bool): Game {
    Game(items, Views.Start(ChunkOf(items.player), templates))
  }

  lemma OpeningViewable(templates: bool)
    ensures ChunkOf(Play.INIT.player) == HOME && Opening(Play.INIT, templates).view.last == HOME && Views.Viewable(HOME)
  {
    assert (0.0 / 16.0).Floor == 0;
    Views.StartFaithful(HOME, templates);
  }

  /**
   * How the play loop ends. It runs through exactly if the client is harmless and never goes where the chunks around it
   * cannot be numbered. Then the items are those of the events, and the chunks sent are those of the places.
   */
  ghost predicate PlaysOut(r: Option<(Game, seq<byte>)>, harmless: bool, end: Option<Items>, path: seq<Views.Chunk>,
                           templates: bool) {
    && (r.Some? <==> harmless && AllViewable(path))
    && (r.Some? ==> Some(r.value.0.items) == end && ChunksSent(r.value.0.view, path, templates))
  }

  /**
   * Every chunk around the client's last place has been sent, what is loaded are the squares around the places it was
   * seen at, and each of their chunks was sent once, except for the first square if there are no templates.
   */
  ghost predicate ChunksSent(v: Views.View, path: seq<Views.Chunk>, templates: bool) {
    && Views.Square(if path == [] then HOME else path[|path| - 1]) <= v.loaded
    && v.loaded == Views.Seen([HOME] + path)
    && SentOnce(v.sent, v.loaded, if templates then {} else Views.Square(HOME))
  }

  /** Each of the loaded chunks has been sent once, those of `twice` once more, and no other. */
  ghost predicate SentOnce(sent: seq<Views.Chunk>, loaded: set<Views.Chunk>, twice: set<Views.Chunk>) {
    forall c :: Views.Times(sent, c) == (if c in loaded then 1 else 0) + (if c in twice then 1 else 0)
  }

  /** What is heard does not make the server panic. */
  predicate Survivable(h: Heard) {
    h.alive && !Overreaches(h.events, 0) && Digs(h.events) <= MOST_DIGS
  }

  lemma SurvivesExactly(h: Heard)
    ensures Do(Play.INIT, h).Some? <==> Survivable(h)
    ensures Survivable(h) ==> Do(Play.INIT, h) == Run(Play.INIT, h.events)
  {
    hide Run, Overreaches, Digs;
    PanicsExactly(h.events);
  }

  /** From any bytes, hostile ones included, in any cuts and with ticks anywhere, to items and chunks. */
  lemma AnyBytesPlayOut(turns: seq<Turn>, templates: bool, o: Outside)
    ensures var h := Deeds([], turns, o).heard;
            PlaysOut(PlayGame(Opening(Play.INIT, templates), [], turns, o), Survivable(h), Run(Play.INIT, h.events),
                     Visits(Play.INIT.player, [], turns, o), templates)
  {
    hide Do, Run, Deeds, Visits, PlayGame, AllViewable, ChunksSent, Survivable;
    OpeningViewable(templates);
    GameExactly(Opening(Play.INIT, templates), [], turns, o);
    SurvivesExactly(Deeds([], turns, o).heard);
    RunSends(Visits(Play.INIT.player, [], turns, o), templates);
  }

  lemma RunSends(path: seq<Views.Chunk>, templates: bool)
    ensures ChunksSent(Views.Run(Opening(Play.INIT, templates).view, path), path, templates)
  {
    OpeningViewable(templates);
    hide Views.Square, Views.Seen, Views.Run, Views.Start, Views.Times;
    Views.StreamingOverRuns(HOME, templates, path);
  }

  /** Every chunk at most four from the player's position is loaded. */
  ghost predicate Surrounded(g: Game) {
    forall i, k :: Views.Near(i, g.items.player.x) && Views.Near(k, g.items.player.z) ==> (i, k) in g.view.loaded
  }

  lemma SquareSurrounds(g: Game)
    requires Views.Viewable(ChunkOf(g.items.player)) && Views.Square(ChunkOf(g.items.player)) <= g.view.loaded
    ensures Surrounded(g)
  {
    var p := g.items.player;
    Views.SeenFrom(p.x, p.z);
    Views.ListedIsSquare(ChunkOf(p));
    hide Views.Square, Views.Listed, Views.Near, Views.Viewable;
    forall i, k | Views.Near(i, p.x) && Views.Near(k, p.z)
      ensures (i, k) in g.view.loaded
    {
      assert (i, k) in Views.Elements(Views.Listed(ChunkOf(p)));
    }
  }

  /** Whatever bytes a client sends: at the end, every chunk at most four from where it is has been loaded. */
  lemma PlayerSurrounded(turns: seq<Turn>, templates: bool, o: Outside)
    requires PlayGame(Opening(Play.INIT, templates), [], turns, o).Some?
    ensures Surrounded(PlayGame(Opening(Play.INIT, templates), [], turns, o).value.0)
  {
    hide Views.Square, Views.Viewable, PlayGame, Views.Faithful, Surrounded;
    OpeningViewable(templates);
    Views.StartFaithful(HOME, templates);
    var view, twice := Views.Start(HOME, templates), if templates then {} else Views.Square(HOME);
    StartSurrounds(view, twice);
    GameSurrounds(Opening(Play.INIT, templates), [], turns, o, Views.Square(HOME), twice);
    SquareSurrounds(PlayGame(Opening(Play.INIT, templates), [], turns, o).value.0);
  }

  lemma StartSurrounds(view: Views.View, twice: set<Views.Chunk>)
    requires Views.Faithful(view, Views.Square(HOME), twice)
    ensures Views.Square(HOME) <= view.loaded
  {
    hide Views.Square, Views.Times;
  }

  lemma {:induction false} GameSurrounds(g: Game, kept: seq<byte>, turns: seq<Turn>, o: Outside, seen: set<Views.Chunk>,
                                         twice: set<Views.Chunk>)
    requires |g.items.inventory| == INVENTORY_SIZE && PlayGame(g, kept, turns, o).Some?
    requires Views.Faithful(g.view, seen, twice) && Views.Viewable(g.view.last)
    requires Views.Viewable(ChunkOf(g.items.player)) && Views.Square(ChunkOf(g.items.player)) <= g.view.loaded
    ensures var end := PlayGame(g, kept, turns, o).value.0;
            Views.Viewable(ChunkOf(end.items.player)) && Views.Square(ChunkOf(end.items.player)) <= end.view.loaded
    decreases |turns|
  {
    hide Step, ServeBuffer, Views.Check, Views.Viewable, CheckChunks, ChunkOf, Views.Square, Views.Faithful;
    if !Closes(turns) {
      match turns[0]
      case Timer =>
        StepPlace(g.items, Tick);
        GameSurrounds(g.(items := Step(g.items, Tick).value), kept, turns[1..], o, seen, twice);
      case Read(piece) =>
        var (next, left) := ServeBuffer(g.items, kept + piece, o).value;
        var here := ChunkOf(next.player);
        CheckViewable(g.view, here);
        Views.CheckFaithful(g.view, here, seen, twice);
        GameSurrounds(Game(next, Views.Check(g.view, here)), left, turns[1..], o, seen + Views.Square(here), twice);
    }
  }

  // ---- where the client goes ----

  /** Where a client is that does these things. */
  function LastPlace(actions: seq<Action>, p: Position, o: Outside): Position
    requires AllSayable(actions)
    decreases |actions|
  {
    if actions == [] then p
    else
      assert Sayable(actions[0]);
      LastPlace(actions[1..], match actions[0]
                              case GoTo(x, y, z, _) => Position(o.number(x), o.number(y), o.number(z))
                              case GoAndTurn(x, y, z, _, _) => Position(o.number(x), o.number(y), o.number(z))
                              case _ => p, o)
  }

  /** The chunks it is in after each read, by what it said in the packets that had come whole. */
  function Places(actions: seq<Action>, p: Position, kept: nat, turns: seq<Turn>, o: Outside): seq<Views.Chunk>
    requires AllSayable(actions)
    decreases |turns|
  {
    if Closes(turns) then []
    else
      match turns[0]
      case Timer => Places(actions, p, kept, turns[1..], o)
      case Read(piece) =>
        var n := kept + |piece|;
        var k := Whole(PacketsOf(actions), n, o.zlib);
        var there := LastPlace(actions[..k], p, o);
        [ChunkOf(there)] + Places(actions[k..], there, Beyond(PacketsOf(actions), n, o.zlib), turns[1..], o)
  }

  lemma {:induction false} MovesArePlaces(actions: seq<Action>, p: Position, o: Outside)
    requires AllSayable(actions)
    ensures LastMove(EventsOf(actions, o), p) == LastPlace(actions, p, o)
    decreases |actions|
  {
    hide Pack;
    if actions != [] {
      assert Sayable(actions[0]);
      var m, more := MeaningOf(actions[0], o), EventsOf(actions[1..], o);
      assert [] + more == more;
      if m.Does? { assert ([m.event] + more)[0] == m.event && ([m.event] + more)[1..] == more; }
      MovesArePlaces(actions[1..], if m.Does? && m.event.Move? then m.event.to else p, o);
    }
  }

  /** A part of a client's stream is heard as its actions. */
  lemma HearActions(actions: seq<Action>, buf: seq<byte>, later: seq<byte>, o: Outside)
    requires AllSayable(actions) && buf + later <= FrameAll(PacketsOf(actions), false, o.zlib)
    ensures var k, m := Whole(PacketsOf(actions), |buf|, o.zlib), Beyond(PacketsOf(actions), |buf|, o.zlib);
            && AllSayable(actions[..k]) && AllSayable(actions[k..])
            && Hear(buf, o) == Hearing(Heard(EventsOf(actions[..k], o), true), buf[|buf| - m..])
            && buf[|buf| - m..] + later <= FrameAll(PacketsOf(actions[k..]), false, o.zlib)
  {
    hide Hear, FrameAll, Whole, Beyond, PacketsOf, Sayable, Meant, EventsOf;
    var ps := PacketsOf(actions);
    var k := Whole(ps, |buf|, o.zlib);
    ActionsFramable(actions, o.zlib);
    hide Handover.AllFramable;
    FramedPart(ps, buf, later, o.zlib);
    HearFrames(ps, buf, o);
    RestIsPart(ps, buf, later, o.zlib);
    PacketsSplit(actions, k);
    MeantByActions(actions[..k], o);
  }

  /** Where the server sees the client is where the client said it was. */
  lemma {:induction false} VisitsArePlaces(actions: seq<Action>, p: Position, kept: seq<byte>, turns: seq<Turn>, o: Outside)
    requires AllSayable(actions) && kept + Sent(turns) <= FrameAll(PacketsOf(actions), false, o.zlib)
    ensures Visits(p, kept, turns, o) == Places(actions, p, |kept|, turns, o)
    decreases |turns|
  {
    hide Hear, Sayable, FrameAll, PacketsOf, LastPlace, LastMove, Whole, Beyond, ChunkOf;
    if !Closes(turns) {
      match turns[0]
      case Timer =>
        assert [] + Sent(turns[1..]) == Sent(turns[1..]);
        VisitsArePlaces(actions, p, kept, turns[1..], o);
      case Read(piece) =>
        var buf, later := kept + piece, Sent(turns[1..]);
        assert kept + (piece + later) == buf + later;
        var k := Whole(PacketsOf(actions), |buf|, o.zlib);
        HearActions(actions, buf, later, o);
        MovesArePlaces(actions[..k], p, o);
        VisitsArePlaces(actions[k..], LastPlace(actions[..k], p, o), Hear(buf, o).left, turns[1..], o);
    }
  }

  // ---- what the client ends up with ----

  /**
   * From bytes to items and chunks, over any actions of a client, any cuts and any schedule of reads and ticks: the loop
   * runs through exactly if the actions that have come whole are harmless and all places viewable.
   */
  lemma BytesToChunks(actions: seq<Action>, turns: seq<Turn>, templates: bool, o: Outside)
    requires AllSayable(actions) && Sent(turns) <= FrameAll(PacketsOf(actions), false, o.zlib)
    ensures PlaysOut(PlayGame(Opening(Play.INIT, templates), [], turns, o), Harmless(Done(actions, |Sent(turns)|, o.zlib)),
                     Run(Play.INIT, Script(actions, 0, turns, o)), Places(actions, Play.INIT.player, 0, turns, o), templates)
  {
    hide *;
    AnyBytesPlayOut(turns, templates, o);
    DeedsAreScript(actions, turns, o);
    SurvivesExactly(Deeds([], turns, o).heard);
    ActionsPanicExactly(actions, turns, o);
    DoAlive(Script(actions, 0, turns, o));
    assert [] + Sent(turns) == Sent(turns);
    VisitsArePlaces(actions, Play.INIT.player, [], turns, o);
  }

  lemma DoAlive(es: seq<Event>)
    ensures Do(Play.INIT, Heard(es, true)) == Run(Play.INIT, es)
  {
    hide Run;
  }

  /** Once everything has been sent, every action has come whole. */
  lemma {:induction false} AllWhole(actions: seq<Action>, z: Zlib)
    ensures Done(actions, |FrameAll(PacketsOf(actions), false, z)|, z) == actions
    decreases |actions|
  {
    hide Frame, PacketOf;
    if actions != [] {
      var ps := PacketsOf(actions);
      assert ps[0] == PacketOf(actions[0]) && ps[1..] == PacketsOf(actions[1..]);
      AllWhole(actions[1..], z);
      assert |FrameAll(ps, false, z)| == |Frame(ps[0], false, z)| + |FrameAll(ps[1..], false, z)|;
    }
  }

  /** Such a panic: a slot outside the inventory is carried, and an item is placed from it. However cut, it is the end. */
  lemma PlacingFromNowhere(slot: int, place: Action, turns: seq<Turn>, templates: bool, o: Outside)
    requires InRange(W32, slot) && slot % 0x1_0000 >= INVENTORY_SIZE && place.Place? && Sayable(place)
    requires Sent(turns) == FrameAll(PacketsOf([Carry(slot), place]), false, o.zlib)
    ensures PlayGame(Opening(Play.INIT, templates), [], turns, o) == None
  {
    Overreached(slot, place);
    hide *;
    AllWhole([Carry(slot), place], o.zlib);
    BytesToChunks([Carry(slot), place], turns, templates, o);
    NotPlayedOut(PlayGame(Opening(Play.INIT, templates), [], turns, o), Run(Play.INIT, Script([Carry(slot), place], 0, turns, o)),
                 Places([Carry(slot), place], Play.INIT.player, 0, turns, o), templates);
  }

  lemma Overreached(slot: int, place: Action)
    requires InRange(W32, slot) && slot % 0x1_0000 >= INVENTORY_SIZE && place.Place? && Sayable(place)
    ensures AllSayable([Carry(slot), place]) && !Harmless([Carry(slot), place])
  {
    hide Sayable, BlocksDug;
    var actions := [Carry(slot), place];
    assert Sayable(Carry(slot)) by { SayCarry(slot); }
    assert Overreaching(actions, 0) by { assert actions[1..] == [place]; }
  }

  lemma SayCarry(slot: int)
    requires InRange(W32, slot)
    ensures Sayable(Carry(slot))
  {
  }

  lemma NotPlayedOut(r: Option<(Game, seq<byte>)>, end: Option<Items>, path: seq<Views.Chunk>, templates: bool)
    requires PlaysOut(r, false, end, path, templates)
    ensures r == None
  {
  }

  // ---- a whole session ----

  function Reads(turns: seq<Turn>): seq<seq<byte>> {
    if turns == [] then []
    else (match turns[0] case Timer => [] case Read(piece) => [piece]) + Reads(turns[1..])
  }

  /** What is sent before the peer closes are the pieces read; nothing after an empty one counts. */
  lemma {:induction false} SentExactly(turns: seq<Turn>, more: seq<Turn>)
    requires Delivered(Reads(turns))
    ensures Sent(turns) == Concat(Reads(turns)) && Sent(turns + [Read([])] + more) == Concat(Reads(turns))
    decreases |turns|
  {
    var rest := [Read([])] + more;
    assert turns + [Read([])] + more == turns + rest;
    if turns == [] {
      assert turns + rest == rest && rest[0] == Read([]);
    } else {
      assert (turns + rest)[1..] == turns[1..] + [Read([])] + more && (turns + rest)[0] == turns[0];
      var first := match turns[0] case Timer => [] case Read(piece) => [piece];
      assert Reads(turns) == first + Reads(turns[1..]);
      assert forall i :: 0 <= i < |Reads(turns[1..])| ==> Reads(turns[1..])[i] == Reads(turns)[i + |first|];
      SentExactly(turns[1..], more);
      if turns[0].Read? {
        assert Reads(turns)[0] == turns[0].piece && Reads(turns)[1..] == Reads(turns[1..]);
      } else {
        assert [] + Reads(turns[1..]) == Reads(turns[1..]);
        assert [] + Sent(turns[1..]) == Sent(turns[1..]);
        assert [] + Sent(turns[1..] + [Read([])] + more) == Sent(turns[1..] + [Read([])] + more);
      }
    }
  }

  /** Entering play leaves the later pieces alone. */
  lemma {:induction false} ServeThenMore(st: Connections.State, kept: seq<byte>, pieces: seq<seq<byte>>, more: seq<seq<byte>>,
                                         env: Connections.Env, z: Zlib)
    requires Handover.Serve(st, kept, pieces, env, z).InPlay?
    ensures var end := Handover.Serve(st, kept, pieces, env, z);
            Handover.Serve(st, kept, pieces + more, env, z) == end.(later := end.later + more)
    decreases |pieces|
  {
    hide Handover.ServeBuffer;
    assert (pieces + more)[0] == pieces[0] && (pieces + more)[1..] == pieces[1..] + more;
    match Handover.ServeBuffer(st, kept + pieces[0], env, z)
    case Waits(next, left) => ServeThenMore(next, left, pieces[1..], more, env, z);
    case _ =>
  }

  lemma NothingLeft(pieces: seq<seq<byte>>, later: seq<seq<byte>>)
    requires Delivered(pieces) && |later| <= |pieces| && later == pieces[|pieces| - |later|..] && Concat(later) == []
    ensures later == []
  {
  }

  /**
   * From a client's first byte to its last: it logs in, a read ends with its acknowledgement, and from then on it plays.
   * Whatever the cuts and the ticks, it is let in under its uuid, the play loop gets every later byte, and ends up with
   * the items of its actions and the chunks of its places.
   */
  lemma WholeSession(hello: Packets.Message, login: Packets.Message, chatter: seq<Packet>, actions: seq<Action>,
                     pieces: seq<seq<byte>>, turns: seq<Turn>, templates: bool, env: Connections.Env, o: Outside)
    requires hello.Handshake? && Packets.WellFormed(hello) && hello.next == Packets.LoginState
    requires login.LoginStart? && Packets.WellFormed(login) && forall p <- chatter :: p.id != 0x03
    requires var ps := Connections.Entrance(hello, [Packet(0x00, Packets.Body(login))], chatter);
             Handover.AllFramable(ps, o.zlib) && Delivered(pieces) && Concat(pieces) == FrameAll(ps, false, o.zlib)
    requires AllSayable(actions) && Sent(turns) <= FrameAll(PacketsOf(actions), false, o.zlib)
    ensures var entry := Handover.Serve(Connections.INIT, [], pieces + Reads(turns), env, o.zlib);
            && entry.InPlay? && entry.state.playerUuid == login.uuid && entry.lost == [] && entry.later == Reads(turns)
    ensures PlaysOut(PlayGame(Opening(Play.INIT, templates), [], turns, o), Harmless(Done(actions, |Sent(turns)|, o.zlib)),
                     Run(Play.INIT, Script(actions, 0, turns, o)), Places(actions, Play.INIT.player, 0, turns, o), templates)
  {
    hide PlayGame, PlaysOut, Harmless, Run, Places;
    BytesToChunks(actions, turns, templates, o);
    LoginThenReads(hello, login, chatter, pieces, Reads(turns), env, o.zlib);
  }

  lemma LoginThenReads(hello: Packets.Message, login: Packets.Message, chatter: seq<Packet>, pieces: seq<seq<byte>>,
                       more: seq<seq<byte>>, env: Connections.Env, z: Zlib)
    requires hello.Handshake? && Packets.WellFormed(hello) && hello.next == Packets.LoginState
    requires login.LoginStart? && Packets.WellFormed(login) && forall p <- chatter :: p.id != 0x03
    requires var ps := Connections.Entrance(hello, [Packet(0x00, Packets.Body(login))], chatter);
             Handover.AllFramable(ps, z) && Delivered(pieces) && Concat(pieces) == FrameAll(ps, false, z)
    ensures var entry := Handover.Serve(Connections.INIT, [], pieces + more, env, z);
            && entry.InPlay? && entry.state.playerUuid == login.uuid && entry.lost == [] && entry.later == more
  {
    hide *;
    var ps := Connections.Entrance(hello, [Packet(0x00, Packets.Body(login))], chatter);
    assert FrameAll(ps, false, z) + [] == FrameAll(ps, false, z);
    Handover.ClientReachesPlay(hello, login, chatter, [], pieces, env, z);
    ReadsLater(Connections.INIT, pieces, more, env, z);
  }

  /** If nothing is left over when play is entered, play reads all the later pieces. */
  lemma ReadsLater(st: Connections.State, pieces: seq<seq<byte>>, more: seq<seq<byte>>, env: Connections.Env, z: Zlib)
    requires Delivered(pieces) && Handover.Serve(st, [], pieces, env, z).InPlay?
    requires var entry := Handover.Serve(st, [], pieces, env, z); entry.lost + Concat(entry.later) == []
    ensures Handover.Serve(st, [], pieces + more, env, z) == Handover.Serve(st, [], pieces, env, z).(later := more)
    ensures Handover.Serve(st, [], pieces, env, z).lost == []
  {
    hide Handover.Serve, Concat, Delivered;
    var entry := Handover.Serve(st, [], pieces, env, z);
    assert |entry.lost + Concat(entry.later)| == 0;
    Handover.LaterIsTail(st, [], pieces, env, z);
    NothingLeft(pieces, entry.later);
    ServeThenMore(st, [], pieces, more, env, z);
    assert [] + more == more;
  }

  // ---- the operations ----

  /**
   * The loop of `finish_play_start`; false if it panics. The server keeps one record of the player; here its position is
   * copied to the part that looks after the chunks.
   */
  method PlayLoop(state: ItemState, chunks: Views.ChunkState, turns: seq<Turn>, o: Outside) returns (ok: bool, kept: seq<byte>)
    requires state.Sized()
    modifies state, state.inventory, chunks
    ensures PlayGame(Game(old(state.Abs()), old(chunks.Abs())), [], turns, o)
         == if ok then Some((Game(state.Abs(), chunks.Abs()), kept)) else None
  {
    hide Step, ServeBuffer, Views.Check, Views.Viewable;
    var buf := new Bytes([]);
    for i := 0 to |turns|
      invariant state.Sized()
      invariant PlayGame(Game(old(state.Abs()), old(chunks.Abs())), [], turns, o)
             == PlayGame(Game(state.Abs(), chunks.Abs()), buf.data, turns[i..], o)
    {
      ghost var left := turns[i..];
      assert left[0] == turns[i] && left[1..] == turns[i + 1..];
      match turns[i]
      case Timer =>
        ok := state.TickPickup();
        if !ok {
          return false, [];
        }
      case Read(piece) =>
        if piece == [] {
          break;
        }
        buf.Extend(piece);
        ok := DrainPackets(state, buf, o);
        if !ok {
          return false, [];
        }
        chunks.playerX, chunks.playerZ := state.player.x, state.player.z;
        ok := chunks.CheckChunks();
        if !ok {
          return false, [];
        }
    }
    return true, buf.data;
  }
}
