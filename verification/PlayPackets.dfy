// The packets of the play phase as bytes: what each one does to the items, and the play loop over reads and ticks.

module PlayPackets {
  import opened Common
  import opened Buffers
  import opened VarInts
  import opened Frames
  import opened Streams
  import Handover
  import opened BlockPositions
  import opened Inventories
  import opened Pickups
  import opened Play
  import opened PlayServer

  const MOVE_PLAYER_POS := 0x1e
  const MOVE_PLAYER_POS_ROT := 0x1f
  const PLAYER_ACTION := 0x29
  const SET_CARRIED_ITEM := 0x35
  const USE_ITEM_ON := 0x42

  /** What the play phase needs from outside: the numbers that eight bytes of an f64 stand for, and a decompressor. */
  datatype Outside = Outside(number: seq<byte> -> real, zlib: Zlib)

  /** What a packet means for the items. */
  datatype Meaning = Does(event: Event) | Ignored | Panics

  /** `VarInt::read(..).unwrap_or(VarInt(0))`, and what it leaves. */
  function IntOrZero(s: seq<byte>): (int, seq<byte>) {
    match Decode(W32, s)
    case Ok(v, n) => (v, s[n..])
    case Bad(Incomplete) => (0, [])
    case Bad(TooLarge) => (0, s[5..])
  }

  function PositionOf(body: seq<byte>, o: Outside): Position
    requires |body| >= 24
  {
    Position(o.number(body[..8]), o.number(body[8..16]), o.number(body[16..24]))
  }

  /** A number, a packed position and a face. Too few bytes for the position or the face are a panic. */
  function ActionMeaning(body: seq<byte>): Meaning {
    var (action, rest) := IntOrZero(body);
    if |rest| < 9 then Panics
    else if action == 2 then Does(FinishDig(FromSigned(rest[..8])))
    else Ignored
  }

  /** A hand, a packed position, a face, three f32 and a flag. */
  function UseMeaning(body: seq<byte>): Meaning {
    var (_, rest) := IntOrZero(body);
    if |rest| < 8 || |IntOrZero(rest[8..]).1| < 13 then Panics else Does(UseItemOn)
  }

  /** `handle_sb_packet`, as far as the items are concerned. */
  function Interpret(p: Packet, o: Outside): Meaning {
    if p.id == MOVE_PLAYER_POS then if |p.body| >= 25 then Does(Move(PositionOf(p.body, o))) else Ignored
    else if p.id == MOVE_PLAYER_POS_ROT then if |p.body| >= 33 then Does(Move(PositionOf(p.body, o))) else Ignored
    else if p.id == PLAYER_ACTION then ActionMeaning(p.body)
    else if p.id == USE_ITEM_ON then UseMeaning(p.body)
    else if p.id == SET_CARRIED_ITEM then Does(SelectSlot(IntOrZero(p.body).0))
    else Ignored
  }

  function Handle(s: Items, p: Packet, o: Outside): (r: Option<Items>)
    requires |s.inventory| == INVENTORY_SIZE
    ensures r.Some? ==> |r.value.inventory| == INVENTORY_SIZE
  {
    match Interpret(p, o)
    case Does(e) => Step(s, e)
    case Ignored => Some(s)
    case Panics => None
  }

  // ---- the loop: reads of arbitrary pieces, and ticks of the timer ----

  datatype Turn = Read(piece: seq<byte>) | Timer

  /** An empty read means that the peer has closed, and ends the loop. */
  predicate Closes(turns: seq<Turn>) {
    turns == [] || turns[0] == Read([])
  }

  /** `None` is a panic. */
  type Outcome = Option<(Items, seq<byte>)>

  function EndOf(r: Outcome): Option<Items> {
    match r
    case None => None
    case Some(left) => Some(left.0)
  }

  /** `while let Some(frame) = try_read_frame_compressed(..) { handle_sb_packet(..) }` */
  function ServeBuffer(s: Items, buf: seq<byte>, o: Outside): (r: Outcome)
    requires |s.inventory| == INVENTORY_SIZE
    ensures r.Some? ==> |r.value.0.inventory| == INVENTORY_SIZE
    decreases |buf|
  {
    match TryFrame(buf, false, o.zlib)
    case Wait => Some((s, buf))
    case Crash => None
    case Complete(n, None) => Some((s, buf[n..]))
    case Complete(n, Some(p)) =>
      match Handle(s, p, o)
      case None => None
      case Some(next) => ServeBuffer(next, buf[n..], o)
  }

  function PlayOn(s: Items, kept: seq<byte>, turns: seq<Turn>, o: Outside): (r: Outcome)
    requires |s.inventory| == INVENTORY_SIZE
    ensures r.Some? ==> |r.value.0.inventory| == INVENTORY_SIZE
    decreases |turns|
  {
    if Closes(turns) then Some((s, kept))
    else
      match turns[0]
      case Timer =>
        (match Step(s, Tick)
         case None => None
         case Some(next) => PlayOn(next, kept, turns[1..], o))
      case Read(piece) =>
        (match ServeBuffer(s, kept + piece, o)
         case None => None
         case Some((next, left)) => PlayOn(next, left, turns[1..], o))
  }

  // ---- what bytes are heard as, whatever they are ----

  /** Some events; and whether the server is still alive after them, or panics on the next bytes. */
  datatype Heard = Heard(events: seq<Event>, alive: bool)

  datatype Hearing = Hearing(heard: Heard, left: seq<byte>)

  const SILENCE := Heard([], true)

  function Then(a: Heard, b: Heard): Heard {
    if a.alive then Heard(a.events + b.events, b.alive) else a
  }

  /** The events of a buffer, and what is left of it: a length that overflows and a body that is too short are panics. */
  function Hear(buf: seq<byte>, o: Outside): Hearing
    decreases |buf|
  {
    match TryFrame(buf, false, o.zlib)
    case Wait => Hearing(SILENCE, buf)
    case Crash => Hearing(Heard([], false), [])
    case Complete(n, None) => Hearing(SILENCE, buf[n..])
    case Complete(n, Some(p)) =>
      match Interpret(p, o)
      case Panics => Hearing(Heard([], false), [])
      case Ignored => Hear(buf[n..], o)
      case Does(e) =>
        var later := Hear(buf[n..], o);
        Hearing(Then(Heard([e], true), later.heard), later.left)
  }

  /** The events of a schedule of reads and ticks. */
  function Deeds(kept: seq<byte>, turns: seq<Turn>, o: Outside): Hearing
    decreases |turns|
  {
    if Closes(turns) then Hearing(SILENCE, kept)
    else
      match turns[0]
      case Timer =>
        var later := Deeds(kept, turns[1..], o);
        Hearing(Then(Heard([Tick], true), later.heard), later.left)
      case Read(piece) =>
        var now := Hear(kept + piece, o);
        var later := Deeds(now.left, turns[1..], o);
        Hearing(Then(now.heard, later.heard), later.left)
  }

  function Do(s: Items, h: Heard): (r: Option<Items>)
    requires |s.inventory| == INVENTORY_SIZE
    ensures r.Some? ==> |r.value.inventory| == INVENTORY_SIZE
  {
    if h.alive then Run(s, h.events) else None
  }

  lemma {:induction false} RunTwo(s: Items, a: seq<Event>, b: seq<Event>)
    requires |s.inventory| == INVENTORY_SIZE
    ensures Run(s, a + b) == match Run(s, a) case None => None case Some(next) => Run(next, b)
    decreases |a|
  {
    hide Step;
    if a == [] {
      assert a + b == b;
    } else {
      assert (a + b)[1..] == a[1..] + b;
      var first := Step(s, a[0]);
      if first.Some? { RunTwo(first.value, a[1..], b); }
    }
  }

  lemma DoThen(s: Items, a: Heard, b: Heard)
    requires |s.inventory| == INVENTORY_SIZE
    ensures Do(s, Then(a, b)) == match Do(s, a) case None => None case Some(next) => Do(next, b)
  {
    hide Run;
    RunTwo(s, a.events, b.events);
  }

  lemma DoOne(s: Items, e: Event)
    requires |s.inventory| == INVENTORY_SIZE
    ensures Do(s, Heard([e], true)) == Step(s, e) && Do(s, SILENCE) == Some(s)
  {
    hide Step;
    assert [e][1..] == [];
    if Step(s, e).Some? { assert Run(Step(s, e).value, [e][1..]) == Step(s, e); }
  }

  lemma {:induction false} ServeHears(s: Items, buf: seq<byte>, o: Outside)
    requires |s.inventory| == INVENTORY_SIZE
    ensures ServeBuffer(s, buf, o)
         == match Do(s, Hear(buf, o).heard) case None => None case Some(next) => Some((next, Hear(buf, o).left))
    decreases |buf|
  {
    hide Step, TryFrame, Interpret, Do, Then;
    var frame := TryFrame(buf, false, o.zlib);
    if frame.Complete? && frame.packet.Some? {
      var p, rest := frame.packet.value, buf[frame.used..];
      match Interpret(p, o)
      case Panics => Dead(s, []);
      case Ignored => ServeHears(s, rest, o);
      case Does(e) =>
        DoOne(s, e);
        DoThen(s, Heard([e], true), Hear(rest, o).heard);
        if Step(s, e).Some? { ServeHears(Step(s, e).value, rest, o); }
    } else {
      DoOne(s, Tick);
      Dead(s, []);
    }
  }

  lemma Dead(s: Items, events: seq<Event>)
    requires |s.inventory| == INVENTORY_SIZE
    ensures Do(s, Heard(events, false)) == None
  {
  }

  /** On every sequence of bytes, cut in any way and with ticks anywhere: playing is running what is heard. */
  lemma {:induction false} PlayHears(s: Items, kept: seq<byte>, turns: seq<Turn>, o: Outside)
    requires |s.inventory| == INVENTORY_SIZE
    ensures PlayOn(s, kept, turns, o)
         == match Do(s, Deeds(kept, turns, o).heard) case None => None case Some(end) => Some((end, Deeds(kept, turns, o).left))
    decreases |turns|
  {
    hide Step, ServeBuffer, Hear, Do, Then;
    DoOne(s, Tick);
    if !Closes(turns) {
      match turns[0]
      case Timer =>
        DoThen(s, Heard([Tick], true), Deeds(kept, turns[1..], o).heard);
        if Step(s, Tick).Some? { PlayHears(Step(s, Tick).value, kept, turns[1..], o); }
      case Read(piece) =>
        var now := Hear(kept + piece, o);
        ServeHears(s, kept + piece, o);
        DoThen(s, now.heard, Deeds(now.left, turns[1..], o).heard);
        var next := Do(s, now.heard);
        if next.Some? { PlayHears(next.value, now.left, turns[1..], o); }
    }
  }

  /**
   * Whatever a client sends: if the server survives it, the invariants hold and every item is accounted for.
   */
  lemma AnyBytesAccounted(turns: seq<Turn>, o: Outside, itemId: int)
    requires PlayOn(INIT, [], turns, o).Some?
    ensures var end, l := PlayOn(INIT, [], turns, o).value.0, Books(INIT, Deeds([], turns, o).heard.events, itemId);
            Invariant(end) && Stock(end, itemId) == l.dug - l.used - l.lost
  {
    hide PlayOn, Run, Deeds, Books, Stock, Invariant;
    PlayHears(INIT, [], turns, o);
    NothingUnaccounted(Deeds([], turns, o).heard.events, itemId);
    InvariantReachable(Deeds([], turns, o).heard.events);
  }

  /** And it survives exactly if no bytes kill it, no item is used from outside the inventory, and the ids suffice. */
  lemma AnyBytesPanicExactly(turns: seq<Turn>, o: Outside)
    ensures var h := Deeds([], turns, o).heard;
            PlayOn(INIT, [], turns, o).Some? <==> h.alive && !Overreaches(h.events, 0) && Digs(h.events) <= MOST_DIGS
  {
    hide PlayOn, Run, Deeds, Overreaches, Digs;
    PlayHears(INIT, [], turns, o);
    PanicsExactly(Deeds([], turns, o).heard.events);
  }

  // ---- framed packets: which of them each read completes ----

  /** What packets mean, one after the other. */
  function Meant(ps: seq<Packet>, o: Outside): Heard {
    if ps == [] then SILENCE
    else
      match Interpret(ps[0], o)
      case Panics => Heard([], false)
      case Ignored => Meant(ps[1..], o)
      case Does(e) => Then(Heard([e], true), Meant(ps[1..], o))
  }

  /** How many of the first frames are complete once `n` bytes have come. */
  function Whole(ps: seq<Packet>, n: nat, z: Zlib): (k: nat)
    ensures k <= |ps|
  {
    if ps == [] || |Frame(ps[0], false, z)| > n then 0 else 1 + Whole(ps[1..], n - |Frame(ps[0], false, z)|, z)
  }

  /** Of the bytes that have come, those beyond the complete frames. */
  function Beyond(ps: seq<Packet>, n: nat, z: Zlib): (m: nat)
    ensures m <= n
  {
    if ps == [] || |Frame(ps[0], false, z)| > n then n else Beyond(ps[1..], n - |Frame(ps[0], false, z)|, z)
  }

  /** Each packet is acted on in the read that completes its frame; only the sizes of the pieces matter. */
  function Timeline(ps: seq<Packet>, kept: nat, turns: seq<Turn>, o: Outside): Heard
    decreases |turns|
  {
    if Closes(turns) then SILENCE
    else
      match turns[0]
      case Timer => Then(Heard([Tick], true), Timeline(ps, kept, turns[1..], o))
      case Read(piece) =>
        var n := kept + |piece|;
        var k := Whole(ps, n, o.zlib);
        Then(Meant(ps[..k], o), Timeline(ps[k..], Beyond(ps, n, o.zlib), turns[1..], o))
  }

  /** What is sent until the peer closes. */
  function Sent(turns: seq<Turn>): seq<byte> {
    if Closes(turns) then []
    else (match turns[0] case Timer => [] case Read(piece) => piece) + Sent(turns[1..])
  }

  /** A part of a framed stream is heard as its complete frames, and the rest is kept. */
  lemma {:induction false} HearFrames(ps: seq<Packet>, buf: seq<byte>, o: Outside)
    requires Handover.AllFramable(ps, o.zlib) && buf <= FrameAll(ps, false, o.zlib)
    ensures var h := Hear(buf, o);
            && h.heard == Meant(ps[..Whole(ps, |buf|, o.zlib)], o)
            && (h.heard.alive ==> h.left == buf[|buf| - Beyond(ps, |buf|, o.zlib)..])
    decreases |ps|
  {
    hide Interpret, TryFrame, Frame, Framable;
    var z := o.zlib;
    if ps == [] {
      EmptyWaits(false, z);
      assert buf == [] && ps[..0] == [];
    } else {
      var f, all := Frame(ps[0], false, z), FrameAll(ps, false, z);
      assert Framable(ps[0], false, z);
      if |f| > |buf| {
        Handover.FrameRead(ps[0], [], z);
        assert buf == all[..|buf|] == f[..|buf|];
        assert ps[..0] == [] && buf[0..] == buf;
      } else {
        var k := Whole(ps, |buf|, z);
        var buf' := FirstFrame(buf, f, FrameAll(ps[1..], false, z));
        Handover.FrameRead(ps[0], buf', z);
        Handover.FramableTail(ps, 1, z);
        FrameSuffix(buf, f, buf', Beyond(ps[1..], |buf'|, z));
        assert ps[..k][0] == ps[0] && ps[..k][1..] == ps[1..][..k - 1];
        hide FrameAll, Handover.AllFramable;
        HearFrames(ps[1..], buf', o);
      }
    }
  }

  lemma FirstFrame(buf: seq<byte>, f: seq<byte>, rest: seq<byte>) returns (tail: seq<byte>)
    requires |f| <= |buf| && buf <= f + rest
    ensures buf == f + tail && tail == buf[|f|..] && tail <= rest
  {
    tail := buf[|f|..];
    assert buf[..|f|] == (f + rest)[..|f|] == f;
  }

  lemma FrameSuffix(buf: seq<byte>, f: seq<byte>, rest: seq<byte>, m: nat)
    requires buf == f + rest && m <= |rest|
    ensures buf[|buf| - m..] == rest[|rest| - m..]
  {
  }

  /** Over any schedule, framed packets are heard in the reads that complete them. */
  lemma {:induction false} DeedsFollowTimeline(ps: seq<Packet>, kept: seq<byte>, turns: seq<Turn>, o: Outside)
    requires Handover.AllFramable(ps, o.zlib) && kept + Sent(turns) <= FrameAll(ps, false, o.zlib)
    ensures Deeds(kept, turns, o).heard == Timeline(ps, |kept|, turns, o)
    decreases |turns|
  {
    hide Hear, Frame, Whole, Beyond, Meant, FrameAll, Handover.AllFramable;
    var z := o.zlib;
    if !Closes(turns) {
      match turns[0]
      case Timer =>
        assert [] + Sent(turns[1..]) == Sent(turns[1..]);
        DeedsFollowTimeline(ps, kept, turns[1..], o);
      case Read(piece) =>
        var buf, later := kept + piece, Sent(turns[1..]);
        assert kept + (piece + later) == buf + later;
        FramedPart(ps, buf, later, z);
        HearFrames(ps, buf, o);
        if Hear(buf, o).heard.alive {
          var k := Whole(ps, |buf|, z);
          Handover.FramableTail(ps, k, z);
          RestIsPart(ps, buf, later, z);
          DeedsFollowTimeline(ps[k..], Hear(buf, o).left, turns[1..], o);
        }
    }
  }

  /**
   * Over any schedule of reads and ticks: however the client's framed packets are cut, each is acted on exactly once, in
   * order, in the read that completes it, and never before a tick that came earlier.
   */
  lemma PlayFollowsTimeline(s: Items, ps: seq<Packet>, kept: seq<byte>, turns: seq<Turn>, o: Outside)
    requires |s.inventory| == INVENTORY_SIZE && Handover.AllFramable(ps, o.zlib)
    requires kept + Sent(turns) <= FrameAll(ps, false, o.zlib)
    ensures EndOf(PlayOn(s, kept, turns, o)) == Do(s, Timeline(ps, |kept|, turns, o))
  {
    hide Run, PlayOn, Deeds, Timeline, FrameAll, Handover.AllFramable;
    PlayHears(s, kept, turns, o);
    DeedsFollowTimeline(ps, kept, turns, o);
  }

  lemma FramedPart(ps: seq<Packet>, buf: seq<byte>, later: seq<byte>, z: Zlib)
    requires buf + later <= FrameAll(ps, false, z)
    ensures buf <= FrameAll(ps, false, z)
  {
    assert buf == (buf + later)[..|buf|];
  }

  lemma {:induction false} RestIsPart(ps: seq<Packet>, buf: seq<byte>, later: seq<byte>, z: Zlib)
    requires buf + later <= FrameAll(ps, false, z)
    ensures buf[|buf| - Beyond(ps, |buf|, z)..] + later <= FrameAll(ps[Whole(ps, |buf|, z)..], false, z)
    decreases |ps|
  {
    hide Frame;
    if ps == [] || |Frame(ps[0], false, z)| > |buf| {
      assert ps[0..] == ps && buf[0..] == buf;
    } else {
      var f := Frame(ps[0], false, z);
      var buf', rest := buf[|f|..], FrameAll(ps[1..], false, z);
      assert FrameAll(ps, false, z) == f + rest;
      assert buf == f + buf' by { assert buf[..|f|] == (f + rest)[..|f|] == f; }
      assert buf' + later <= rest by { assert buf + later == f + (buf' + later); }
      RestIsPart(ps[1..], buf', later, z);
      FrameSuffix(buf, f, buf', Beyond(ps[1..], |buf'|, z));
      assert ps[1..][Whole(ps[1..], |buf'|, z)..] == ps[Whole(ps, |buf|, z)..];
    }
  }

  // ---- what the client does is what happens ----

  /**
   * What a client can do to the items, with the parts of its packets that are not looked at; `Say` is everything else it
   * says that the items do not depend on.
   */
  datatype Action =
    | GoTo(x64: seq<byte>, y64: seq<byte>, z64: seq<byte>, flags: byte)
    | GoAndTurn(x64: seq<byte>, y64: seq<byte>, z64: seq<byte>, rotation: seq<byte>, flags: byte)
    | Dig(x: int, y: int, z: int, face: byte, sequence: int)
    | Place(hand: int, x: int, y: int, z: int, side: int, cursor: seq<byte>, inside: byte, sequence: int)
    | Carry(slot: int)
    | Say(packet: Packet)

  predicate Sayable(a: Action) {
    match a
    case GoTo(x, y, z, _) => |x| == |y| == |z| == 8
    case GoAndTurn(x, y, z, rotation, _) => |x| == |y| == |z| == |rotation| == 8
    case Dig(x, y, z, _, _) => Fits(x, y, z)
    case Place(hand, x, y, z, side, cursor, _, _) => InRange(W32, hand) && Fits(x, y, z) && InRange(W32, side) && |cursor| == 12
    case Carry(slot) => InRange(W32, slot)
    case Say(p) => Idle(p) && InRange(W32, p.id) && |Content(p)| < 0x8000_0000
  }

  /** Packets without an effect on the items: most numbers, a move that is cut short, an action other than a finished dig. */
  predicate Idle(p: Packet) {
    if p.id == 0x1e then |p.body| < 25
    else if p.id == 0x1f then |p.body| < 33
    else if p.id == 0x29 then IntOrZero(p.body).0 != 2 && |IntOrZero(p.body).1| >= 9
    else p.id != 0x42 && p.id != 0x35
  }

  /** The packet that a client sends for an action. */
  function PacketOf(a: Action): Packet {
    match a
    case GoTo(x, y, z, flags) => Packet(0x1e, x + y + z + [flags])
    case GoAndTurn(x, y, z, rotation, flags) => Packet(0x1f, x + y + z + (rotation + [flags]))
    case Dig(x, y, z, face, sequence) =>
      Packet(0x29, IntBytes(2) + (SignedBytes(Pack(x, y, z), 8) + ([face] + IntBytes(sequence))))
    case Place(hand, x, y, z, side, cursor, inside, sequence) =>
      Packet(0x42,
             IntBytes(hand) + (SignedBytes(Pack(x, y, z), 8) + (IntBytes(side) + (cursor + [inside] + IntBytes(sequence)))))
    case Carry(slot) => Packet(0x35, IntBytes(slot))
    case Say(p) => p
  }

  function MeaningOf(a: Action, o: Outside): Meaning
    requires Sayable(a)
  {
    match a
    case GoTo(x, y, z, _) => Does(Move(Position(o.number(x), o.number(y), o.number(z))))
    case GoAndTurn(x, y, z, _, _) => Does(Move(Position(o.number(x), o.number(y), o.number(z))))
    case Dig(x, y, z, _, _) => Does(FinishDig(Pack(x, y, z)))
    case Place(_, _, _, _, _, _, _, _) => Does(UseItemOn)
    case Carry(slot) => Does(SelectSlot(slot))
    case Say(_) => Ignored
  }

  lemma IntOrZeroBack(v: int, rest: seq<byte>)
    requires InRange(W32, v)
    ensures IntOrZero(IntBytes(v) + rest) == (v, rest)
  {
    hide Decode, Encode, InRange;
    VarInts.RoundTrip(W32, v, rest);
    assert (IntBytes(v) + rest)[|IntBytes(v)|..] == rest;
  }

  lemma PackedBytesBack(x: int, y: int, z: int, rest: seq<byte>)
    requires Fits(x, y, z)
    ensures FromSigned((SignedBytes(Pack(x, y, z), 8) + rest)[..8]) == Pack(x, y, z)
    ensures (SignedBytes(Pack(x, y, z), 8) + rest)[8..] == rest
  {
    PackAsSum(x, y, z);
    hide Pack;
    Pow256Values();
    SignedBytesBack(Pack(x, y, z), 8);
    assert (SignedBytes(Pack(x, y, z), 8) + rest)[..8] == SignedBytes(Pack(x, y, z), 8);
  }

  lemma PositionBack(x: seq<byte>, y: seq<byte>, z: seq<byte>, more: seq<byte>, o: Outside)
    requires |x| == |y| == |z| == 8
    ensures PositionOf(x + y + z + more, o) == Position(o.number(x), o.number(y), o.number(z))
  {
    var body := x + y + z + more;
    assert body[..8] == x && body[8..16] == y && body[16..24] == z;
  }

  /** Every action is understood as what it is. */
  lemma Understood(a: Action, o: Outside)
    requires Sayable(a)
    ensures Interpret(PacketOf(a), o) == MeaningOf(a, o)
  {
    hide Decode, Encode, IntOrZero, IntBytes, SignedBytes, FromSigned, Pack, Fits, PositionOf;
    match a
    case GoTo(x, y, z, flags) => PositionBack(x, y, z, [flags], o);
    case GoAndTurn(x, y, z, rotation, flags) => PositionBack(x, y, z, rotation + [flags], o);
    case Dig(x, y, z, face, sequence) =>
      var rest := [face] + IntBytes(sequence);
      assert InRange(W32, 2);
      IntOrZeroBack(2, SignedBytes(Pack(x, y, z), 8) + rest);
      PackedBytesBack(x, y, z, rest);
    case Place(hand, x, y, z, side, cursor, inside, sequence) =>
      var rest := cursor + [inside] + IntBytes(sequence);
      IntOrZeroBack(hand, SignedBytes(Pack(x, y, z), 8) + (IntBytes(side) + rest));
      PackedBytesBack(x, y, z, IntBytes(side) + rest);
      IntOrZeroBack(side, rest);
    case Carry(slot) =>
      IntOrZeroBack(slot, []);
      assert IntBytes(slot) + [] == IntBytes(slot);
    case Say(_) =>
  }

  // ---- packets that are cut short ----

  lemma IntOrZeroCut(v: int, m: nat)
    requires InRange(W32, v) && m < |IntBytes(v)|
    ensures IntOrZero(IntBytes(v)[..m]) == (0, [])
  {
    hide Decode, Encode, InRange;
    VarInts.RoundTrip(W32, v, []);
    assert IntBytes(v) + [] == IntBytes(v);
    DecodePrefix(W32, IntBytes(v), m);
  }

  /** Five bytes that each announce another one are skipped, and stand for zero. */
  lemma IntOrZeroLong(s: seq<byte>)
    requires |s| >= 5 && forall i :: 0 <= i < 5 ==> s[i] >= 128
    ensures IntOrZero(s) == (0, s[5..])
  {
    if Continued(s) < 5 { assert false; }
  }

  /** How much of an action's packet must have been sent for it to be read without a panic. */
  function LeastBody(a: Action): nat
    requires Sayable(a)
  {
    match a
    case Dig(_, _, _, _, _) => 10
    case Place(hand, _, _, _, side, _, _, _) => |IntBytes(hand)| + 8 + |IntBytes(side)| + 13
    case _ => 0
  }

  /**
   * The packet of an action, cut short inside its frame: a move is ignored and a slot taken for zero; a dig or a place
   * makes the server panic, unless only the number at its end is missing.
   */
  lemma CutActions(a: Action, m: nat, o: Outside)
    requires Sayable(a) && !a.Say? && m < |PacketOf(a).body|
    ensures Interpret(Packet(PacketOf(a).id, PacketOf(a).body[..m]), o)
         == if m < LeastBody(a) then Panics
            else if a.GoTo? || a.GoAndTurn? then Ignored
            else if a.Carry? then Does(SelectSlot(0))
            else MeaningOf(a, o)
  {
    hide Decode, Encode, IntOrZero, SignedBytes, FromSigned, Pack, Fits, PositionOf, IntBytes;
    match a
    case GoTo(_, _, _, _) =>
    case GoAndTurn(_, _, _, _, _) =>
    case Carry(slot) => IntOrZeroCut(slot, m);
    case Dig(x, y, z, face, sequence) => CutDig(x, y, z, face, sequence, m, o);
    case Place(_, _, _, _, _, _, _, _) => CutPlace(a, m, o);
  }

  lemma CutDig(x: int, y: int, z: int, face: byte, sequence: int, m: nat, o: Outside)
    requires Fits(x, y, z) && m < |PacketOf(Dig(x, y, z, face, sequence)).body|
    ensures ActionMeaning(PacketOf(Dig(x, y, z, face, sequence)).body[..m])
         == if m < 10 then Panics else Does(FinishDig(Pack(x, y, z)))
  {
    hide Decode, Encode, IntOrZero, SignedBytes, FromSigned, Pack, Fits;
    var pos, end := SignedBytes(Pack(x, y, z), 8), [face] + IntBytes(sequence);
    assert InRange(W32, 2) && |IntBytes(2)| == 1 by { TwoBytes(); }
    hide IntBytes;
    if m == 0 {
      IntOrZeroCut(2, 0);
      assert PacketOf(Dig(x, y, z, face, sequence)).body[..0] == IntBytes(2)[..0];
    } else {
      CutAfter(IntBytes(2), pos + end, m);
      IntOrZeroBack(2, (pos + end)[..m - 1]);
      if m >= 10 {
        CutAfter(pos, end, m - 1);
        PackedBytesBack(x, y, z, end[..m - 9]);
      }
    }
  }

  lemma TwoBytes()
    ensures InRange(W32, 2) && |IntBytes(2)| == 1
  {
  }

  lemma CutAfter(a: seq<byte>, b: seq<byte>, m: nat)
    requires |a| <= m <= |a| + |b|
    ensures (a + b)[..m] == a + b[..m - |a|]
  {
  }

  lemma CutWithin(a: seq<byte>, b: seq<byte>, m: nat)
    requires m <= |a|
    ensures (a + b)[..m] == a[..m]
  {
  }

  lemma CutPlace(a: Action, m: nat, o: Outside)
    requires Sayable(a) && a.Place? && m < |PacketOf(a).body|
    ensures UseMeaning(PacketOf(a).body[..m]) == if m < LeastBody(a) then Panics else Does(UseItemOn)
  {
    hide Decode, Encode, IntOrZero, SignedBytes, FromSigned, Pack, Fits, InRange, IntBytes;
    var hand, pos, side := IntBytes(a.hand), SignedBytes(Pack(a.x, a.y, a.z), 8), IntBytes(a.side);
    var end := a.cursor + [a.inside] + IntBytes(a.sequence);
    var n := m - |hand|;
    if n < 0 {
      CutWithin(hand, pos + (side + end), m);
      IntOrZeroCut(a.hand, m);
    } else {
      CutAfter(hand, pos + (side + end), m);
      IntOrZeroBack(a.hand, (pos + (side + end))[..n]);
      if n >= 8 {
        CutAfter(pos, side + end, n);
        assert (pos + (side + end)[..n - 8])[8..] == (side + end)[..n - 8];
        if n - 8 < |side| {
          CutWithin(side, end, n - 8);
          IntOrZeroCut(a.side, n - 8);
        } else {
          CutAfter(side, end, n - 8);
          IntOrZeroBack(a.side, end[..n - 8 - |side|]);
        }
      }
    }
  }

  /** No packet that kills nobody is left out: it means an event or it can be said. */
  lemma IdleExactly(p: Packet, o: Outside)
    ensures Idle(p) <==> Interpret(p, o) == Ignored
  {
    hide IntOrZero, PositionOf, FromSigned;
  }

  function PacketsOf(actions: seq<Action>): (ps: seq<Packet>)
    ensures |ps| == |actions|
  {
    seq(|actions|, i requires 0 <= i < |actions| => PacketOf(actions[i]))
  }

  predicate AllSayable(actions: seq<Action>) {
    forall i :: 0 <= i < |actions| ==> Sayable(actions[i])
  }

  function EventsOf(actions: seq<Action>, o: Outside): seq<Event>
    requires AllSayable(actions)
    decreases |actions|
  {
    if actions == [] then []
    else
      var m := MeaningOf(actions[0], o);
      (if m.Does? then [m.event] else []) + EventsOf(actions[1..], o)
  }

  lemma {:induction false} MeantByActions(actions: seq<Action>, o: Outside)
    requires AllSayable(actions)
    ensures Meant(PacketsOf(actions), o) == Heard(EventsOf(actions, o), true)
    decreases |actions|
  {
    hide Interpret, PacketOf, Sayable;
    if actions != [] {
      Understood(actions[0], o);
      assert PacketsOf(actions)[0] == PacketOf(actions[0]) && PacketsOf(actions)[1..] == PacketsOf(actions[1..]);
      MeantByActions(actions[1..], o);
      assert MeaningOf(actions[0], o) != Panics;
      assert [] + EventsOf(actions[1..], o) == EventsOf(actions[1..], o);
    }
  }

  /** The events of a schedule: each action in the read that completes its packet, each tick in its place. */
  function Script(actions: seq<Action>, kept: nat, turns: seq<Turn>, o: Outside): seq<Event>
    requires AllSayable(actions)
    decreases |turns|
  {
    if Closes(turns) then []
    else
      match turns[0]
      case Timer => [Tick] + Script(actions, kept, turns[1..], o)
      case Read(piece) =>
        var n := kept + |piece|;
        var k := Whole(PacketsOf(actions), n, o.zlib);
        EventsOf(actions[..k], o) + Script(actions[k..], Beyond(PacketsOf(actions), n, o.zlib), turns[1..], o)
  }

  lemma {:induction false} TimelineIsScript(actions: seq<Action>, kept: nat, turns: seq<Turn>, o: Outside)
    requires AllSayable(actions)
    ensures Timeline(PacketsOf(actions), kept, turns, o) == Heard(Script(actions, kept, turns, o), true)
    decreases |turns|
  {
    hide Sayable, PacketOf, MeaningOf, Whole, Beyond, Meant, EventsOf;
    if !Closes(turns) {
      match turns[0]
      case Timer => TimelineIsScript(actions, kept, turns[1..], o);
      case Read(piece) =>
        var n := kept + |piece|;
        var k := Whole(PacketsOf(actions), n, o.zlib);
        PacketsSplit(actions, k);
        MeantByActions(actions[..k], o);
        TimelineIsScript(actions[k..], Beyond(PacketsOf(actions), n, o.zlib), turns[1..], o);
    }
  }

  lemma PacketsSplit(actions: seq<Action>, k: nat)
    requires k <= |actions|
    ensures PacketsOf(actions)[..k] == PacketsOf(actions[..k]) && PacketsOf(actions)[k..] == PacketsOf(actions[k..])
  {
    hide PacketOf;
  }

  /** Every packet of a client's action fits a frame. */
  lemma ActionsFramable(actions: seq<Action>, z: Zlib)
    requires AllSayable(actions)
    ensures Handover.AllFramable(PacketsOf(actions), z)
  {
    forall i | 0 <= i < |actions|
      ensures Framable(PacketOf(actions[i]), false, z)
    {
      ActionFramable(actions[i], z);
    }
  }

  lemma ActionFramable(a: Action, z: Zlib)
    requires Sayable(a)
    ensures Framable(PacketOf(a), false, z)
  {
    var p := PacketOf(a);
    UnsignedFits(W32, p.id);
    UnsignedFits(W32, 2);
    match a
    case GoTo(_, _, _, _) =>
    case GoAndTurn(_, _, _, _, _) =>
    case Dig(_, _, _, _, sequence) => UnsignedFits(W32, sequence);
    case Place(hand, _, _, _, side, _, _, sequence) =>
      UnsignedFits(W32, hand);
      UnsignedFits(W32, side);
      UnsignedFits(W32, sequence);
    case Carry(slot) => UnsignedFits(W32, slot);
    case Say(_) =>
  }

  /** What is heard of a client is what it does. */
  lemma DeedsAreScript(actions: seq<Action>, turns: seq<Turn>, o: Outside)
    requires AllSayable(actions) && Sent(turns) <= FrameAll(PacketsOf(actions), false, o.zlib)
    ensures Deeds([], turns, o).heard == Heard(Script(actions, 0, turns, o), true)
  {
    hide Deeds, FrameAll, Timeline, Script, PacketsOf, Sent, AllSayable;
    ActionsFramable(actions, o.zlib);
    hide Handover.AllFramable;
    assert [] + Sent(turns) == Sent(turns);
    DeedsFollowTimeline(PacketsOf(actions), [], turns, o);
    TimelineIsScript(actions, 0, turns, o);
  }

  /**
   * From bytes to items, over any schedule of reads and ticks: a client's actions, framed and cut in any way, come to the
   * run of their events with the ticks in between. Nothing is lost, doubled or reordered, every pickup happens in its
   * place, and a panic of the server is the run's own.
   */
  lemma ActionsHappen(s: Items, actions: seq<Action>, turns: seq<Turn>, o: Outside)
    requires |s.inventory| == INVENTORY_SIZE && AllSayable(actions)
    requires Sent(turns) <= FrameAll(PacketsOf(actions), false, o.zlib)
    ensures EndOf(PlayOn(s, [], turns, o)) == Run(s, Script(actions, 0, turns, o))
  {
    hide PlayOn, Run, FrameAll, Deeds, Script, AllSayable, PacketsOf, Sent;
    DeedsAreScript(actions, turns, o);
    PlayHears(s, [], turns, o);
  }

  /** The books of a schedule from the start of play: what was dug is held, lying, used or lost. */
  lemma ActionsAccounted(actions: seq<Action>, turns: seq<Turn>, o: Outside, itemId: int)
    requires AllSayable(actions) && Sent(turns) <= FrameAll(PacketsOf(actions), false, o.zlib)
    ensures PlayOn(INIT, [], turns, o).Some? ==>
              var end, l := PlayOn(INIT, [], turns, o).value.0, Books(INIT, Script(actions, 0, turns, o), itemId);
              Invariant(end) && Stock(end, itemId) == l.dug - l.used - l.lost
  {
    hide PlayOn, FrameAll, Deeds, Script, AllSayable, PacketsOf, Sent, Books, Stock, Invariant;
    DeedsAreScript(actions, turns, o);
    if PlayOn(INIT, [], turns, o).Some? { AnyBytesAccounted(turns, o, itemId); }
  }

  // ---- which clients make the server panic ----

  /** The actions whose packets have come whole. */
  function Done(actions: seq<Action>, n: nat, z: Zlib): seq<Action> {
    actions[..Whole(PacketsOf(actions), n, z)]
  }

  /** An item is placed while the slot carried last, or `held` if none has been, lies outside the inventory. */
  predicate Overreaching(actions: seq<Action>, held: nat)
    decreases |actions|
  {
    actions != []
    && match actions[0]
       case Place(_, _, _, _, _, _, _, _) => held >= INVENTORY_SIZE || Overreaching(actions[1..], held)
       case Carry(slot) => Overreaching(actions[1..], slot % 0x1_0000)
       case _ => Overreaching(actions[1..], held)
  }

  function BlocksDug(actions: seq<Action>): nat
    decreases |actions|
  {
    if actions == [] then 0 else (if actions[0].Dig? then 1 else 0) + BlocksDug(actions[1..])
  }

  /** The client does nothing that makes the server panic. */
  predicate Harmless(actions: seq<Action>) {
    !Overreaching(actions, 0) && BlocksDug(actions) <= MOST_DIGS
  }

  function Untimed(es: seq<Event>): seq<Event>
    decreases |es|
  {
    if es == [] then [] else (if es[0].Tick? then [] else [es[0]]) + Untimed(es[1..])
  }

  lemma {:induction false} UntimedTwo(a: seq<Event>, b: seq<Event>)
    ensures Untimed(a + b) == Untimed(a) + Untimed(b)
    decreases |a|
  {
    if a == [] {
      assert a + b == b;
    } else {
      assert (a + b)[1..] == a[1..] + b;
      UntimedTwo(a[1..], b);
    }
  }

  lemma {:induction false} UntimedPanics(es: seq<Event>, held: nat)
    ensures Overreaches(Untimed(es), held) == Overreaches(es, held) && Digs(Untimed(es)) == Digs(es)
    decreases |es|
  {
    if es != [] {
      var more := Untimed(es[1..]);
      assert [] + more == more && ([es[0]] + more)[1..] == more;
      UntimedPanics(es[1..], if es[0].SelectSlot? then es[0].slot % 0x1_0000 else held);
    }
  }

  lemma {:induction false} ActionPanics(actions: seq<Action>, held: nat, o: Outside)
    requires AllSayable(actions)
    ensures Overreaches(EventsOf(actions, o), held) == Overreaching(actions, held)
    ensures Digs(EventsOf(actions, o)) == BlocksDug(actions) && Untimed(EventsOf(actions, o)) == EventsOf(actions, o)
    decreases |actions|
  {
    hide Sayable, PositionOf, Pack;
    if actions != [] {
      var m, more := MeaningOf(actions[0], o), EventsOf(actions[1..], o);
      assert [] + more == more;
      if m.Does? { assert ([m.event] + more)[0] == m.event && ([m.event] + more)[1..] == more; }
      ActionPanics(actions[1..], if actions[0].Carry? then actions[0].slot % 0x1_0000 else held, o);
    }
  }

  lemma {:induction false} EventsTwo(a: seq<Action>, b: seq<Action>, o: Outside)
    requires AllSayable(a) && AllSayable(b)
    ensures AllSayable(a + b) && EventsOf(a + b, o) == EventsOf(a, o) + EventsOf(b, o)
    decreases |a|
  {
    hide Sayable, MeaningOf;
    if a == [] {
      assert a + b == b;
    } else {
      assert (a + b)[1..] == a[1..] + b;
      EventsTwo(a[1..], b, o);
    }
  }

  lemma {:induction false} WholeMore(ps: seq<Packet>, n: nat, more: nat, z: Zlib)
    ensures var k := Whole(ps, n, z);
            Whole(ps, n + more, z) == k + Whole(ps[k..], Beyond(ps, n, z) + more, z)
    decreases |ps|
  {
    hide Frame;
    if ps == [] || |Frame(ps[0], false, z)| > n {
      assert ps[0..] == ps;
    } else {
      var rest := n - |Frame(ps[0], false, z)|;
      WholeMore(ps[1..], rest, more, z);
      assert ps[1..][Whole(ps[1..], rest, z)..] == ps[Whole(ps, n, z)..];
    }
  }

  /** Without its ticks, the script is the events of the actions done. */
  lemma {:induction false} ScriptUntimed(actions: seq<Action>, kept: nat, turns: seq<Turn>, o: Outside)
    requires AllSayable(actions) && Whole(PacketsOf(actions), kept, o.zlib) == 0
    ensures AllSayable(Done(actions, kept + |Sent(turns)|, o.zlib))
    ensures Untimed(Script(actions, kept, turns, o)) == EventsOf(Done(actions, kept + |Sent(turns)|, o.zlib), o)
    decreases |turns|
  {
    hide Sayable, PacketOf, MeaningOf, Whole, Beyond, EventsOf, Untimed;
    if Closes(turns) {
      NoEvents(o);
      assert actions[..0] == [];
    } else {
      match turns[0]
      case Timer =>
        assert |[] + Sent(turns[1..])| == |Sent(turns[1..])|;
        UntimedTwo([Tick], Script(actions, kept, turns[1..], o));
        NoEvents(o);
        ScriptUntimed(actions, kept, turns[1..], o);
      case Read(piece) =>
        var n := kept + |piece|;
        var k, m := Whole(PacketsOf(actions), n, o.zlib), Beyond(PacketsOf(actions), n, o.zlib);
        var rest := actions[k..];
        UntimedTwo(EventsOf(actions[..k], o), Script(rest, m, turns[1..], o));
        ActionPanics(actions[..k], 0, o);
        PacketsSplit(actions, k);
        WholeMore(PacketsOf(actions), n, 0, o.zlib);
        ScriptUntimed(rest, m, turns[1..], o);
        WholeMore(PacketsOf(actions), n, |Sent(turns[1..])|, o.zlib);
        var done := Done(rest, m + |Sent(turns[1..])|, o.zlib);
        EventsTwo(actions[..k], done, o);
        assert actions[..k] + done == Done(actions, n + |Sent(turns[1..])|, o.zlib);
    }
  }

  lemma NoEvents(o: Outside)
    ensures Untimed([]) == [] && Untimed([Tick]) == [] && EventsOf([], o) == []
  {
    assert [Tick][1..] == [];
  }

  /**
   * A client's session runs through exactly if the actions whose packets have come whole are harmless: nothing is placed
   * from a slot outside the inventory, and no more blocks are dug than there are entity ids.
   */
  lemma ActionsPanicExactly(actions: seq<Action>, turns: seq<Turn>, o: Outside)
    requires AllSayable(actions)
    ensures Run(INIT, Script(actions, 0, turns, o)).Some? <==> Harmless(Done(actions, |Sent(turns)|, o.zlib))
  {
    hide *;
    var es, done := Script(actions, 0, turns, o), Done(actions, |Sent(turns)|, o.zlib);
    HarmlessMeans(done);
    NothingWhole(PacketsOf(actions), o.zlib);
    ScriptUntimed(actions, 0, turns, o);
    UntimedPanics(es, 0);
    ActionPanics(done, 0, o);
    PanicsExactly(es);
  }

  lemma HarmlessMeans(actions: seq<Action>)
    ensures Harmless(actions) <==> !Overreaching(actions, 0) && BlocksDug(actions) <= MOST_DIGS
  {
    hide Overreaching, BlocksDug;
  }

  lemma NothingWhole(ps: seq<Packet>, z: Zlib)
    ensures Whole(ps, 0, z) == 0
  {
    if ps != [] {
      Handover.SomeBytes([ps[0]], z);
      assert [ps[0]][1..] == [] && FrameAll([ps[0]], false, z) == Frame(ps[0], false, z) + [];
    }
  }

  // ---- the operations ----

  method TakeIntOrZero(buf: Bytes) returns (v: int)
    modifies buf
    ensures (v, buf.data) == IntOrZero(old(buf.data))
  {
    hide Decode;
    var r := VarInts.Read(W32, buf);
    v := if r.Success? then r.value else 0;
  }

  /** The three coordinates at the front of a movement packet. */
  method TakePosition(buf: Bytes, o: Outside) returns (p: Position)
    requires |buf.data| >= 24
    modifies buf
    ensures p == PositionOf(old(buf.data), o)
  {
    ghost var s := buf.data;
    var x := buf.SplitTo(8);
    var y := buf.SplitTo(8);
    var z := buf.SplitTo(8);
    assert y == s[8..16] && z == s[16..24];
    return Position(o.number(x), o.number(y), o.number(z));
  }

  /** `handle_sb_packet`; false if it panics. */
  method HandlePacket(state: ItemState, p: Packet, o: Outside) returns (ok: bool)
    requires state.Sized()
    modifies state, state.inventory
    ensures ok == Handle(old(state.Abs()), p, o).Some?
    ensures ok ==> Some(state.Abs()) == Handle(old(state.Abs()), p, o)
  {
    hide FromSigned, IntOrZero;
    var body := new Bytes(p.body);
    ghost var s := state.Abs();
    if p.id == MOVE_PLAYER_POS || p.id == MOVE_PLAYER_POS_ROT {
      if |body.data| >= (if p.id == MOVE_PLAYER_POS then 25 else 33) {
        state.player := TakePosition(body, o);
      }
      return true;
    } else if p.id == PLAYER_ACTION {
      var action := TakeIntOrZero(body);
      if |body.data| < 8 {
        return false;
      }
      var pos := body.SplitTo(8);
      if body.data == [] {
        return false;
      }
      var face := body.GetU8();
      var _ := TakeIntOrZero(body);
      ok := true;
      if action == 2 {
        ok := state.FinishDigging(FromSigned(pos));
      }
    } else if p.id == USE_ITEM_ON {
      var hand := TakeIntOrZero(body);
      if |body.data| < 8 {
        return false;
      }
      var pos := body.SplitTo(8);
      var face := TakeIntOrZero(body);
      if |body.data| < 13 {
        return false;
      }
      var cursor := body.SplitTo(12);
      var inside := body.GetU8();
      var _ := TakeIntOrZero(body);
      ok := state.UseHeldItem();
    } else if p.id == SET_CARRIED_ITEM {
      var slot := TakeIntOrZero(body);
      state.heldSlot := slot % 0x1_0000;
      return true;
    } else {
      return true;
    }
  }

  /** The inner loop over the frames that have come whole. */
  method DrainPackets(state: ItemState, buf: Bytes, o: Outside) returns (ok: bool)
    requires state.Sized()
    modifies state, state.inventory, buf
    ensures ServeBuffer(old(state.Abs()), old(buf.data), o) == if ok then Some((state.Abs(), buf.data)) else None
  {
    hide TryFrame, Handle;
    while true
      invariant state.Sized()
      invariant ServeBuffer(old(state.Abs()), old(buf.data), o) == ServeBuffer(state.Abs(), buf.data, o)
      decreases |buf.data|
    {
      var taken := TryReadFrameCompressed(buf, false, o.zlib);
      match taken
      case Panicked => return false;
      case Nothing => return true;
      case Took(p) =>
        ok := HandlePacket(state, p, o);
        if !ok {
          return false;
        }
    }
  }
}
