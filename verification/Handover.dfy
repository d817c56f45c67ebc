// The connection loop over raw bytes, and what the play phase, which starts with a buffer of its own, gets to see.

module Handover {
  import opened Common
  import opened Buffers
  import opened Frames
  import opened Streams
  import Packets
  import opened VarInts
  import opened Connections

  /** The outcome of draining a buffer; `left` is what the buffer still held. */
  datatype Step = Waits(state: State, left: seq<byte>) | Over | Entered(state: State, left: seq<byte>)

  /** `while let Some(frame) = try_read_frame_compressed(..) { match phase .. }`, without compression. */
  function ServeBuffer(st: State, s: seq<byte>, env: Env, z: Zlib): Step
    decreases |s|
  {
    match TryFrame(s, false, z)
    case Wait => Waits(st, s)
    case Crash => Over
    case Complete(n, None) => Waits(st, s[n..])
    case Complete(n, Some(p)) =>
      match React(st, p, env)
      case Bail => Over
      case Panic => Over
      case Play(end) => Entered(end, s[n..])
      case Continue(next) => ServeBuffer(next, s[n..], env, z)
  }

  /** `lost` never reaches the play phase, which reads the `later` pieces into a new buffer. */
  datatype Service = Unfinished(state: State) | Closed | InPlay(state: State, lost: seq<byte>, later: seq<seq<byte>>)

  /** `handle_connection` over the pieces a socket delivers; an empty one means that the peer has closed. */
  function Serve(st: State, kept: seq<byte>, pieces: seq<seq<byte>>, env: Env, z: Zlib): Service
    decreases |pieces|
  {
    if pieces == [] || pieces[0] == [] then Unfinished(st)
    else
      match ServeBuffer(st, kept + pieces[0], env, z)
      case Over => Closed
      case Entered(end, left) => InPlay(end, left, pieces[1..])
      case Waits(next, left) => Serve(next, left, pieces[1..], env, z)
  }

  /** A sequence of packets of which the last, and no earlier one, enters play. */
  predicate LeadsIn(st: State, ps: seq<Packet>, env: Env) {
    Handled(st, ps, env).Playing? && Handled(st, ps, env).used == |ps|
  }

  lemma {:induction false} ServeWhole(st: State, ps: seq<Packet>, tail: seq<byte>, env: Env, z: Zlib)
    requires AllFramable(ps, z) && LeadsIn(st, ps, env)
    ensures ServeBuffer(st, FrameAll(ps, false, z) + tail, env, z) == Entered(Handled(st, ps, env).state, tail)
    decreases |ps|
  {
    hide React, TryFrame, Frame, Framable;
    var f, rest := Frame(ps[0], false, z), FrameAll(ps[1..], false, z) + tail;
    assert Framable(ps[0], false, z);
    FrameRead(ps[0], rest, z);
    assert FrameAll(ps, false, z) + tail == f + rest && (f + rest)[|f|..] == rest;
    match React(st, ps[0], env)
    case Play(_) =>
      assert ps[1..] == [];
      assert rest == tail;
    case Continue(next) => ServeWhole(next, ps[1..], tail, env, z);
  }

  predicate AllFramable(ps: seq<Packet>, z: Zlib) {
    forall i :: 0 <= i < |ps| ==> Framable(ps[i], false, z)
  }

  lemma FrameRead(p: Packet, rest: seq<byte>, z: Zlib)
    requires Framable(p, false, z)
    ensures TryFrame(Frame(p, false, z) + rest, false, z) == Complete(|Frame(p, false, z)|, Some(p))
    ensures forall m :: 0 <= m < |Frame(p, false, z)| ==> TryFrame(Frame(p, false, z)[..m], false, z) == Wait
  {
    hide TryFrame, Frame;
    FrameRoundTrip(p, false, z, rest);
    forall m | 0 <= m < |Frame(p, false, z)|
      ensures TryFrame(Frame(p, false, z)[..m], false, z) == Wait
    {
      PartOfFrameWaits(p, false, z, m);
    }
  }

  /** A buffer that ends before the last frame does: some packets are handled, the others are still to come. */
  lemma {:induction false} ServePart(st: State, ps: seq<Packet>, s: seq<byte>, env: Env, z: Zlib)
    returns (i: nat, next: State, left: seq<byte>)
    requires AllFramable(ps, z) && LeadsIn(st, ps, env)
    requires s <= FrameAll(ps, false, z) && |s| < |FrameAll(ps, false, z)|
    ensures i < |ps| && ServeBuffer(st, s, env, z) == Waits(next, left)
    ensures s + FrameAll(ps, false, z)[|s|..] == FrameAll(ps, false, z)
    ensures left + FrameAll(ps, false, z)[|s|..] == FrameAll(ps[i..], false, z)
    ensures LeadsIn(next, ps[i..], env) && Handled(next, ps[i..], env).state == Handled(st, ps, env).state
    decreases |ps|
  {
    hide React, TryFrame, Frame, Framable;
    var all, f, rest := FrameAll(ps, false, z), Frame(ps[0], false, z), FrameAll(ps[1..], false, z);
    assert Framable(ps[0], false, z);
    assert s + all[|s|..] == all;
    if |s| < |f| {
      FrameRead(ps[0], [], z);
      assert s == all[..|s|] == f[..|s|];
      i, next, left := 0, st, s;
      assert ps[0..] == ps;
    } else {
      var s' := s[|f|..];
      assert s == f + s' by { assert s[..|f|] == all[..|f|] == f; }
      FrameRead(ps[0], s', z);
      assert s' <= rest && all[|s|..] == rest[|s'|..];
      assert ps[1..] == [] ==> rest == [];
      var j;
      j, next, left := ServePart(React(st, ps[0], env).state, ps[1..], s', env, z);
      i := j + 1;
      assert ps[1..][j..] == ps[i..];
    }
  }

  lemma SomeBytes(ps: seq<Packet>, z: Zlib)
    requires ps != []
    ensures |FrameAll(ps, false, z)| > 0
  {
    hide Payload, Unsigned;
    assert |Frame(ps[0], false, z)| > 0;
  }

  /** How much has arrived with the first `k` pieces. */
  function Arrived(pieces: seq<seq<byte>>, k: nat): nat
    requires k <= |pieces|
  {
    |Concat(pieces[..k])|
  }

  lemma {:induction false} ConcatSplit(pieces: seq<seq<byte>>, k: nat)
    requires k <= |pieces|
    ensures Concat(pieces) == Concat(pieces[..k]) + Concat(pieces[k..])
  {
    if k == 0 {
      assert pieces[0..] == pieces && pieces[..0] == [];
    } else {
      ConcatSplit(pieces[1..], k - 1);
      assert pieces[1..][k - 1..] == pieces[k..] && pieces[..k][1..] == pieces[1..][..k - 1];
    }
  }

  ghost predicate SomeReadEndsAt(pieces: seq<seq<byte>>, n: nat) {
    exists k :: 0 <= k <= |pieces| && Arrived(pieces, k) == n
  }

  /** Play is entered with the piece that brings the total from `start` to `n`; what exceeds it is lost. */
  predicate HandedOver(end: Service, state: State, start: nat, n: nat, pieces: seq<seq<byte>>, after: seq<byte>) {
    && end.InPlay? && end.state == state
    && end.lost + Concat(end.later) == after
    && |end.later| < |pieces| && end.later == pieces[|pieces| - |end.later|..]
    && start + Arrived(pieces, |pieces| - |end.later| - 1) < n
  }

  /**
   * However the client's bytes are cut: the packets that lead into play do so with the piece that completes them, and
   * every byte after them is either lost with the old buffer or read by the play phase.
   */
  lemma {:induction false} NothingElseIsLost(st: State, kept: seq<byte>, ps: seq<Packet>, after: seq<byte>,
                                             pieces: seq<seq<byte>>, env: Env, z: Zlib)
    requires AllFramable(ps, z) && LeadsIn(st, ps, env) && Delivered(pieces)
    requires |kept| < |FrameAll(ps, false, z)|
    requires kept + Concat(pieces) == FrameAll(ps, false, z) + after
    ensures HandedOver(Serve(st, kept, pieces, env, z), Handled(st, ps, env).state,
                       |kept|, |FrameAll(ps, false, z)|, pieces, after)
    decreases |pieces|
  {
    assert pieces == [] ==> Concat(pieces) == [];
    hide LeadsIn, AllFramable, FrameAll, ServeBuffer, Handled, HandedOver;
    var all, state := FrameAll(ps, false, z), Handled(st, ps, env).state;
    if pieces != [] {
      var s, later := kept + pieces[0], Concat(pieces[1..]);
      assert s + later == all + after by { assert kept + (pieces[0] + later) == s + later; }
      hide Concat;
      if |s| >= |all| {
        SplitAt(s, later, all, after);
        ServeWhole(st, ps, s[|all|..], env, z);
        HandedOverNow(InPlay(state, s[|all|..], pieces[1..]), |kept|, |all|, pieces, after);
      } else {
        SplitBefore(s, later, all, after);
        var i, next, left := ServePart(st, ps, s, env, z);
        var whole := FrameAll(ps[i..], false, z);
        Rejoin(left, all[|s|..], whole, later, after);
        FramableTail(ps, i, z);
        NothingElseIsLost(next, left, ps[i..], after, pieces[1..], env, z);
        HandedOverLater(Serve(next, left, pieces[1..], env, z), state, |kept|, |all|, pieces, |left|, |whole|, after);
      }
    }
  }

  lemma HandedOverNow(end: Service, start: nat, n: nat, pieces: seq<seq<byte>>, after: seq<byte>)
    requires end.InPlay? && pieces != [] && end.later == pieces[1..] && start < n
    requires end.lost + Concat(pieces[1..]) == after
    ensures HandedOver(end, end.state, start, n, pieces, after)
  {
    assert pieces[..0] == [];
  }

  lemma HandedOverLater(end: Service, state: State, start: nat, n: nat, pieces: seq<seq<byte>>,
                        start': nat, n': nat, after: seq<byte>)
    requires pieces != [] && HandedOver(end, state, start', n', pieces[1..], after)
    requires n' - start' == n - start - |pieces[0]|
    ensures HandedOver(end, state, start, n, pieces, after)
  {
    hide Concat;
    var m := |pieces| - |end.later| - 1;
    ArrivedNext(pieces, m);
    assert pieces[1..][m..] == pieces[m + 1..];
  }

  lemma ArrivedNext(pieces: seq<seq<byte>>, m: nat)
    requires pieces != [] && 0 < m <= |pieces|
    ensures Arrived(pieces, m) == |pieces[0]| + Arrived(pieces[1..], m - 1)
  {
    assert pieces[..m][0] == pieces[0] && pieces[..m][1..] == pieces[1..][..m - 1];
  }

  lemma Rejoin(left: seq<byte>, more: seq<byte>, whole: seq<byte>, later: seq<byte>, after: seq<byte>)
    requires more != [] && left + more == whole && later == more + after
    ensures left + later == whole + after && |left| < |whole|
  {
  }

  lemma SplitAt(s: seq<byte>, later: seq<byte>, all: seq<byte>, after: seq<byte>)
    requires s + later == all + after && |s| >= |all|
    ensures s == all + s[|all|..] && s[|all|..] + later == after
  {
    assert s[..|all|] == (s + later)[..|all|] == all;
    assert s[|all|..] + later == (s + later)[|all|..] == after;
  }

  lemma SplitBefore(s: seq<byte>, later: seq<byte>, all: seq<byte>, after: seq<byte>)
    requires s + later == all + after && |s| < |all|
    ensures s <= all && later == all[|s|..] + after
  {
    assert s == (s + later)[..|s|] == all[..|s|];
    assert later == (s + later)[|s|..] == all[|s|..] + after;
  }

  lemma FramableTail(ps: seq<Packet>, i: nat, z: Zlib)
    requires i <= |ps| && AllFramable(ps, z)
    ensures AllFramable(ps[i..], z)
  {
  }

  /**
   * The play phase sees everything the client sent after the packets that lead into it exactly if some piece ended right
   * there: what arrives in the same read as the last of them is lost.
   */
  lemma PlaySeesEverythingExactly(ps: seq<Packet>, after: seq<byte>, pieces: seq<seq<byte>>, env: Env, z: Zlib)
    requires AllFramable(ps, z) && LeadsIn(INIT, ps, env)
    requires Delivered(pieces) && Concat(pieces) == FrameAll(ps, false, z) + after
    ensures var end := Serve(INIT, [], pieces, env, z);
            && end.InPlay? && end.state == Handled(INIT, ps, env).state
            && (Concat(end.later) == after
                <==> SomeReadEndsAt(pieces, |FrameAll(ps, false, z)|))
  {
    hide *;
    LeadsInPlays(INIT, ps, env);
    SomeBytes(ps, z);
    assert [] + Concat(pieces) == Concat(pieces);
    NothingElseIsLost(INIT, [], ps, after, pieces, env, z);
    var end := Serve(INIT, [], pieces, env, z);
    assert end.InPlay? && end.state == Handled(INIT, ps, env).state by {
      HandedOverEnters(end, Handled(INIT, ps, env).state, 0, |FrameAll(ps, false, z)|, pieces, after);
    }
    NothingLostExactly(end, |FrameAll(ps, false, z)|, pieces, after);
  }

  lemma LeadsInPlays(st: State, ps: seq<Packet>, env: Env)
    requires LeadsIn(st, ps, env)
    ensures ps != [] && Handled(st, ps, env).Playing?
  {
  }

  lemma HandedOverEnters(end: Service, state: State, start: nat, n: nat, pieces: seq<seq<byte>>, after: seq<byte>)
    requires HandedOver(end, state, start, n, pieces, after)
    ensures end.InPlay? && end.state == state
  {
  }

  /** Nothing is lost in handing over exactly if a piece ends there. */
  lemma NothingLostExactly(end: Service, n: nat, pieces: seq<seq<byte>>, after: seq<byte>)
    requires end.InPlay? && HandedOver(end, end.state, 0, n, pieces, after) && |Concat(pieces)| == n + |after|
    ensures Concat(end.later) == after <==> SomeReadEndsAt(pieces, n)
  {
    hide Concat;
    var m := |pieces| - |end.later|;
    assert Arrived(pieces, m) == n + |end.lost| by { ConcatSplit(pieces, m); }
    if k :| 0 <= k <= |pieces| && Arrived(pieces, k) == n {
      if k < m { ArrivedGrows(pieces, k, m - 1); }
      ArrivedGrows(pieces, m, k);
      assert end.lost == [];
    }
    if Concat(end.later) == after {
      assert end.lost == [] by { assert |end.lost + Concat(end.later)| == |after|; }
      assert Arrived(pieces, m) == n;
    }
  }

  /** What the play phase reads are the last of the pieces. */
  lemma {:induction false} LaterIsTail(st: State, kept: seq<byte>, pieces: seq<seq<byte>>, env: Env, z: Zlib)
    requires Serve(st, kept, pieces, env, z).InPlay?
    ensures var later := Serve(st, kept, pieces, env, z).later;
            |later| < |pieces| && later == pieces[|pieces| - |later|..]
    decreases |pieces|
  {
    hide ServeBuffer;
    match ServeBuffer(st, kept + pieces[0], env, z)
    case Waits(next, left) => LaterIsTail(next, left, pieces[1..], env, z);
    case _ =>
  }

  /** If everything comes in a single read, all that follows the packets that lead into play is lost. */
  lemma OneReadLosesTheRest(ps: seq<Packet>, after: seq<byte>, env: Env, z: Zlib)
    requires AllFramable(ps, z) && LeadsIn(INIT, ps, env)
    ensures Serve(INIT, [], [FrameAll(ps, false, z) + after], env, z) == InPlay(Handled(INIT, ps, env).state, after, [])
  {
    var s := FrameAll(ps, false, z) + after;
    ServeWhole(INIT, ps, after, env, z);
    SomeBytes(ps, z);
    hide ServeBuffer, Handled, LeadsIn, AllFramable, FrameAll;
    ServeOne(s, env, z);
  }

  lemma ServeOne(s: seq<byte>, env: Env, z: Zlib)
    requires s != [] && ServeBuffer(INIT, s, env, z).Entered?
    ensures var r := ServeBuffer(INIT, s, env, z);
            Serve(INIT, [], [s], env, z) == InPlay(r.state, r.left, [])
  {
    hide ServeBuffer;
    var pieces := [s];
    assert [] + s == s && pieces[1..] == [];
  }

  const HELLO := Packets.Handshake(776, [], 25565, Packets.LoginState)

  /** Such a loss happens to any bytes after the shortest way into play. */
  lemma LossyRead(after: seq<byte>, env: Env, z: Zlib)
    requires after != []
    ensures var ps := Entrance(HELLO, [], []);
            && AllFramable(ps, z) && LeadsIn(INIT, ps, env)
            && var end := Serve(INIT, [], [FrameAll(ps, false, z) + after], env, z);
               end.InPlay? && end.lost == after && Concat(end.later) != after
  {
    var ps := Entrance(HELLO, [], []);
    assert Packets.WellFormed(HELLO);
    HelloFramable(z);
    PlayWithoutLoginStart(HELLO, [], env);
    OneReadLosesTheRest(ps, after, env, z);
  }

  lemma HelloFramable(z: Zlib)
    ensures AllFramable(Entrance(HELLO, [], []), z)
  {
    var ps := Entrance(HELLO, [], []);
    assert ps == [Packet(0x00, Packets.Body(HELLO)), ACKNOWLEDGE, ACKNOWLEDGE];
    UnsignedFits(W32, 0);
    UnsignedFits(W32, 2);
    UnsignedFits(W32, 3);
    UnsignedFits(W32, 776);
    hide Encode;
    assert |Packets.Body(HELLO)| <= 17;
  }

  /**
   * A client that follows the protocol, its packets framed and cut in any way, reaches play under its own uuid with its
   * login answered and the burst sent; what it says from then on is lost or left for the play phase.
   */
  lemma ClientReachesPlay(hello: Packets.Message, login: Packets.Message, chatter: seq<Packet>, after: seq<byte>,
                          pieces: seq<seq<byte>>, env: Env, z: Zlib)
    requires hello.Handshake? && Packets.WellFormed(hello) && hello.next == Packets.LoginState
    requires login.LoginStart? && Packets.WellFormed(login) && forall p <- chatter :: p.id != 0x03
    requires var ps := Entrance(hello, [Packet(0x00, Packets.Body(login))], chatter);
             && AllFramable(ps, z) && Delivered(pieces)
             && Concat(pieces) == FrameAll(ps, false, z) + after
    ensures var end := Serve(INIT, [], pieces, env, z);
            && end.InPlay?
            && end.state == State(Config, login.uuid, 1,
                                              [LoginSuccess(login.uuid, login.name, env.rng(0)), Brand()] + Burst(env.content))
            && end.lost + Concat(end.later) == after
  {
    hide Packets.WellFormed, AllFramable, FrameAll, Serve, Handled, Concat, Burst, LoginSuccess, Brand, Packets.Body, Entrance;
    var ps := Entrance(hello, [Packet(0x00, Packets.Body(login))], chatter);
    assert ps != [] by { EntranceNotEmpty(hello, [Packet(0x00, Packets.Body(login))], chatter); }
    ClientEntersPlay(hello, login, chatter, env);
    SomeBytes(ps, z);
    assert [] + Concat(pieces) == Concat(pieces);
    NothingElseIsLost(INIT, [], ps, after, pieces, env, z);
  }

  lemma EntranceNotEmpty(hello: Packets.Message, starts: seq<Packet>, chatter: seq<Packet>)
    ensures Entrance(hello, starts, chatter) != []
  {
  }

  lemma ArrivedGrows(pieces: seq<seq<byte>>, j: nat, k: nat)
    requires j <= k <= |pieces|
    ensures Arrived(pieces, j) <= Arrived(pieces, k)
  {
    ConcatSplit(pieces[..k], j);
    assert pieces[..k][..j] == pieces[..j];
  }

  // ---- any bytes ----

  /** What is left of some bytes after `k` frames. */
  function AfterFrames(s: seq<byte>, k: nat, z: Zlib): seq<byte>
    decreases k
  {
    if k == 0 then s
    else
      match TryFrame(s, false, z)
      case Complete(n, _) => AfterFrames(s[n..], k - 1, z)
      case _ => []
  }

  /** On any bytes: serving them is taking their packets and handling these, and what stops either stops the connection. */
  lemma {:induction false} ServeExactly(st: State, s: seq<byte>, env: Env, z: Zlib)
    ensures var drained := Drain(s, false, z);
            ServeBuffer(st, s, env, z)
            == match Handled(st, drained.packets, env)
               case Ended => Over
               case Playing(end, used) => Entered(end, AfterFrames(s, used, z))
               case Waiting(end) => if drained.Crashed? then Over else Waits(end, drained.rest)
    decreases |s|
  {
    hide React, TryFrame;
    var frame := TryFrame(s, false, z);
    if frame.Complete? && frame.packet.Some? {
      var p, rest := frame.packet.value, s[frame.used..];
      var later := Drain(rest, false, z);
      assert Drain(s, false, z).packets == [p] + later.packets;
      assert ([p] + later.packets)[1..] == later.packets;
      var reaction := React(st, p, env);
      if reaction.Continue? { ServeExactly(reaction.state, rest, env, z); }
    }
  }

  lemma {:induction false} HandledTwo(st: State, a: seq<Packet>, b: seq<Packet>, env: Env)
    ensures Handled(st, a + b, env)
         == match Handled(st, a, env)
            case Waiting(end) =>
              (match Handled(end, b, env)
               case Playing(last, n) => Playing(last, |a| + n)
               case other => other)
            case other => other
    decreases |a|
  {
    hide React;
    if a == [] {
      assert a + b == b;
    } else {
      assert (a + b)[1..] == a[1..] + b && (a + b)[0] == a[0];
      match React(st, a[0], env)
      case Continue(next) => HandledTwo(next, a[1..], b, env);
      case _ =>
    }
  }

  /**
   * On any bytes, however cut: the connection is closed if the packets that are taken end it or taking them panics, play is
   * entered if they lead there, and otherwise it waits in the state they lead to.
   */
  lemma {:induction false} AnyBytesServed(st: State, kept: seq<byte>, pieces: seq<seq<byte>>, env: Env, z: Zlib)
    ensures var fed, end := Feed(kept, pieces, false, z), Serve(st, kept, pieces, env, z);
            match Handled(st, fed.packets, env)
            case Ended => end == Closed
            case Playing(last, _) => end.InPlay? && end.state == last
            case Waiting(last) => end == if fed.Crashed? then Closed else Unfinished(last)
    decreases |pieces|
  {
    hide ServeBuffer, Drain, Handled, AfterFrames;
    if pieces == [] || pieces[0] == [] {
      NothingHandled(st, env);
    } else {
      var drained := Drain(kept + pieces[0], false, z);
      ServeExactly(st, kept + pieces[0], env, z);
      if drained.Going? {
        var later := Feed(drained.rest, pieces[1..], false, z);
        HandledTwo(st, drained.packets, later.packets, env);
        match Handled(st, drained.packets, env)
        case Waiting(next) => AnyBytesServed(next, drained.rest, pieces[1..], env, z);
        case _ =>
      }
    }
  }

  lemma NothingHandled(st: State, env: Env)
    ensures Handled(st, [], env) == Waiting(st)
  {
  }

  // ---- the operations ----

  /** The inner loop of `handle_connection`. */
  method HandleFrames(conn: Connection, buf: Bytes, z: Zlib) returns (r: Step)
    modifies conn, buf
    ensures r == ServeBuffer(old(conn.Abs()), old(buf.data), conn.env, z)
    ensures r.Waits? ==> r == Waits(conn.Abs(), buf.data)
  {
    hide TryFrame, React;
    while true
      invariant ServeBuffer(old(conn.Abs()), old(buf.data), conn.env, z) == ServeBuffer(conn.Abs(), buf.data, conn.env, z)
      decreases |buf.data|
    {
      var taken := TryReadFrameCompressed(buf, false, z);
      match taken
      case Panicked => return Over;
      case Nothing => return Waits(State(conn.phase, conn.playerUuid, conn.draws, conn.sent), buf.data);
      case Took(p) =>
        var outcome := conn.Handle(p);
        match outcome
        case Bail => return Over;
        case Panic => return Over;
        case Play(end) => return Entered(end, buf.data);
        case Continue(_) =>
    }
  }

  /** The outer loop: until the peer closes, the connection fails, or play is entered. */
  method HandleConnection(conn: Connection, pieces: seq<seq<byte>>, z: Zlib) returns (end: Service)
    modifies conn
    ensures end == Serve(old(conn.Abs()), [], pieces, conn.env, z)
  {
    hide ServeBuffer;
    var buf := new Bytes([]);
    for i := 0 to |pieces|
      invariant Serve(old(conn.Abs()), [], pieces, conn.env, z) == Serve(conn.Abs(), buf.data, pieces[i..], conn.env, z)
    {
      assert pieces[i..][0] == pieces[i] && pieces[i..][1..] == pieces[i + 1..];
      if pieces[i] == [] {
        break;
      }
      buf.Extend(pieces[i]);
      var step := HandleFrames(conn, buf, z);
      match step
      case Over => return Closed;
      case Entered(state, left) => return InPlay(state, left, pieces[i + 1..]);
      case Waits(_, _) =>
    }
    return Unfinished(State(conn.phase, conn.playerUuid, conn.draws, conn.sent));
  }
}
