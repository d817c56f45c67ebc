// The read loop of a connection: bytes arrive in arbitrary pieces, and after each piece every whole frame is taken.

module Streams {
  import opened Common
  import opened Buffers
  import opened Frames

  /** What reading has come to: the packets handed over, the bytes kept, or a panic. */
  datatype Progress = Going(packets: seq<Packet>, rest: seq<byte>) | Crashed(packets: seq<Packet>)

  function Prepend(ps: seq<Packet>, r: Progress): Progress {
    match r
    case Going(qs, rest) => Going(ps + qs, rest)
    case Crashed(qs) => Crashed(ps + qs)
  }

  lemma PrependTwice(ps: seq<Packet>, qs: seq<Packet>, r: Progress)
    ensures Prepend(ps, Prepend(qs, r)) == Prepend(ps + qs, r)
    ensures Prepend([], r) == r
  {
    assert ps + (qs + r.packets) == ps + qs + r.packets;
    assert [] + r.packets == r.packets;
  }

  /** `while let Some(frame) = try_read_frame_compressed(..)`: a frame that yields no packet ends the loop too. */
  function Drain(s: seq<byte>, c: bool, z: Zlib): Progress
    decreases |s|
  {
    match TryFrame(s, c, z)
    case Wait => Going([], s)
    case Crash => Crashed([])
    case Complete(n, None) => Going([], s[n..])
    case Complete(n, Some(p)) => Prepend([p], Drain(s[n..], c, z))
  }

  /** The outer loop: each piece that arrives is appended to what is kept, then drained; an empty read ends it. */
  function Feed(kept: seq<byte>, pieces: seq<seq<byte>>, c: bool, z: Zlib): Progress
    decreases |pieces|
  {
    if pieces == [] || pieces[0] == [] then Going([], kept)
    else
      match Drain(kept + pieces[0], c, z)
      case Going(ps, rest) => Prepend(ps, Feed(rest, pieces[1..], c, z))
      case Crashed(ps) => Crashed(ps)
  }

  function Concat(pieces: seq<seq<byte>>): seq<byte> {
    if pieces == [] then [] else pieces[0] + Concat(pieces[1..])
  }

  /** The pieces a socket can deliver: an empty read means the peer has closed. */
  predicate Delivered(pieces: seq<seq<byte>>) {
    forall i :: 0 <= i < |pieces| ==> pieces[i] != []
  }

  /** A frame that yields no packet is followed by nothing the reader could act on. */
  predicate Orderly(s: seq<byte>, c: bool, z: Zlib)
    decreases |s|
  {
    match TryFrame(s, c, z)
    case Wait => true
    case Crash => true
    case Complete(n, None) => TryFrame(s[n..], c, z) == Wait
    case Complete(n, Some(_)) => Orderly(s[n..], c, z)
  }

  // ---- the operations ----

  method DrainBuffer(buf: Bytes, c: bool, z: Zlib) returns (packets: seq<Packet>, panicked: bool)
    modifies buf
    ensures Drain(old(buf.data), c, z) == if panicked then Crashed(packets) else Going(packets, buf.data)
  {
    hide TryFrame;
    ghost var s := buf.data;
    packets := [];
    PrependTwice([], [], Drain(s, c, z));
    while true
      invariant Drain(s, c, z) == Prepend(packets, Drain(buf.data, c, z))
      decreases |buf.data|
    {
      var taken := TryReadFrameCompressed(buf, c, z);
      match taken
      case Panicked =>
        return packets, true;
      case Nothing =>
        return packets, false;
      case Took(p) =>
        PrependTwice(packets, [p], Drain(buf.data, c, z));
        packets := packets + [p];
    }
  }

  /** The connection's read loop over the pieces that arrive until the peer closes. */
  method ReadLoop(pieces: seq<seq<byte>>, c: bool, z: Zlib) returns (packets: seq<Packet>, kept: seq<byte>, panicked: bool)
    ensures Feed([], pieces, c, z) == if panicked then Crashed(packets) else Going(packets, kept)
  {
    hide Drain;
    var buf := new Bytes([]);
    packets := [];
    var i := 0;
    PrependTwice([], [], Feed([], pieces, c, z));
    while i < |pieces|
      invariant 0 <= i <= |pieces|
      invariant Feed([], pieces, c, z) == Prepend(packets, Feed(buf.data, pieces[i..], c, z))
    {
      ghost var left := pieces[i..];
      assert left[0] == pieces[i] && left[1..] == pieces[i + 1..];
      if pieces[i] == [] {
        break;
      }
      buf.Extend(pieces[i]);
      ghost var before := packets;
      var taken, crash := DrainBuffer(buf, c, z);
      packets := packets + taken;
      i := i + 1;
      if crash {
        return packets, [], true;
      }
      PrependTwice(before, taken, Feed(buf.data, pieces[i..], c, z));
    }
    return packets, buf.data, false;
  }

  // ---- independence of the cuts ----

  /** Draining a beginning first and the remainder with the rest later comes to the same, if the whole is orderly. */
  lemma {:induction false} DrainInTwo(a: seq<byte>, b: seq<byte>, c: bool, z: Zlib)
    requires Orderly(a + b, c, z)
    ensures match Drain(a, c, z)
            case Crashed(_) => Drain(a + b, c, z) == Drain(a, c, z)
            case Going(ps, rest) =>
              && Drain(a + b, c, z) == Prepend(ps, Drain(rest + b, c, z))
              && Orderly(rest + b, c, z)
    decreases |a|
  {
    hide TryFrame;
    if TryFrame(a, c, z) == Wait {
      PrependTwice([], [], Drain(a + b, c, z));
    } else {
      TryFrameStable(a, b, c, z);
      if TryFrame(a, c, z).Complete? {
        var n := TryFrame(a, c, z).used;
        assert (a + b)[n..] == a[n..] + b;
        if TryFrame(a, c, z).packet.Some? {
          DrainInTwo(a[n..], b, c, z);
          match Drain(a[n..], c, z)
          case Crashed(_) =>
          case Going(ps, rest) =>
            PrependTwice([TryFrame(a, c, z).packet.value], ps, Drain(rest + b, c, z));
        }
      }
    }
  }

  lemma {:induction false} FeedIsDrain(kept: seq<byte>, pieces: seq<seq<byte>>, c: bool, z: Zlib)
    requires Delivered(pieces) && Orderly(kept + Concat(pieces), c, z)
    requires pieces == [] ==> TryFrame(kept, c, z) == Wait
    ensures Feed(kept, pieces, c, z) == Drain(kept + Concat(pieces), c, z)
    decreases |pieces|
  {
    hide TryFrame, Drain, Orderly;
    if pieces == [] {
      assert kept + Concat(pieces) == kept;
      WaitingDrain(kept, c, z);
    } else {
      var later := Concat(pieces[1..]);
      assert kept + Concat(pieces) == kept + pieces[0] + later;
      DrainInTwo(kept + pieces[0], later, c, z);
      match Drain(kept + pieces[0], c, z)
      case Crashed(_) =>
      case Going(_, rest) =>
        DrainLeavesNothing(kept + pieces[0], later, c, z);
        FeedIsDrain(rest, pieces[1..], c, z);
    }
  }

  lemma WaitingDrain(s: seq<byte>, c: bool, z: Zlib)
    requires TryFrame(s, c, z) == Wait
    ensures Drain(s, c, z) == Going([], s) && Orderly(s, c, z)
  {
  }

  /** What is kept of an orderly stream holds no further frame. */
  lemma {:induction false} DrainLeavesNothing(a: seq<byte>, b: seq<byte>, c: bool, z: Zlib)
    requires Orderly(a + b, c, z) && Drain(a, c, z).Going?
    ensures var rest := Drain(a, c, z).rest;
            TryFrame(rest, c, z) == Wait
    decreases |a|
  {
    hide TryFrame;
    if TryFrame(a, c, z) != Wait {
      TryFrameStable(a, b, c, z);
      var n := TryFrame(a, c, z).used;
      assert (a + b)[n..] == a[n..] + b;
      if TryFrame(a, c, z).packet.Some? {
        DrainLeavesNothing(a[n..], b, c, z);
      } else if TryFrame(a[n..], c, z) != Wait {
        TryFrameStable(a[n..], b, c, z);
      }
    }
  }

  /** The pieces of one cut. */
  function CutAt(s: seq<byte>, m: nat): seq<seq<byte>>
    requires m <= |s|
  {
    [s[..m], s[m..]]
  }

  lemma ConcatCut(s: seq<byte>, m: nat)
    requires m <= |s|
    ensures Concat(CutAt(s, m)) == s && Concat([s]) == s
  {
    var tail := CutAt(s, m)[1..];
    assert tail == [s[m..]] && tail[1..] == [];
    assert Concat(tail) == s[m..];
    assert [s][1..] == [];
  }

  /** In a stream that is not orderly, cutting right after the first frame without a packet changes the outcome. */
  lemma {:induction false} DisorderlyCut(s: seq<byte>, c: bool, z: Zlib) returns (m: nat)
    requires !Orderly(s, c, z)
    ensures 0 < m < |s|
    ensures Drain(s, c, z).Going? && Drain(s, c, z).rest == s[m..]
    ensures Drain(s[..m], c, z) == Going(Drain(s, c, z).packets, [])
    ensures TryFrame(s[m..], c, z) != Wait
    decreases |s|
  {
    hide TryFrame;
    var n := TryFrame(s, c, z).used;
    if TryFrame(s, c, z).packet.None? {
      m := n;
      assert TryFrame([], c, z) == Wait by { EmptyWaits(c, z); }
      FrameLocal(s, [], c, z);
      assert s[..n] + [] == s[..n];
    } else {
      var k := DisorderlyCut(s[n..], c, z);
      m := n + k;
      FrameLocal(s, s[n..m], c, z);
      Slices(s, n, k);
    }
  }

  lemma Slices(s: seq<byte>, n: nat, k: nat)
    requires n + k <= |s|
    ensures s[..n] + s[n..n + k] == s[..n + k]
    ensures s[..n + k][n..] == s[n..][..k]
    ensures s[n..][k..] == s[n + k..]
  {
  }

  lemma EmptyWaits(c: bool, z: Zlib)
    ensures TryFrame([], c, z) == Wait
  {
  }

  lemma {:induction false} DrainMoves(s: seq<byte>, c: bool, z: Zlib)
    requires TryFrame(s, c, z) != Wait && Drain(s, c, z).Going?
    ensures |Drain(s, c, z).rest| < |s|
    decreases |s|
  {
    hide TryFrame;
    var n := TryFrame(s, c, z).used;
    if TryFrame(s, c, z).packet.Some? && TryFrame(s[n..], c, z) != Wait {
      DrainMoves(s[n..], c, z);
    }
  }

  /** Whatever way the stream is cut, the same packets arrive and the same bytes are kept. */
  ghost predicate CutIndependent(s: seq<byte>, c: bool, z: Zlib) {
    forall pieces | Delivered(pieces) && Concat(pieces) == s :: Feed([], pieces, c, z) == Drain(s, c, z)
  }

  lemma OrderlyIsCutIndependent(s: seq<byte>, c: bool, z: Zlib)
    requires Orderly(s, c, z)
    ensures CutIndependent(s, c, z)
  {
    forall pieces | Delivered(pieces) && Concat(pieces) == s
      ensures Feed([], pieces, c, z) == Drain(s, c, z)
    {
      EmptyWaits(c, z);
      assert [] + Concat(pieces) == s;
      FeedIsDrain([], pieces, c, z);
    }
  }

  lemma DisorderlyDependsOnCuts(s: seq<byte>, c: bool, z: Zlib)
    requires !Orderly(s, c, z)
    ensures !CutIndependent(s, c, z)
  {
    var m := DisorderlyCut(s, c, z);
    hide TryFrame, Drain, Orderly, CutIndependent, Feed, Concat;
    FeedTwo(s[..m], s[m..], c, z);
    if Drain(s[m..], c, z).Going? { DrainMoves(s[m..], c, z); }
    ConcatCut(s, m);
    CutWitness(s, CutAt(s, m), c, z);
  }

  lemma FeedTwo(a: seq<byte>, b: seq<byte>, c: bool, z: Zlib)
    requires a != [] && b != [] && Drain(a, c, z).Going? && Drain(a, c, z).rest == []
    ensures Feed([], [a, b], c, z) == Prepend(Drain(a, c, z).packets, Drain(b, c, z))
  {
    hide Drain;
    var pieces := [a, b];
    assert [] + a == a && [] + b == b && pieces[1..] == [b] && [b][1..] == [];
    assert Feed([], [b], c, z) == Drain(b, c, z) by {
      assert Drain(b, c, z).packets + [] == Drain(b, c, z).packets;
    }
  }

  lemma CutWitness(s: seq<byte>, pieces: seq<seq<byte>>, c: bool, z: Zlib)
    requires Delivered(pieces) && Concat(pieces) == s && Feed([], pieces, c, z) != Drain(s, c, z)
    ensures !CutIndependent(s, c, z)
  {
  }

  /**
   * On any byte stream, and with either compression setting: the packets taken and the bytes kept do not depend on how
   * the stream is cut into reads exactly when no frame without a packet precedes another frame.
   */
  lemma CutIndependentExactly(s: seq<byte>, c: bool, z: Zlib)
    ensures CutIndependent(s, c, z) <==> Orderly(s, c, z)
  {
    if Orderly(s, c, z) { OrderlyIsCutIndependent(s, c, z); } else { DisorderlyDependsOnCuts(s, c, z); }
  }

  // ---- streams of framed packets ----

  function FrameAll(ps: seq<Packet>, c: bool, z: Zlib): seq<byte> {
    if ps == [] then [] else Frame(ps[0], c, z) + FrameAll(ps[1..], c, z)
  }

  lemma DrainFrame(p: Packet, rest: seq<byte>, c: bool, z: Zlib)
    requires (c ==> z.Inverse()) && Framable(p, c, z)
    ensures Drain(Frame(p, c, z) + rest, c, z) == Prepend([p], Drain(rest, c, z))
    ensures Orderly(Frame(p, c, z) + rest, c, z) == Orderly(rest, c, z)
  {
    FrameRoundTrip(p, c, z, rest);
    hide TryFrame, Frame, Framable;
    var f := Frame(p, c, z);
    assert (f + rest)[|f|..] == rest;
  }

  lemma {:induction false} DrainFrames(ps: seq<Packet>, tail: seq<byte>, c: bool, z: Zlib)
    requires (c ==> z.Inverse()) && forall p <- ps :: Framable(p, c, z)
    requires TryFrame(tail, c, z) == Wait
    ensures Drain(FrameAll(ps, c, z) + tail, c, z) == Going(ps, tail)
    ensures Orderly(FrameAll(ps, c, z) + tail, c, z)
  {
    hide TryFrame, Frame, Framable, Drain, Orderly;
    if ps == [] {
      assert FrameAll(ps, c, z) + tail == tail;
      WaitingDrain(tail, c, z);
    } else {
      var rest := FrameAll(ps[1..], c, z) + tail;
      assert Framable(ps[0], c, z) && forall p <- ps[1..] :: p in ps;
      DrainFrame(ps[0], rest, c, z);
      DrainFrames(ps[1..], tail, c, z);
      assert FrameAll(ps, c, z) + tail == Frame(ps[0], c, z) + rest;
      assert [ps[0]] + ps[1..] == ps;
    }
  }

  /**
   * At every moment of a stream of framed packets, however it has been cut so far: exactly the packets whose frames
   * have arrived whole are handed over, in order, and exactly the unfinished frame is kept.
   */
  lemma PacketsSurviveAnyCut(ps: seq<Packet>, next: Packet, m: nat, pieces: seq<seq<byte>>, c: bool, z: Zlib)
    requires (c ==> z.Inverse()) && Framable(next, c, z) && forall p <- ps :: Framable(p, c, z)
    requires m < |Frame(next, c, z)|
    requires Delivered(pieces) && Concat(pieces) == FrameAll(ps, c, z) + Frame(next, c, z)[..m]
    ensures Feed([], pieces, c, z) == Going(ps, Frame(next, c, z)[..m])
  {
    PartOfFrameWaits(next, c, z, m);
    hide Frame;
    DrainFrames(ps, Frame(next, c, z)[..m], c, z);
    OrderlyIsCutIndependent(Concat(pieces), c, z);
  }

  /** A plain stream of framed packets is delivered as it was sent exactly if each packet can be framed. */
  lemma {:induction false} PlainStreamExactly(ps: seq<Packet>, z: Zlib)
    requires forall p <- ps :: InRange(W32, p.id) && |Content(p)| <= MAX_SLICE
    ensures Drain(FrameAll(ps, false, z), false, z) == Going(ps, []) <==> forall p <- ps :: Framable(p, false, z)
    decreases |ps|
  {
    hide Frame, TryFrame, Framable, Orderly;
    if ps == [] {
      EmptyWaits(false, z);
    } else {
      var p, rest := ps[0], FrameAll(ps[1..], false, z);
      assert |Payload(p, false, z)| <= MAX_SLICE;
      hide Content, Payload;
      assert ps == [p] + ps[1..];
      if Framable(p, false, z) {
        DrainFrame(p, rest, false, z);
        PlainStreamExactly(ps[1..], z);
        if Drain(rest, false, z).Going? {
          assert [p] + Drain(rest, false, z).packets == [p] + ps[1..] <==> Drain(rest, false, z).packets == ps[1..] by {
            SameAfterFirst(p, Drain(rest, false, z).packets, ps[1..]);
          }
        }
      } else {
        assert |Payload(p, false, z)| >= 0x8000_0000 by { UnframablePlain(p, z); }
        LongFrameMisread(p, false, z, rest);
      }
    }
  }

  lemma UnframablePlain(p: Packet, z: Zlib)
    requires InRange(W32, p.id) && !Framable(p, false, z)
    ensures |Payload(p, false, z)| >= 0x8000_0000
  {
  }

  lemma SameAfterFirst(p: Packet, ps: seq<Packet>, qs: seq<Packet>)
    ensures [p] + ps == [p] + qs <==> ps == qs
  {
    assert ([p] + ps)[1..] == ps && ([p] + qs)[1..] == qs;
  }

  /** Not every stream is orderly: two empty frames are delivered differently in one read and in two. */
  lemma DisorderlyStream(c: bool, z: Zlib)
    ensures var one: seq<byte> := [0];
            && !Orderly(one + one, c, z)
            && Feed([], [one + one], c, z) == Going([], one) && Feed([], [one, one], c, z) == Going([], [])
  {
    var one: seq<byte> := [0];
    DrainEmptyFrame(one, c, z);
    DrainEmptyFrame([], c, z);
    EmptyFrame([], c, z);
    assert one + [] == one;
    hide Drain, TryFrame, Orderly, Feed;
    FeedOne(one + one, c, z);
    FeedTwo(one, one, c, z);
  }

  lemma DrainEmptyFrame(rest: seq<byte>, c: bool, z: Zlib)
    ensures Drain([0] + rest, c, z) == Going([], rest)
    ensures Orderly([0] + rest, c, z) <==> TryFrame(rest, c, z) == Wait
  {
    EmptyFrame(rest, c, z);
    hide TryFrame;
    assert ([0] + rest)[1..] == rest;
  }

  /** A frame of length zero is taken without yielding a packet. */
  lemma EmptyFrame(rest: seq<byte>, c: bool, z: Zlib)
    ensures TryFrame([0] + rest, c, z) == Complete(1, None)
  {
    LengthRoundTrip(0, rest);
    assert IntBytes(0) == [0];
    assert ([0] + rest)[1..1] == [];
    EmptyUnpacks(c, z);
  }

  lemma EmptyUnpacks(c: bool, z: Zlib)
    ensures Unpack([], c, z) == None
  {
  }

  lemma FeedOne(s: seq<byte>, c: bool, z: Zlib)
    requires s != []
    ensures Feed([], [s], c, z) == Drain(s, c, z)
  {
    hide Drain;
    assert [] + s == s && [s][1..] == [];
    if Drain(s, c, z).Going? { assert Drain(s, c, z).packets + [] == Drain(s, c, z).packets; }
  }
}
