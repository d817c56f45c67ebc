// Packet frames: a length, then the packet number and its body, optionally deflated.

module Frames {
  import opened Common
  import opened Buffers
  import opened VarInts
  import opened Bits

  datatype Packet = Packet(id: int, body: seq<byte>)

  /** A compressor and its decompressor, which may reject its input. */
  datatype Zlib = Zlib(deflate: seq<byte> -> seq<byte>, inflate: seq<byte> -> Option<seq<byte>>) {
    ghost predicate Inverse() {
      forall x :: inflate(deflate(x)) == Some(x)
    }
  }

  /** The bytes of `VarInt(v as i32)`. */
  function IntBytes(v: int): seq<byte> {
    Encode(Unsigned(W32, v))
  }

  function Content(p: Packet): seq<byte> {
    IntBytes(p.id) + p.body
  }

  /** What follows the length of a frame. */
  function Payload(p: Packet, compression: bool, z: Zlib): seq<byte> {
    var content := Content(p);
    if !compression then content
    else if |content| >= 256 then IntBytes(|content|) + z.deflate(content)
    else IntBytes(0) + content
  }

  function Frame(p: Packet, compression: bool, z: Zlib): seq<byte> {
    var payload := Payload(p, compression, z);
    IntBytes(|payload|) + payload
  }

  /** The first frame of some bytes, still packed: missing, too long for the address space, or there. */
  datatype Cut = Short | Overflow | Raw(used: nat, payload: seq<byte>)

  function CutFrame(s: seq<byte>): (c: Cut)
    ensures c.Raw? ==> 0 < c.used <= |s|
  {
    match Decode(W32, s)
    case Bad(_) => Short
    case Ok(length, n) =>
      if n + AsUsize(length) >= 0x1_0000_0000_0000_0000 then Overflow
      else if |s| < n + AsUsize(length) then Short
      else Raw(n + AsUsize(length), s[n..n + AsUsize(length)])
  }

  /** What a reader makes of the bytes it holds. `Crash` is a Rust panic. */
  datatype Attempt = Wait | Crash | Complete(used: nat, packet: Option<Packet>)

  /** Split a packet number off; the number of bytes skipped is the length of its shortest spelling. */
  function TakeId(s: seq<byte>): Option<Packet> {
    match Decode(W32, s)
    case Ok(id, n) =>
      Shortest(W32, s);
      EncodedLenIsLength(id);
      Some(Packet(id, s[EncodedLen(id)..]))
    case Bad(_) => None
  }

  function Unpack(raw: seq<byte>, compressed: bool, z: Zlib): Option<Packet> {
    if !compressed then TakeId(raw)
    else
      match Decode(W32, raw)
      case Bad(_) => None
      case Ok(dataLen, n) =>
        Shortest(W32, raw);
        if dataLen == 0 then TakeId(raw[n..])
        else
          match z.inflate(raw[n..])
          case None => None
          case Some(inner) => TakeId(inner)
  }

  function TryFrame(s: seq<byte>, compressed: bool, z: Zlib): (t: Attempt)
    ensures t.Complete? ==> 0 < t.used <= |s|
  {
    match CutFrame(s)
    case Short => Wait
    case Overflow => Crash
    case Raw(n, payload) => Complete(n, Unpack(payload, compressed, z))
  }

  // ---- the operations ----

  lemma Appended(a: seq<byte>, b: seq<byte>, c: seq<byte>)
    ensures [] + a + b + c == a + (b + c)
  {
    assert [] + a == a;
  }

  method ContentBytes(id: int, body: seq<byte>) returns (buf: Bytes)
    requires InRange(W32, id)
    ensures fresh(buf) && buf.data == Content(Packet(id, body))
  {
    buf := new Bytes([]);
    Write(W32, id, buf);
    buf.Extend(body);
    assert [] + IntBytes(id) == IntBytes(id);
  }

  /** The three layouts, in the order of their parts. */
  lemma Layouts(id: int, body: seq<byte>, z: Zlib)
    ensures var p, n := Packet(id, body), |IntBytes(id)| + |body|;
            && Frame(p, false, z) == IntBytes(n) + IntBytes(id) + body
            && (n < 256 ==> Frame(p, true, z) == IntBytes(1 + n) + IntBytes(0) + IntBytes(id) + body)
            && (n >= 256 ==>
                  var c := z.deflate(Content(p));
                  Frame(p, true, z) == IntBytes(|IntBytes(n)| + |c|) + IntBytes(n) + c)
  {
    assert |IntBytes(0)| == 1;
    hide IntBytes;
    var p, n := Packet(id, body), |IntBytes(id)| + |body|;
    Regroup(IntBytes(n), IntBytes(id), body);
    Regroup(IntBytes(1 + n), IntBytes(0), Content(p));
    Regroup(IntBytes(1 + n) + IntBytes(0), IntBytes(id), body);
    Regroup(IntBytes(|IntBytes(n)| + |z.deflate(Content(p))|), IntBytes(n), z.deflate(Content(p)));
  }

  lemma Regroup(a: seq<byte>, b: seq<byte>, c: seq<byte>)
    ensures a + b + c == a + (b + c)
  {
  }

  /** `frame_packet` */
  method FramePacket(id: int, body: seq<byte>, compression: bool, z: Zlib) returns (buf: Bytes)
    requires InRange(W32, id)
    ensures fresh(buf) && buf.data == Frame(Packet(id, body), compression, z)
  {
    hide Signed, Unsigned, Encode, IntBytes, Content, Payload, Frame, EncodedLen;
    assert EncodedLen(id) == |IntBytes(id)| by { LengthOfId(id); }
    Layouts(id, body, z);
    buf := new Bytes([]);
    if compression {
      var total := EncodedLen(id) + |body|;
      if total >= 256 {
        var uncompressed := ContentBytes(id, body);
        var compressed := z.deflate(uncompressed.data);
        WriteLength(|IntBytes(total)| + |compressed|, buf);
        WriteLength(total, buf);
        buf.Extend(compressed);
      } else {
        WriteLength(1 + EncodedLen(id) + |body|, buf);
        WriteLength(0, buf);
        PutId(id, buf);
        buf.Extend(body);
      }
    } else {
      WriteLength(EncodedLen(id) + |body|, buf);
      PutId(id, buf);
      buf.Extend(body);
    }
  }

  lemma LengthOfId(id: int)
    ensures EncodedLen(id) == |IntBytes(id)|
  {
    EncodedLenIsLength(id);
  }

  method PutId(id: int, buf: Bytes)
    requires InRange(W32, id)
    modifies buf
    ensures buf.data == old(buf.data) + IntBytes(id)
  {
    Write(W32, id, buf);
  }

  /** `encode_packet`, the framer of the protocol crate. */
  method EncodePacket(id: int, body: seq<byte>) returns (buf: Bytes)
    requires InRange(W32, id)
    ensures fresh(buf) && forall z :: buf.data == Frame(Packet(id, body), false, z)
  {
    EncodedLenIsLength(id);
    hide Signed, Unsigned, Encode;
    buf := new Bytes([]);
    WriteLength(EncodedLen(id) + |body|, buf);
    Write(W32, id, buf);
    buf.Extend(body);
    Appended(IntBytes(|Content(Packet(id, body))|), IntBytes(id), body);
  }

  /** `VarInt(n as i32).write` */
  method WriteLength(n: nat, buf: Bytes)
    modifies buf
    ensures buf.data == old(buf.data) + IntBytes(n)
  {
    SignedResidue(W32, n);
    Write(W32, Signed(W32, n), buf);
  }

  datatype Taken = Panicked | Nothing | Took(packet: Packet)

  /** The part both readers share: wait for a whole frame, then take it off the buffer. */
  method TakeRaw(buf: Bytes) returns (r: Cut)
    modifies buf
    ensures r == CutFrame(old(buf.data))
    ensures buf.data == if r.Raw? then old(buf.data)[r.used..] else old(buf.data)
  {
    assert Decode(W32, []) == Bad(Incomplete);
    hide Decode, AsUsize, Continued;
    if buf.data == [] {
      return Short;
    }
    var peek := buf.data;
    var lengthRead := FromBytes(W32, peek);
    if lengthRead.Bad? {
      return Short;
    }
    Shortest(W32, peek);
    var length := AsUsize(lengthRead.value);
    if lengthRead.used + length >= 0x1_0000_0000_0000_0000 {
      return Overflow;
    }
    if |peek| < lengthRead.used + length {
      return Short;
    }
    var _ := buf.SplitTo(lengthRead.used);
    var raw := buf.SplitTo(length);
    assert raw == peek[lengthRead.used..lengthRead.used + length];
    return Raw(lengthRead.used + length, raw);
  }

  /** `try_read_frame_compressed` */
  method TryReadFrameCompressed(buf: Bytes, compressed: bool, z: Zlib) returns (r: Taken)
    modifies buf
    ensures match TryFrame(old(buf.data), compressed, z)
            case Wait => r == Nothing && buf.data == old(buf.data)
            case Crash => r == Panicked
            case Complete(n, None) => r == Nothing && buf.data == old(buf.data)[n..]
            case Complete(n, Some(p)) => r == Took(p) && buf.data == old(buf.data)[n..]
  {
    hide CutFrame, Decode, TakeId;
    var frame := TakeRaw(buf);
    if frame.Short? {
      return Nothing;
    }
    if frame.Overflow? {
      return Panicked;
    }
    var raw := frame.payload;
    if !compressed {
      r := ReadId(raw);
      return;
    }
    var dataLen := FromBytes(W32, raw);
    if dataLen.Bad? {
      return Nothing;
    }
    Shortest(W32, raw);
    var inner := raw[dataLen.used..];
    if dataLen.value != 0 {
      var inflated := z.inflate(inner);
      if inflated.None? {
        return Nothing;
      }
      inner := inflated.value;
    }
    r := ReadId(inner);
  }

  method ReadId(s: seq<byte>) returns (r: Taken)
    ensures r == match TakeId(s) case None => Nothing case Some(p) => Took(p)
  {
    var body := new Bytes(s);
    var id := FromBytes(W32, s);
    if id.Bad? {
      return Nothing;
    }
    Shortest(W32, s);
    EncodedLenIsLength(id.value);
    var _ := body.SplitTo(EncodedLen(id.value));
    return Took(Packet(id.value, body.data));
  }

  datatype FrameError = BadPacketId | PanickedHere

  /** `try_read_frame`, the reader of the protocol crate: a frame without a packet number is an error, not silence. */
  method TryReadFrame(buf: Bytes, z: Zlib) returns (r: Result<Option<Packet>, FrameError>)
    modifies buf
    ensures match TryFrame(old(buf.data), false, z)
            case Wait => r == Success(None) && buf.data == old(buf.data)
            case Crash => r == Failure(PanickedHere)
            case Complete(n, None) => r == Failure(BadPacketId) && buf.data == old(buf.data)[n..]
            case Complete(n, p) => r == Success(p) && buf.data == old(buf.data)[n..]
  {
    hide CutFrame, Decode, TakeId;
    var frame := TakeRaw(buf);
    if frame.Short? {
      return Success(None);
    }
    if frame.Overflow? {
      return Failure(PanickedHere);
    }
    var taken := ReadId(frame.payload);
    match taken
    case Took(p) => r := Success(Some(p));
    case _ => r := Failure(BadPacketId);
  }

  /** Contents are deflated from 256 bytes on. */
  lemma DeflatedFrom256(p: Packet, z: Zlib)
    ensures |Content(p)| < 256 ==> Payload(p, true, z) == [0] + Content(p)
    ensures |Content(p)| == 256 ==> Payload(p, true, z) == [0x80, 0x02] + z.deflate(Content(p))
    ensures |Content(p)| > 256 ==> Payload(p, true, z) == IntBytes(|Content(p)|) + z.deflate(Content(p))
  {
    assert Encode(2) == [2] && IntBytes(256) == [0x80, 0x02];
    assert IntBytes(0) == [0];
    hide IntBytes, Content;
  }

  /** The lengths that overflow the address space are the five negative ones next to zero. */
  lemma OverflowExactly(s: seq<byte>)
    ensures CutFrame(s) == Overflow <==> Decode(W32, s).Ok? && -5 <= Decode(W32, s).value < 0
  {
    if Decode(W32, s).Ok? {
      var Ok(length, n) := Decode(W32, s);
      assert n <= 5 && InRange(W32, length) by { Shortest(W32, s); }
      if length < 0 { NegativeTakesFive(s); }
      hide Decode;
    }
  }

  lemma NegativeTakesFive(s: seq<byte>)
    requires Decode(W32, s).Ok? && Decode(W32, s).value < 0
    ensures Decode(W32, s).used == 5
  {
    var n := Decode(W32, s).used;
    Shortest(W32, s);
    if n < 5 {
      GroupsBound(s[..n]);
      GroupPlaceBelow(n);
      assert false;
    }
  }

  lemma GroupPlaceBelow(n: nat)
    requires n <= 4
    ensures Pow2(7 * n) <= 0x1000_0000
  {
    Pow2Monotone(7 * n, 28);
    Pow2Values();
  }

  // ---- one frame ----

  /** More bytes never change a decision once it is made. */
  lemma CutStable(s: seq<byte>, t: seq<byte>)
    requires CutFrame(s) != Short
    ensures CutFrame(s + t) == CutFrame(s)
  {
    DecodeStable(W32, s, t);
    var Ok(length, k) := Decode(W32, s);
    var n := k + AsUsize(length);
    if n <= |s| { assert (s + t)[k..n] == s[k..n]; }
  }

  /** Cutting a frame off only looks at the frame itself. */
  lemma CutLocal(s: seq<byte>)
    requires CutFrame(s).Raw?
    ensures CutFrame(s[..CutFrame(s).used]) == CutFrame(s)
  {
    var Ok(length, k) := Decode(W32, s);
    var n := CutFrame(s).used;
    ContinuedOfPrefix(s, n);
    assert s[..n][..k] == s[..k] && s[..n][k..n] == s[k..n];
  }

  lemma TryFrameStable(s: seq<byte>, t: seq<byte>, compressed: bool, z: Zlib)
    requires TryFrame(s, compressed, z) != Wait
    ensures TryFrame(s + t, compressed, z) == TryFrame(s, compressed, z)
  {
    hide CutFrame, Unpack;
    CutStable(s, t);
  }

  /** Whatever follows a frame may be replaced. */
  lemma FrameLocal(s: seq<byte>, t: seq<byte>, compressed: bool, z: Zlib)
    requires TryFrame(s, compressed, z).Complete?
    ensures TryFrame(s[..TryFrame(s, compressed, z).used] + t, compressed, z) == TryFrame(s, compressed, z)
  {
    hide CutFrame, Unpack;
    CutLocal(s);
    CutStable(s[..CutFrame(s).used], t);
  }

  /** What the size of a decoded number says about the last byte it was read from. */
  lemma EncodedLenOfSpelling(s: seq<byte>)
    requires Decode(W32, s).Ok?
    ensures var Ok(id, n) := Decode(W32, s);
            && 1 <= n <= 5 && n <= |s|
            && (EncodedLen(id) == n <==> IdEndsRight(s, n))
  {
    var Ok(id, n) := Decode(W32, s);
    assert n == Continued(s) + 1 && n <= 5 && n <= |s| && id == Signed(W32, Groups(s[..n]));
    assert s[n - 1] < 128;
    hide *;
    LengthOfGroups(s, n, id);
  }

  lemma LengthOfGroups(s: seq<byte>, n: nat, id: int)
    requires 1 <= n <= 5 && n <= |s| && s[n - 1] < 128 && id == Signed(W32, Groups(s[..n]))
    ensures EncodedLen(id) == n <==> IdEndsRight(s, n)
  {
    hide Groups, Signed, Unsigned, LengthOf, Pow2;
    var t, last := s[..n - 1], s[n - 1];
    assert s[..n] == t + [last] && last % 128 == last;
    var u, low := Unsigned(W32, id), Groups(t);
    assert low < Pow2(7 * (n - 1)) by { GroupsBound(t); }
    assert u == (low + Pow2(7 * (n - 1)) * last) % 0x1_0000_0000 by {
      SignedResidue(W32, Groups(s[..n]));
      GroupsAppend(t, last);
    }
    ThresholdOf(n, low, last, u);
  }

  /** The place value of the n-th group. */
  lemma GroupPlace(n: nat)
    requires 1 <= n <= 5
    ensures Pow2(7 * (n - 1))
         == if n == 1 then 1 else if n == 2 then 0x80 else if n == 3 then 0x4000 else if n == 4 then 0x20_0000 else 0x1000_0000
  {
    assert Pow2(0) == 1;
    hide Pow2;
    Pow2Values();
  }

  lemma ThresholdOf(n: nat, low: nat, last: nat, u: nat)
    requires 1 <= n <= 5 && last < 128 && low < Pow2(7 * (n - 1))
    requires u == (low + Pow2(7 * (n - 1)) * last) % 0x1_0000_0000
    ensures LengthOf(u) == n <==> n == 1 || (n < 5 && last != 0) || (n == 5 && last % 16 != 0)
  {
    var p := Pow2(7 * (n - 1));
    hide Pow2;
    GroupPlace(n);
    if n == 5 {
      DivMod(low + 0x1000_0000 * last, 0x1_0000_0000, last / 16, low + 0x1000_0000 * (last % 16));
    } else {
      Scale(last, 127, p);
      SmallMod(low + p * last, 0x1_0000_0000);
      if last > 0 { Scale(1, last, p); }
    }
  }

  /** The last byte of a number holds one of its upper bits: of the fifth byte, only four bits fit the number. */
  predicate IdEndsRight(s: seq<byte>, n: nat)
    requires 1 <= n <= |s|
  {
    n == 1 || (n < 5 && s[n - 1] != 0) || (n == 5 && s[4] % 16 != 0)
  }

  /**
   * The body of a packet starts right after the bytes its number was read from exactly if the last of them holds one of
   * the number's upper bits.
   */
  lemma BodyStartsAfterId(s: seq<byte>)
    requires Decode(W32, s).Ok?
    ensures var Ok(id, n) := Decode(W32, s);
            && 1 <= n <= |s|
            && TakeId(s).Some? && TakeId(s).value.id == id
            && (TakeId(s).value.body == s[n..] <==> IdEndsRight(s, n))
  {
    Shortest(W32, s);
    EncodedLenOfSpelling(s);
    EncodedLenIsLength(Decode(W32, s).value);
  }

  /** A number spelled with an idle byte leaves part of itself in the body. */
  lemma IdleByteLeaksIntoBody()
    ensures TakeId([0x80, 0x00]) == Some(Packet(0, [0x00]))
  {
    assert Groups([0x80, 0x00][1..]) == 0;
  }

  /** So does one whose last byte is not idle but holds only bits beyond the number. */
  lemma LostBitsLeakIntoBody()
    ensures TakeId([0x80, 0x80, 0x80, 0x80, 0x10, 0x07]) == Some(Packet(0, [0x80, 0x80, 0x80, 0x10, 0x07]))
  {
    hide Decode;
    var s: seq<byte> := [0x80, 0x80, 0x80, 0x80, 0x10, 0x07];
    assert s[1..] == [0x80, 0x80, 0x80, 0x10, 0x07];
    assert Decode(W32, s) == Ok(0, 5) by { LostBitsDecoded(s); }
  }

  lemma LostBitsDecoded(s: seq<byte>)
    requires s == [0x80, 0x80, 0x80, 0x80, 0x10, 0x07]
    ensures Decode(W32, s) == Ok(0, 5)
  {
    hide Groups, Continued, Signed;
    LastByte(0x10, []);
    FourIdle([0x10]);
    LastByte(0x10, [0x07]);
    FourIdle([0x10, 0x07]);
    assert [0x10] + [] == [0x10] && [0x10] + [0x07] == [0x10, 0x07];
    assert s == [0x80, 0x80, 0x80, 0x80] + [0x10, 0x07];
    assert s[..5] == [0x80, 0x80, 0x80, 0x80] + [0x10];
    LostBits();
  }

  lemma LostBits()
    ensures Signed(W32, 0x1_0000_0000) == 0
  {
  }

  lemma LastByte(b: byte, rest: seq<byte>)
    requires b < 0x80
    ensures Groups([b]) == b && Continued([b] + rest) == 0
  {
    assert [b][1..] == [];
  }

  lemma FourIdle(t: seq<byte>)
    ensures Groups([0x80, 0x80, 0x80, 0x80] + t) == 0x1000_0000 * Groups(t)
    ensures Continued([0x80, 0x80, 0x80, 0x80] + t) == 4 + Continued(t)
  {
    hide Groups, Continued;
    Longer(0, t);
    Longer(0, [0x80] + t);
    Longer(0, [0x80] + ([0x80] + t));
    Longer(0, [0x80] + ([0x80] + ([0x80] + t)));
    assert [0x80] + ([0x80] + ([0x80] + ([0x80] + t))) == [0x80, 0x80, 0x80, 0x80] + t;
  }

  /** One more byte in front of a spelling. */
  lemma Longer(group: nat, t: seq<byte>)
    requires group < 0x80
    ensures Groups([0x80 + group] + t) == group + 128 * Groups(t)
    ensures Continued([0x80 + group] + t) == 1 + Continued(t)
  {
    assert ([0x80 + group] + t)[1..] == t;
  }

  lemma IdRoundTrip(p: Packet)
    requires InRange(W32, p.id)
    ensures TakeId(Content(p)) == Some(p)
  {
    RoundTrip(W32, p.id, p.body);
    EncodedLenIsLength(p.id);
  }

  lemma LengthRoundTrip(n: nat, rest: seq<byte>)
    requires n < 0x8000_0000
    ensures Decode(W32, IntBytes(n) + rest) == Ok(n, |IntBytes(n)|)
  {
    RoundTrip(W32, n, rest);
  }

  /** A packet that a frame can carry: the lengths survive as an i32, the inner one at least as not zero. */
  predicate Framable(p: Packet, compression: bool, z: Zlib) {
    && InRange(W32, p.id)
    && |Payload(p, compression, z)| < 0x8000_0000
    && (compression && |Content(p)| >= 256 ==> |Content(p)| % 0x1_0000_0000 != 0)
  }

  /** What is read for a length that was written as an i32. */
  lemma WrittenLength(n: nat, rest: seq<byte>)
    ensures Decode(W32, IntBytes(n) + rest) == Ok(Signed(W32, n), |IntBytes(n)|)
    ensures Signed(W32, n) == 0 <==> n % 0x1_0000_0000 == 0
  {
    SignedResidue(W32, n);
    RoundTrip(W32, Signed(W32, n), rest);
  }

  lemma PayloadRoundTrip(p: Packet, compression: bool, z: Zlib)
    requires InRange(W32, p.id) && (compression ==> z.Inverse())
    requires compression && |Content(p)| >= 256 ==> |Content(p)| % 0x1_0000_0000 != 0
    ensures Unpack(Payload(p, compression, z), compression, z) == Some(p)
  {
    IdRoundTrip(p);
    hide TakeId, Content, Decode, Signed;
    var content := Content(p);
    if compression {
      var n := if |content| >= 256 then |content| else 0;
      var inner := if |content| >= 256 then z.deflate(content) else content;
      WrittenLength(n, inner);
      assert (IntBytes(n) + inner)[|IntBytes(n)|..] == inner;
    }
  }

  /** A content whose length is written as zero is taken for one that was not compressed. */
  lemma PayloadMistaken(p: Packet, z: Zlib)
    requires InRange(W32, p.id) && |Content(p)| >= 256 && |Content(p)| % 0x1_0000_0000 == 0
    requires |Payload(p, true, z)| < 0x8000_0000
    ensures Unpack(Payload(p, true, z), true, z) != Some(p)
  {
    var content := Content(p);
    var inner := z.deflate(content);
    assert |p.body| >= 0x8000_0000 by { UnsignedFits(W32, p.id); }
    hide Content, Decode, Signed, IntBytes;
    WrittenLength(|content|, inner);
    assert (IntBytes(|content|) + inner)[|IntBytes(|content|)|..] == inner;
    TakenIsPart(inner);
  }

  lemma TakenIsPart(s: seq<byte>)
    ensures TakeId(s).Some? ==> |s| - 5 <= |TakeId(s).value.body| <= |s|
  {
    hide Decode;
    if Decode(W32, s).Ok? {
      Shortest(W32, s);
      EncodedLenIsLength(Decode(W32, s).value);
    }
  }

  lemma FrameShape(head: seq<byte>, v: int, payload: seq<byte>, rest: seq<byte>)
    requires Decode(W32, head + (payload + rest)) == Ok(v, |head|)
    requires |head| + |payload| < 0x1_0000_0000_0000_0000 && AsUsize(v) == |payload|
    ensures CutFrame(head + (payload + rest)) == Raw(|head| + |payload|, payload)
  {
    hide Decode, AsUsize;
    assert (head + (payload + rest))[|head|..|head| + |payload|] == payload;
  }

  lemma PayloadCut(payload: seq<byte>, rest: seq<byte>)
    requires |payload| < 0x8000_0000
    ensures CutFrame(IntBytes(|payload|) + (payload + rest)) == Raw(|IntBytes(|payload|)| + |payload|, payload)
  {
    LengthRoundTrip(|payload|, payload + rest);
    UnsignedFits(W32, |payload|);
    FrameShape(IntBytes(|payload|), |payload|, payload, rest);
  }

  /** Un-framing what was framed gives the packet back, whatever comes after it. */
  lemma FrameRoundTrip(p: Packet, compression: bool, z: Zlib, rest: seq<byte>)
    requires Framable(p, compression, z) && (compression ==> z.Inverse())
    ensures TryFrame(Frame(p, compression, z) + rest, compression, z)
         == Complete(|Frame(p, compression, z)|, Some(p))
  {
    hide Payload, Unpack, Content, CutFrame, IntBytes;
    PayloadRoundTrip(p, compression, z);
    var payload := Payload(p, compression, z);
    PayloadCut(payload, rest);
    assert Frame(p, compression, z) + rest == IntBytes(|payload|) + (payload + rest);
  }

  /** Every part of a frame that stops short makes the reader wait. */
  lemma PartOfFrameWaits(p: Packet, compression: bool, z: Zlib, m: nat)
    requires Framable(p, compression, z) && (compression ==> z.Inverse())
    requires m < |Frame(p, compression, z)|
    ensures TryFrame(Frame(p, compression, z)[..m], compression, z) == Wait
  {
    hide Payload, Content, TryFrame;
    var f := Frame(p, compression, z);
    FrameRoundTrip(p, compression, z, []);
    hide Frame, Framable;
    assert f + [] == f && f[..m] + f[m..] == f;
    if TryFrame(f[..m], compression, z) != Wait {
      TryFrameStable(f[..m], f[m..], compression, z);
    }
  }

  /** A payload too long for an i32 is never cut off whole. */
  lemma LongPayloadCut(payload: seq<byte>, rest: seq<byte>)
    requires 0x8000_0000 <= |payload| <= MAX_SLICE
    ensures match CutFrame(IntBytes(|payload|) + (payload + rest))
            case Raw(n, raw) => n != |IntBytes(|payload|)| + |payload| && (|raw| < |payload| - 5 || |raw| > |payload| + 5)
            case _ => true
  {
    var head, s := IntBytes(|payload|), IntBytes(|payload|) + (payload + rest);
    var m := AsUsize(Signed(W32, |payload|));
    WrittenLength(|payload|, payload + rest);
    WrappedLength(|payload|);
    hide Decode, IntBytes, Signed, AsUsize;
    assert CutFrame(s).Raw? ==> CutFrame(s).used == |head| + m && |CutFrame(s).payload| == m;
  }

  /** Such a frame is misread; without compression, what is read is another packet. */
  lemma LongFrameMisread(p: Packet, compression: bool, z: Zlib, rest: seq<byte>)
    requires 0x8000_0000 <= |Payload(p, compression, z)| <= MAX_SLICE && InRange(W32, p.id)
    ensures match TryFrame(Frame(p, compression, z) + rest, compression, z)
            case Complete(n, q) => n != |Frame(p, compression, z)| && (!compression ==> q != Some(p))
            case _ => true
  {
    var payload := Payload(p, compression, z);
    assert !compression ==> |payload| <= 5 + |p.body| by { UnsignedFits(W32, p.id); }
    hide Payload, CutFrame, IntBytes, TakeId, Unpack, Frame, Content;
    var s := IntBytes(|payload|) + (payload + rest);
    FrameParts(p, compression, z, rest);
    LongPayloadCut(payload, rest);
    match CutFrame(s)
    case Raw(n, raw) =>
      TakenIsPart(raw);
      assert TryFrame(s, compression, z) == Complete(n, Unpack(raw, compression, z));
      PlainUnpack(raw, z);
    case _ =>
  }

  lemma FrameParts(p: Packet, compression: bool, z: Zlib, rest: seq<byte>)
    ensures var payload := Payload(p, compression, z);
            && Frame(p, compression, z) + rest == IntBytes(|payload|) + (payload + rest)
            && |Frame(p, compression, z)| == |IntBytes(|payload|)| + |payload|
  {
    hide Payload, IntBytes;
  }

  lemma PlainUnpack(raw: seq<byte>, z: Zlib)
    ensures Unpack(raw, false, z) == TakeId(raw)
  {
  }

  /** A framed packet is read back, in front of any bytes, exactly if it can be framed. */
  lemma FrameReadsBackExactly(p: Packet, compression: bool, z: Zlib, rest: seq<byte>)
    requires InRange(W32, p.id) && (compression ==> z.Inverse()) && |Payload(p, compression, z)| <= MAX_SLICE
    ensures TryFrame(Frame(p, compression, z) + rest, compression, z) == Complete(|Frame(p, compression, z)|, Some(p))
       <==> Framable(p, compression, z)
  {
    hide Payload, Content, Unpack, CutFrame, IntBytes;
    if |Payload(p, compression, z)| >= 0x8000_0000 {
      LongFrameMisread(p, compression, z, rest);
    } else if Framable(p, compression, z) {
      FrameRoundTrip(p, compression, z, rest);
    } else {
      var payload := Payload(p, compression, z);
      PayloadCut(payload, rest);
      assert Frame(p, compression, z) + rest == IntBytes(|payload|) + (payload + rest);
      PayloadMistaken(p, z);
    }
  }

  /** A length that does not fit an i32 comes back as something smaller or as something huge. */
  lemma WrappedLength(n: nat)
    ensures var m := AsUsize(Signed(W32, n));
            if n < 0x8000_0000 then m == n else m + 0x1_0000_0000 <= n || m >= 0xFFFF_FFFF_8000_0000
  {
  }
}
