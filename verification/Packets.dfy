// The packet bodies of the protocol crate: what is written, what is read, and when reading undoes writing.

module Packets {
  import opened Common
  import opened VarInts
  import opened Utf8
  import opened Frames

  /** `Panicking` stands for a Rust panic. */
  datatype PacketError =
    | BadVarInt(cause: VarIntError) | Incomplete(expected: nat, got: nat) | NotUtf8 | InvalidPacketId(id: int) | Panicking

  /** A value and the bytes left after it. */
  datatype Reading<+T> = Got(value: T, rest: seq<byte>) | Fail(error: PacketError)

  // ---- the building blocks ----

  function ReadInt(s: seq<byte>): Reading<int> {
    match Decode(W32, s)
    case Bad(e) => Fail(BadVarInt(e))
    case Ok(v, n) =>
      Shortest(W32, s);
      Got(v, s[n..])
  }

  function StringBytes(t: seq<byte>): seq<byte> {
    IntBytes(|t|) + t
  }

  function ReadString(s: seq<byte>): Reading<seq<byte>> {
    match ReadInt(s)
    case Fail(e) => Fail(e)
    case Got(n, rest) =>
      var len := AsUsize(n);
      if |rest| < len then Fail(PacketError.Incomplete(len, |rest|))
      else if !ValidUtf8(rest[..len]) then Fail(NotUtf8)
      else Got(rest[..len], rest[len..])
  }

  /** A big-endian number of `n` bytes; `short` says how its absence is reported. */
  function ReadNumber(n: nat, short: PacketError, s: seq<byte>): Reading<nat> {
    if |s| < n then Fail(short) else Got(BigEndian(s[..n]), s[n..])
  }

  predicate ShortText(t: seq<byte>) {
    |t| < 0x8000_0000 && ValidUtf8(t)
  }

  lemma IntBack(v: int, rest: seq<byte>)
    requires InRange(W32, v)
    ensures ReadInt(IntBytes(v) + rest) == Got(v, rest)
  {
    RoundTrip(W32, v, rest);
    assert (IntBytes(v) + rest)[|IntBytes(v)|..] == rest;
  }

  lemma StringBack(t: seq<byte>, rest: seq<byte>)
    requires ShortText(t)
    ensures ReadString(StringBytes(t) + rest) == Got(t, rest)
  {
    hide ReadInt, IntBytes, ValidUtf8;
    IntBack(|t|, t + rest);
    assert StringBytes(t) + rest == IntBytes(|t|) + (t + rest);
    assert (t + rest)[..|t|] == t && (t + rest)[|t|..] == rest;
  }

  /** What is written but is no UTF-8 is not read back. */
  lemma StringRejected(t: seq<byte>, rest: seq<byte>)
    requires |t| < 0x8000_0000 && !ValidUtf8(t)
    ensures ReadString(StringBytes(t) + rest) == Fail(NotUtf8)
  {
    hide ReadInt, IntBytes, ValidUtf8;
    IntBack(|t|, t + rest);
    assert StringBytes(t) + rest == IntBytes(|t|) + (t + rest);
    assert (t + rest)[..|t|] == t;
  }

  lemma NumberBack(v: nat, n: nat, short: PacketError, rest: seq<byte>)
    requires v < Pow256(n)
    ensures ReadNumber(n, short, ToBigEndian(v, n) + rest) == Got(v, rest)
  {
    hide ToBigEndian, BigEndian;
    BigEndianOfDigits(v, n);
    var s := ToBigEndian(v, n) + rest;
    assert s[..n] == ToBigEndian(v, n) && s[n..] == rest;
  }

  // ---- lists with a count in front ----

  function ManyBytes<T>(write: T -> seq<byte>, xs: seq<T>): seq<byte> {
    if xs == [] then [] else write(xs[0]) + ManyBytes(write, xs[1..])
  }

  function ReadMany<T>(read: seq<byte> -> Reading<T>, count: nat, s: seq<byte>): Reading<seq<T>>
    decreases count
  {
    if count == 0 then Got([], s)
    else
      match read(s)
      case Fail(e) => Fail(e)
      case Got(x, rest) =>
        match ReadMany(read, count - 1, rest)
        case Fail(e) => Fail(e)
        case Got(xs, end) => Got([x] + xs, end)
  }

  function ListBytes<T>(write: T -> seq<byte>, xs: seq<T>): seq<byte> {
    IntBytes(|xs|) + ManyBytes(write, xs)
  }

  /** Reserving room for a negative count panics. */
  function ReadList<T>(read: seq<byte> -> Reading<T>, s: seq<byte>): Reading<seq<T>> {
    match ReadInt(s)
    case Fail(e) => Fail(e)
    case Got(n, rest) => if n < 0 then Fail(Panicking) else ReadMany(read, n, rest)
  }

  lemma {:induction false} ManyBack<T>(write: T -> seq<byte>, read: seq<byte> -> Reading<T>, xs: seq<T>, rest: seq<byte>)
    requires forall x, tail :: x in xs ==> read(write(x) + tail) == Got(x, tail)
    ensures ReadMany(read, |xs|, ManyBytes(write, xs) + rest) == Got(xs, rest)
  {
    hide ReadMany, ManyBytes;
    ManyFirst(write, xs, rest);
    if xs == [] {
      ReadNone(read, rest);
    } else {
      var tail := ManyBytes(write, xs[1..]) + rest;
      assert xs[0] in xs && forall x <- xs[1..] :: x in xs;
      ManyBack(write, read, xs[1..], rest);
      ReadFirst(read, |xs|, write(xs[0]) + tail, xs[0], tail);
      assert [xs[0]] + xs[1..] == xs;
    }
  }

  lemma ManyFirst<T>(write: T -> seq<byte>, xs: seq<T>, rest: seq<byte>)
    ensures ManyBytes(write, xs) + rest == if xs == [] then rest else write(xs[0]) + (ManyBytes(write, xs[1..]) + rest)
  {
    if xs != [] {
      var first, more := write(xs[0]), ManyBytes(write, xs[1..]);
      assert first + more + rest == first + (more + rest);
    }
  }

  lemma ReadNone<T>(read: seq<byte> -> Reading<T>, s: seq<byte>)
    ensures ReadMany(read, 0, s) == Got([], s)
  {
  }

  lemma ReadFirst<T>(read: seq<byte> -> Reading<T>, count: nat, s: seq<byte>, x: T, rest: seq<byte>)
    requires count > 0 && read(s) == Got(x, rest)
    ensures ReadMany(read, count, s)
         == match ReadMany(read, count - 1, rest)
            case Fail(e) => Fail(e)
            case Got(xs, end) => Got([x] + xs, end)
  {
  }

  lemma ListBack<T>(write: T -> seq<byte>, read: seq<byte> -> Reading<T>, xs: seq<T>, rest: seq<byte>)
    requires |xs| < 0x8000_0000
    requires forall x, tail :: x in xs ==> read(write(x) + tail) == Got(x, tail)
    ensures ReadList(read, ListBytes(write, xs) + rest) == Got(xs, rest)
  {
    hide ReadInt, IntBytes, ReadMany, ManyBytes;
    IntBack(|xs|, ManyBytes(write, xs) + rest);
    assert ListBytes(write, xs) + rest == IntBytes(|xs|) + (ManyBytes(write, xs) + rest);
    ManyBack(write, read, xs, rest);
  }

  // ---- the packets ----

  datatype State = HandshakeState | StatusState | LoginState | ConfigurationState | PlayState

  datatype RegistryEntry = RegistryEntry(id: seq<byte>, data: Option<seq<byte>>)

  datatype KnownPack = KnownPack(space: seq<byte>, id: seq<byte>, version: seq<byte>)

  datatype Message =
    | Handshake(protocol: int, address: seq<byte>, port: nat, next: State)
    | LoginStart(name: seq<byte>, uuid: nat)
    | LoginDisconnect(reason: seq<byte>)
    | RegistryData(key: seq<byte>, entries: seq<RegistryEntry>)
    | EnabledFeatures(features: seq<seq<byte>>)
    | SelectKnownPacks(packs: seq<KnownPack>)
    | ClientInformation(locale: seq<byte>, viewDistance: int, chatMode: int, chatColors: bool, skinParts: byte,
                        mainHand: int, filtering: bool, listings: bool)

  function HandshakeValue(state: State): int {
    match state
    case StatusState => 1
    case LoginState => 2
    case _ => 0
  }

  function StateOfValue(v: int): Option<State> {
    match v
    case 1 => Some(StatusState)
    case 2 => Some(LoginState)
    case _ => None
  }

  function Flag(b: bool): byte {
    if b then 1 else 0
  }

  function EntryBytes(e: RegistryEntry): seq<byte> {
    StringBytes(e.id) + match e.data case Some(data) => [1] + data case None => [0]
  }

  /** An entry with data takes everything that is left for its data. */
  function ReadEntry(s: seq<byte>): Reading<RegistryEntry> {
    match ReadString(s)
    case Fail(e) => Fail(e)
    case Got(id, rest) =>
      if rest == [] then Fail(PacketError.Incomplete(1, 0))
      else if rest[0] != 0 then Got(RegistryEntry(id, Some(rest[1..])), [])
      else Got(RegistryEntry(id, None), rest[1..])
  }

  function PackBytes(p: KnownPack): seq<byte> {
    StringBytes(p.space) + (StringBytes(p.id) + StringBytes(p.version))
  }

  function ReadPack(s: seq<byte>): Reading<KnownPack> {
    match ReadString(s)
    case Fail(e) => Fail(e)
    case Got(space, s1) =>
      match ReadString(s1)
      case Fail(e) => Fail(e)
      case Got(id, s2) =>
        match ReadString(s2)
        case Fail(e) => Fail(e)
        case Got(version, rest) => Got(KnownPack(space, id, version), rest)
  }

  /** `Packet::ID` */
  function PacketId(m: Message): int {
    match m
    case RegistryData(_, _) => 0x07
    case EnabledFeatures(_) => 0x0c
    case SelectKnownPacks(_) => 0x0e
    case _ => 0x00
  }

  /** `Packet::write` */
  function Body(m: Message): seq<byte> {
    match m
    case Handshake(protocol, address, port, next) =>
      IntBytes(protocol) + (StringBytes(address) + (ToBigEndian(port, 2) + IntBytes(HandshakeValue(next))))
    case LoginStart(name, uuid) => StringBytes(name) + ToBigEndian(uuid, 16)
    case LoginDisconnect(reason) => StringBytes(reason)
    case RegistryData(key, entries) => StringBytes(key) + ListBytes(EntryBytes, entries)
    case EnabledFeatures(features) => ListBytes(StringBytes, features)
    case SelectKnownPacks(packs) => ListBytes(PackBytes, packs)
    case ClientInformation(locale, view, chat, colors, skin, hand, filtering, listings) =>
      StringBytes(locale) + (SignedBytes(view, 1) + (IntBytes(chat) +
        ([Flag(colors), skin] + (IntBytes(hand) + [Flag(filtering), Flag(listings)]))))
  }

  datatype Kind = KHandshake | KLoginStart | KLoginDisconnect | KRegistryData | KEnabledFeatures | KSelectKnownPacks | KClientInformation

  function KindOf(m: Message): Kind {
    match m
    case Handshake(_, _, _, _) => KHandshake
    case LoginStart(_, _) => KLoginStart
    case LoginDisconnect(_) => KLoginDisconnect
    case RegistryData(_, _) => KRegistryData
    case EnabledFeatures(_) => KEnabledFeatures
    case SelectKnownPacks(_) => KSelectKnownPacks
    case ClientInformation(_, _, _, _, _, _, _, _) => KClientInformation
  }

  function ReadHandshake(s: seq<byte>): Reading<Message> {
    match ReadInt(s)
    case Fail(e) => Fail(e)
    case Got(protocol, s1) =>
      match ReadString(s1)
      case Fail(e) => Fail(e)
      case Got(address, s2) =>
        match ReadNumber(2, PacketError.Incomplete(2, |s2|), s2)
        case Fail(e) => Fail(e)
        case Got(port, s3) =>
          match ReadInt(s3)
          case Fail(e) => Fail(e)
          case Got(value, rest) =>
            match StateOfValue(value)
            case None => Fail(InvalidPacketId(value))
            case Some(next) => Got(Handshake(protocol, address, port, next), rest)
  }

  function ReadLoginStart(s: seq<byte>): Reading<Message> {
    match ReadString(s)
    case Fail(e) => Fail(e)
    case Got(name, s1) =>
      match ReadNumber(16, PacketError.Incomplete(16, |s1|), s1)
      case Fail(e) => Fail(e)
      case Got(uuid, rest) => Got(LoginStart(name, uuid), rest)
  }

  /** The fields of one byte are read without a check. */
  function ReadClientInformation(s: seq<byte>): Reading<Message> {
    match ReadString(s)
    case Fail(e) => Fail(e)
    case Got(locale, s1) =>
      if s1 == [] then Fail(Panicking)
      else
        match ReadInt(s1[1..])
        case Fail(e) => Fail(e)
        case Got(chat, s2) =>
          if |s2| < 2 then Fail(Panicking)
          else
            match ReadInt(s2[2..])
            case Fail(e) => Fail(e)
            case Got(hand, s3) =>
              if |s3| < 2 then Fail(Panicking)
              else
                Got(ClientInformation(locale, FromSigned(s1[..1]), chat, s2[0] != 0, s2[1], hand, s3[0] != 0, s3[1] != 0), s3[2..])
  }

  /** `Packet::read` */
  function ReadBody(kind: Kind, s: seq<byte>): Reading<Message> {
    match kind
    case KHandshake => ReadHandshake(s)
    case KLoginStart => ReadLoginStart(s)
    case KLoginDisconnect =>
      (match ReadString(s)
       case Fail(e) => Fail(e)
       case Got(reason, rest) => Got(LoginDisconnect(reason), rest))
    case KRegistryData =>
      (match ReadString(s)
       case Fail(e) => Fail(e)
       case Got(key, s1) =>
         match ReadList(ReadEntry, s1)
         case Fail(e) => Fail(e)
         case Got(entries, rest) => Got(RegistryData(key, entries), rest))
    case KEnabledFeatures =>
      (match ReadList(ReadString, s)
       case Fail(e) => Fail(e)
       case Got(features, rest) => Got(EnabledFeatures(features), rest))
    case KSelectKnownPacks =>
      (match ReadList(ReadPack, s)
       case Fail(e) => Fail(e)
       case Got(packs, rest) => Got(SelectKnownPacks(packs), rest))
    case KClientInformation => ReadClientInformation(s)
  }

  // ---- when reading undoes writing ----

  /** The values the Rust types admit, with sizes that fit an i32. */
  predicate WellFormed(m: Message) {
    match m
    case Handshake(protocol, address, port, _) => InRange(W32, protocol) && ShortText(address) && port < 0x1_0000
    case LoginStart(name, uuid) => ShortText(name) && uuid < Pow256(16)
    case LoginDisconnect(reason) => ShortText(reason)
    case RegistryData(key, entries) =>
      ShortText(key) && |entries| < 0x8000_0000 && forall i :: 0 <= i < |entries| ==> ShortText(entries[i].id)
    case EnabledFeatures(features) =>
      |features| < 0x8000_0000 && forall i :: 0 <= i < |features| ==> ShortText(features[i])
    case SelectKnownPacks(packs) =>
      |packs| < 0x8000_0000 && forall i :: 0 <= i < |packs| ==> PackFits(packs[i])
    case ClientInformation(locale, view, chat, _, _, hand, _, _) =>
      ShortText(locale) && FitsBytes(view, 1) && InRange(W32, chat) && InRange(W32, hand)
  }

  predicate PackFits(p: KnownPack) {
    ShortText(p.space) && ShortText(p.id) && ShortText(p.version)
  }

  /** Where reading must fail to undo writing: states without a number, and data in front of another entry. */
  predicate Readable(m: Message) {
    match m
    case Handshake(_, _, _, next) => next == StatusState || next == LoginState
    case RegistryData(_, entries) => DataOnlyLast(entries)
    case _ => true
  }

  lemma HandshakeBack(m: Message)
    requires m.Handshake? && WellFormed(m)
    ensures ReadHandshake(Body(m))
         == if Readable(m) then Got(m, []) else Fail(InvalidPacketId(0))
  {
    hide ReadInt, ReadString, ReadNumber, IntBytes, StringBytes, ToBigEndian, ValidUtf8;
    var port, next := ToBigEndian(m.port, 2), IntBytes(HandshakeValue(m.next));
    IntBack(m.protocol, StringBytes(m.address) + (port + next));
    StringBack(m.address, port + next);
    Pow256Values();
    NumberBack(m.port, 2, PacketError.Incomplete(2, |port + next|), next);
    IntBack(HandshakeValue(m.next), []);
    assert next + [] == next;
  }

  lemma LoginStartBack(m: Message)
    requires m.LoginStart? && WellFormed(m)
    ensures ReadLoginStart(Body(m)) == Got(m, [])
  {
    hide ReadString, ReadNumber, StringBytes, ToBigEndian, ValidUtf8, Pow256;
    var uuid := ToBigEndian(m.uuid, 16);
    StringBack(m.name, uuid);
    NumberBack(m.uuid, 16, PacketError.Incomplete(16, |uuid|), []);
    assert uuid + [] == uuid;
  }

  lemma ClientInformationBack(m: Message)
    requires m.ClientInformation? && WellFormed(m)
    ensures ReadClientInformation(Body(m)) == Got(m, [])
  {
    hide ReadInt, ReadString, IntBytes, StringBytes, SignedBytes, FromSigned, ValidUtf8, FitsBytes;
    var last := [Flag(m.filtering), Flag(m.listings)];
    var s3 := IntBytes(m.mainHand) + last;
    var flags := [Flag(m.chatColors), m.skinParts];
    var s2 := IntBytes(m.chatMode) + (flags + s3);
    var view := SignedBytes(m.viewDistance, 1);
    StringBack(m.locale, view + s2);
    SignedBytesBack(m.viewDistance, 1);
    assert (view + s2)[..1] == view && (view + s2)[1..] == s2;
    IntBack(m.chatMode, flags + s3);
    assert (flags + s3)[2..] == s3;
    IntBack(m.mainHand, last);
  }

  lemma PackBack(p: KnownPack, tail: seq<byte>)
    requires PackFits(p)
    ensures ReadPack(PackBytes(p) + tail) == Got(p, tail)
  {
    hide ReadString, StringBytes, ShortText;
    var a, b, c := StringBytes(p.space), StringBytes(p.id), StringBytes(p.version);
    StringBack(p.space, b + (c + tail));
    StringBack(p.id, c + tail);
    StringBack(p.version, tail);
    assert PackBytes(p) + tail == a + (b + (c + tail));
  }

  lemma EntryBack(e: RegistryEntry, tail: seq<byte>)
    requires ShortText(e.id)
    ensures ReadEntry(EntryBytes(e) + tail)
         == match e.data
            case None => Got(e, tail)
            case Some(data) => Got(RegistryEntry(e.id, Some(data + tail)), [])
  {
    hide ReadString, StringBytes, ShortText;
    var after := match e.data case Some(data) => [1] + data case None => [0];
    StringBack(e.id, after + tail);
    assert EntryBytes(e) + tail == StringBytes(e.id) + (after + tail);
    assert e.data.Some? ==> (after + tail)[1..] == e.data.value + tail;
    assert e.data.None? ==> (after + tail)[1..] == tail;
  }

  predicate DataOnlyLast(entries: seq<RegistryEntry>) {
    forall i :: 0 <= i < |entries| - 1 ==> entries[i].data == None
  }

  /** A list of entries is read back exactly if only the last one carries data. */
  lemma {:induction false} EntriesBack(entries: seq<RegistryEntry>)
    requires forall i :: 0 <= i < |entries| ==> ShortText(entries[i].id)
    ensures ReadMany(ReadEntry, |entries|, ManyBytes(EntryBytes, entries)) == Got(entries, [])
       <==> DataOnlyLast(entries)
  {
    hide ReadEntry, EntryBytes, ShortText;
    if entries != [] {
      var e, more := entries[0], entries[1..];
      var tail := ManyBytes(EntryBytes, more);
      EntryBack(e, tail);
      EntriesBack(more);
      assert [e] + more == entries;
      if more == [] {
        assert e.data.Some? ==> e.data.value + tail == e.data.value;
      } else if e.data.Some? {
        EntriesNeedBytes(|more|);
        assert entries[0].data != None;
      } else {
        assert forall i :: 0 <= i < |more| ==> more[i] == entries[i + 1];
        assert DataOnlyLast(entries) <==> DataOnlyLast(more);
        if xs, end :| ReadMany(ReadEntry, |more|, tail) == Got(xs, end) && [e] + xs == entries {
          assert xs == ([e] + xs)[1..] == more;
        }
      }
    }
  }

  lemma EntriesNeedBytes(count: nat)
    requires count > 0
    ensures ReadMany(ReadEntry, count, []).Fail?
  {
    assert Decode(W32, []) == Bad(VarIntError.Incomplete);
  }

  lemma RegistryBack(m: Message)
    requires m.RegistryData? && WellFormed(m)
    ensures ReadBody(KRegistryData, Body(m)) == Got(m, []) <==> Readable(m)
  {
    hide ReadString, StringBytes, ReadInt, IntBytes, ReadMany, ManyBytes, ShortText;
    var body := ManyBytes(EntryBytes, m.entries);
    StringBack(m.key, ListBytes(EntryBytes, m.entries));
    IntBack(|m.entries|, body);
    EntriesBack(m.entries);
  }

  /** Every packet of the protocol crate is read back from its body exactly if it is one of the readable ones. */
  lemma ReadsBackExactly(m: Message)
    requires WellFormed(m)
    ensures ReadBody(KindOf(m), Body(m)) == Got(m, []) <==> Readable(m)
  {
    hide ReadHandshake, ReadLoginStart, ReadClientInformation, ReadList, ReadString, ListBytes, StringBytes, ShortText,
      ReadInt, IntBytes, ToBigEndian, SignedBytes, Pow256, FitsBytes;
    match m
    case Handshake(_, _, _, _) => HandshakeBack(m);
    case LoginStart(_, _) => LoginStartBack(m);
    case LoginDisconnect(reason) =>
      StringBack(reason, []);
      assert StringBytes(reason) + [] == StringBytes(reason);
    case RegistryData(_, _) => RegistryBack(m);
    case EnabledFeatures(features) => FeaturesBack(features);
    case SelectKnownPacks(packs) => PacksBack(packs);
    case ClientInformation(_, _, _, _, _, _, _, _) => ClientInformationBack(m);
  }

  lemma FeaturesBack(features: seq<seq<byte>>)
    requires |features| < 0x8000_0000 && forall i :: 0 <= i < |features| ==> ShortText(features[i])
    ensures ReadList(ReadString, ListBytes(StringBytes, features)) == Got(features, [])
  {
    hide ReadString, StringBytes, ReadList, ShortText;
    forall t, tail | t in features
      ensures ReadString(StringBytes(t) + tail) == Got(t, tail)
    {
      StringBack(t, tail);
    }
    ListBack(StringBytes, ReadString, features, []);
    assert ListBytes(StringBytes, features) + [] == ListBytes(StringBytes, features);
  }

  lemma PacksBack(packs: seq<KnownPack>)
    requires |packs| < 0x8000_0000 && forall i :: 0 <= i < |packs| ==> PackFits(packs[i])
    ensures ReadList(ReadPack, ListBytes(PackBytes, packs)) == Got(packs, [])
  {
    hide ReadPack, PackBytes, ReadList, PackFits;
    forall p, tail | p in packs
      ensures ReadPack(PackBytes(p) + tail) == Got(p, tail)
    {
      PackBack(p, tail);
    }
    ListBack(PackBytes, ReadPack, packs, []);
    assert ListBytes(PackBytes, packs) + [] == ListBytes(PackBytes, packs);
  }

  // ---- bodies that are cut short ----

  /** How a string is reported of which only the first `k` bytes are there. */
  function ShortString(t: seq<byte>, k: nat): PacketError {
    if k < |IntBytes(|t|)| then BadVarInt(VarIntError.Incomplete) else PacketError.Incomplete(|t|, k - |IntBytes(|t|)|)
  }

  lemma IntCut(v: int, k: nat)
    requires InRange(W32, v) && k < |IntBytes(v)|
    ensures ReadInt(IntBytes(v)[..k]) == Fail(BadVarInt(VarIntError.Incomplete))
  {
    hide Decode, Encode, InRange;
    RoundTrip(W32, v, []);
    assert IntBytes(v) + [] == IntBytes(v);
    DecodePrefix(W32, IntBytes(v), k);
  }

  lemma StringCut(t: seq<byte>, k: nat)
    requires ShortText(t) && k < |StringBytes(t)|
    ensures ReadString(StringBytes(t)[..k]) == Fail(ShortString(t, k))
  {
    hide ReadInt, IntBytes, ValidUtf8;
    var n := |IntBytes(|t|)|;
    if k < n {
      assert StringBytes(t)[..k] == IntBytes(|t|)[..k];
      IntCut(|t|, k);
    } else {
      assert StringBytes(t)[..k] == IntBytes(|t|) + t[..k - n];
      IntBack(|t|, t[..k - n]);
    }
  }

  /** Reading from a beginning of a number and what follows it. */
  lemma IntPart(v: int, rest: seq<byte>, k: nat)
    requires InRange(W32, v) && k < |IntBytes(v)| + |rest|
    ensures ReadInt((IntBytes(v) + rest)[..k])
         == if k < |IntBytes(v)| then Fail(BadVarInt(VarIntError.Incomplete)) else Got(v, rest[..k - |IntBytes(v)|])
  {
    hide ReadInt, IntBytes, InRange;
    if k < |IntBytes(v)| {
      assert (IntBytes(v) + rest)[..k] == IntBytes(v)[..k];
      IntCut(v, k);
    } else {
      assert (IntBytes(v) + rest)[..k] == IntBytes(v) + rest[..k - |IntBytes(v)|];
      IntBack(v, rest[..k - |IntBytes(v)|]);
    }
  }

  lemma StringPart(t: seq<byte>, rest: seq<byte>, k: nat)
    requires ShortText(t) && k < |StringBytes(t)| + |rest|
    ensures ReadString((StringBytes(t) + rest)[..k])
         == if k < |StringBytes(t)| then Fail(ShortString(t, k)) else Got(t, rest[..k - |StringBytes(t)|])
  {
    hide ReadString, StringBytes, ShortText, ShortString;
    if k < |StringBytes(t)| {
      assert (StringBytes(t) + rest)[..k] == StringBytes(t)[..k];
      StringCut(t, k);
    } else {
      assert (StringBytes(t) + rest)[..k] == StringBytes(t) + rest[..k - |StringBytes(t)|];
      StringBack(t, rest[..k - |StringBytes(t)|]);
    }
  }

  /** Some bytes of a fixed number, and then a beginning of what follows them. */
  lemma FixedPart(a: seq<byte>, rest: seq<byte>, k: nat)
    requires k <= |a| + |rest|
    ensures |(a + rest)[..k]| == k
    ensures k >= |a| ==> (a + rest)[..k][|a|..] == rest[..k - |a|]
  {
  }

  /** What follows the address of a handshake, as far as its first `j` bytes go. */
  lemma HandshakeEnd(port: seq<byte>, v: int, j: nat)
    requires |port| == 2 && InRange(W32, v) && j < 2 + |IntBytes(v)|
    ensures |(port + IntBytes(v))[..j]| == j
    ensures j >= 2 ==> ReadInt((port + IntBytes(v))[..j][2..]) == Fail(BadVarInt(VarIntError.Incomplete))
  {
    hide ReadInt, IntBytes, InRange;
    FixedPart(port, IntBytes(v), j);
    if j >= 2 { IntCut(v, j - 2); }
  }

  lemma SmallValue(next: State)
    ensures InRange(W32, HandshakeValue(next))
  {
  }

  /** An entry that ends after its name, before the byte that says whether data follows. */
  lemma EntryCut(id: seq<byte>)
    requires ShortText(id)
    ensures ReadEntry(StringBytes(id)) == Fail(PacketError.Incomplete(1, 0))
  {
    hide ReadString, StringBytes, ShortText;
    StringBack(id, []);
    assert StringBytes(id) + [] == StringBytes(id);
  }

  /** Every proper part of a handshake, and what is missing from it. */
  lemma HandshakeCut(m: Message, k: nat)
    requires m.Handshake? && WellFormed(m) && k < |Body(m)|
    ensures var p, a := |IntBytes(m.protocol)|, |StringBytes(m.address)|;
            ReadHandshake(Body(m)[..k])
            == Fail(if k < p then BadVarInt(VarIntError.Incomplete)
                    else if k < p + a then ShortString(m.address, k - p)
                    else if k < p + a + 2 then PacketError.Incomplete(2, k - p - a)
                    else BadVarInt(VarIntError.Incomplete))
  {
    hide ReadInt, ReadString, IntBytes, StringBytes, ToBigEndian, BigEndian, ShortText, HandshakeValue, ShortString, InRange,
      StateOfValue;
    SmallValue(m.next);
    var p, address, port, v := |IntBytes(m.protocol)|, StringBytes(m.address), ToBigEndian(m.port, 2), HandshakeValue(m.next);
    IntPart(m.protocol, address + (port + IntBytes(v)), k);
    if k >= p {
      StringPart(m.address, port + IntBytes(v), k - p);
      if k - p >= |address| { HandshakeEnd(port, v, k - p - |address|); }
    }
  }

  lemma LoginStartCut(m: Message, k: nat)
    requires m.LoginStart? && WellFormed(m) && k < |Body(m)|
    ensures var n := |StringBytes(m.name)|;
            ReadLoginStart(Body(m)[..k]) == Fail(if k < n then ShortString(m.name, k) else PacketError.Incomplete(16, k - n))
  {
    hide ReadString, StringBytes, ToBigEndian, ShortText, ShortString, Pow256;
    StringPart(m.name, ToBigEndian(m.uuid, 16), k);
  }

  /** Where the fields of one byte are missing, reading panics. */
  lemma ClientInformationCut(m: Message, k: nat)
    requires m.ClientInformation? && WellFormed(m) && k < |Body(m)|
    ensures var n, c, h := |StringBytes(m.locale)|, |IntBytes(m.chatMode)|, |IntBytes(m.mainHand)|;
            ReadClientInformation(Body(m)[..k])
            == Fail(if k < n then ShortString(m.locale, k)
                    else if k == n then Panicking
                    else if k < n + 1 + c then BadVarInt(VarIntError.Incomplete)
                    else if k < n + 1 + c + 2 then Panicking
                    else if k < n + 1 + c + 2 + h then BadVarInt(VarIntError.Incomplete)
                    else Panicking)
  {
    hide ReadInt, ReadString, IntBytes, StringBytes, SignedBytes, FromSigned, ShortText, Flag, ShortString, FitsBytes, InRange;
    var n, view, c := |StringBytes(m.locale)|, SignedBytes(m.viewDistance, 1), |IntBytes(m.chatMode)|;
    var two, flags := [Flag(m.chatColors), m.skinParts], [Flag(m.filtering), Flag(m.listings)];
    var fromTwo := two + (IntBytes(m.mainHand) + flags);
    StringPart(m.locale, view + (IntBytes(m.chatMode) + fromTwo), k);
    if k > n {
      FixedPart(view, IntBytes(m.chatMode) + fromTwo, k - n);
      IntPart(m.chatMode, fromTwo, k - n - 1);
      if k >= n + 1 + c + 2 {
        FixedPart(two, IntBytes(m.mainHand) + flags, k - n - 1 - c);
        IntPart(m.mainHand, flags, k - n - 1 - c - 2);
      }
    }
  }

  /** From a packet to bytes on the wire and back: the frame is cut off whole and its body read exactly in these cases. */
  lemma EndToEnd(m: Message, compression: bool, z: Zlib, rest: seq<byte>)
    requires WellFormed(m) && (compression ==> z.Inverse())
    requires |Payload(Packet(PacketId(m), Body(m)), compression, z)| <= MAX_SLICE
    ensures var p := Packet(PacketId(m), Body(m));
            var f := Frame(p, compression, z);
            && TryFrame(f + rest, compression, z) == Complete(|f|, Some(p)) && ReadBody(KindOf(m), p.body) == Got(m, [])
            <==> Framable(p, compression, z) && Readable(m)
  {
    hide Frame, TryFrame, Content, Payload, Body, ReadBody, WellFormed, Readable, Framable;
    assert InRange(W32, PacketId(m));
    FrameReadsBackExactly(Packet(PacketId(m), Body(m)), compression, z, rest);
    ReadsBackExactly(m);
  }
}
