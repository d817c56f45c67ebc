// Reading and writing packet bodies on buffers, with the loops over lists. Each method is a function of module Packets.

module PacketIO {
  import opened Common
  import opened Buffers
  import VarInts
  import opened Utf8
  import opened Frames
  import opened Packets

  ghost predicate Agrees<T>(p: Reading<T>, r: Result<T, PacketError>, after: seq<byte>) {
    match p
    case Got(v, rest) => r == Success(v) && after == rest
    case Fail(e) => r == Failure(e)
  }

  method TakeInt(buf: Bytes) returns (r: Result<int, PacketError>)
    modifies buf
    ensures Agrees(ReadInt(old(buf.data)), r, buf.data)
  {
    var v := VarInts.Read(W32, buf);
    match v
    case Success(n) => r := Success(n);
    case Failure(e) => r := Failure(BadVarInt(e));
  }

  method PutInt(v: int, buf: Bytes)
    requires InRange(W32, v)
    modifies buf
    ensures buf.data == old(buf.data) + IntBytes(v)
  {
    VarInts.Write(W32, v, buf);
  }

  /** `write_string` */
  method PutString(t: seq<byte>, buf: Bytes)
    modifies buf
    ensures buf.data == old(buf.data) + StringBytes(t)
  {
    hide IntBytes;
    WriteLength(|t|, buf);
    buf.Extend(t);
  }

  /** `read_string` */
  method TakeString(buf: Bytes) returns (r: Result<seq<byte>, PacketError>)
    modifies buf
    ensures Agrees(ReadString(old(buf.data)), r, buf.data)
  {
    hide ReadInt, ValidUtf8, AsUsize;
    var n := TakeInt(buf);
    if n.Failure? {
      return Failure(n.error);
    }
    var len := AsUsize(n.value);
    if |buf.data| < len {
      return Failure(PacketError.Incomplete(len, |buf.data|));
    }
    var bytes := buf.SplitTo(len);
    if !ValidUtf8(bytes) {
      return Failure(NotUtf8);
    }
    return Success(bytes);
  }

  method TakeNumber(n: nat, short: PacketError, buf: Bytes) returns (r: Result<nat, PacketError>)
    modifies buf
    ensures Agrees(ReadNumber(n, short, old(buf.data)), r, buf.data)
  {
    if |buf.data| < n {
      return Failure(short);
    }
    var bytes := buf.SplitTo(n);
    return Success(BigEndian(bytes));
  }

  // ---- one element of each list ----

  method PutEntry(e: RegistryEntry, buf: Bytes)
    modifies buf
    ensures buf.data == old(buf.data) + EntryBytes(e)
  {
    hide StringBytes;
    PutString(e.id, buf);
    match e.data
    case Some(data) =>
      buf.PutU8(1);
      buf.Extend(data);
    case None =>
      buf.PutU8(0);
  }

  method TakeEntry(buf: Bytes) returns (r: Result<RegistryEntry, PacketError>)
    modifies buf
    ensures Agrees(ReadEntry(old(buf.data)), r, buf.data)
  {
    hide ReadString;
    var id := TakeString(buf);
    if id.Failure? {
      return Failure(id.error);
    }
    if buf.data == [] {
      return Failure(PacketError.Incomplete(1, 0));
    }
    var hasData := buf.GetU8();
    if hasData != 0 {
      ghost var left := buf.data;
      var data := buf.SplitTo(|buf.data|);
      assert data == left;
      return Success(RegistryEntry(id.value, Some(data)));
    }
    return Success(RegistryEntry(id.value, None));
  }

  method TakePack(buf: Bytes) returns (r: Result<KnownPack, PacketError>)
    modifies buf
    ensures Agrees(ReadPack(old(buf.data)), r, buf.data)
  {
    hide ReadString;
    var space := TakeString(buf);
    if space.Failure? {
      return Failure(space.error);
    }
    var id := TakeString(buf);
    if id.Failure? {
      return Failure(id.error);
    }
    var version := TakeString(buf);
    if version.Failure? {
      return Failure(version.error);
    }
    return Success(KnownPack(space.value, id.value, version.value));
  }

  // ---- the loops over lists ----

  lemma {:induction false} ManyAppend<T>(write: T -> seq<byte>, xs: seq<T>, x: T)
    ensures ManyBytes(write, xs + [x]) == ManyBytes(write, xs) + write(x)
  {
    if xs == [] {
      assert [x][1..] == [];
    } else {
      ManyAppend(write, xs[1..], x);
      assert (xs + [x])[1..] == xs[1..] + [x];
    }
  }

  method PutEntries(entries: seq<RegistryEntry>, buf: Bytes)
    modifies buf
    ensures buf.data == old(buf.data) + ListBytes(EntryBytes, entries)
  {
    hide IntBytes, EntryBytes, ManyBytes;
    WriteLength(|entries|, buf);
    ghost var head := buf.data;
    assert ManyBytes(EntryBytes, entries[..0]) == [] by { NoneBytes(EntryBytes, entries[..0]); }
    for i := 0 to |entries|
      invariant buf.data == head + ManyBytes(EntryBytes, entries[..i])
    {
      PutEntry(entries[i], buf);
      ManyAppend(EntryBytes, entries[..i], entries[i]);
      assert entries[..i] + [entries[i]] == entries[..i + 1];
    }
    assert entries[..|entries|] == entries;
  }

  lemma NoneBytes<T>(write: T -> seq<byte>, xs: seq<T>)
    requires xs == []
    ensures ManyBytes(write, xs) == []
  {
  }

  method PutFeatures(features: seq<seq<byte>>, buf: Bytes)
    modifies buf
    ensures buf.data == old(buf.data) + ListBytes(StringBytes, features)
  {
    hide IntBytes, StringBytes, ManyBytes;
    WriteLength(|features|, buf);
    ghost var head := buf.data;
    assert ManyBytes(StringBytes, features[..0]) == [] by { NoneBytes(StringBytes, features[..0]); }
    for i := 0 to |features|
      invariant buf.data == head + ManyBytes(StringBytes, features[..i])
    {
      PutString(features[i], buf);
      ManyAppend(StringBytes, features[..i], features[i]);
      assert features[..i] + [features[i]] == features[..i + 1];
    }
    assert features[..|features|] == features;
  }

  method PutPacks(packs: seq<KnownPack>, buf: Bytes)
    modifies buf
    ensures buf.data == old(buf.data) + ListBytes(PackBytes, packs)
  {
    hide IntBytes, StringBytes, ManyBytes;
    WriteLength(|packs|, buf);
    ghost var head := buf.data;
    assert ManyBytes(PackBytes, packs[..0]) == [] by { NoneBytes(PackBytes, packs[..0]); }
    for i := 0 to |packs|
      invariant buf.data == head + ManyBytes(PackBytes, packs[..i])
    {
      PutString(packs[i].space, buf);
      PutString(packs[i].id, buf);
      PutString(packs[i].version, buf);
      ManyAppend(PackBytes, packs[..i], packs[i]);
      assert packs[..i] + [packs[i]] == packs[..i + 1];
    }
    assert packs[..|packs|] == packs;
  }

  ghost function Onto<T>(done: seq<T>, p: Reading<seq<T>>): Reading<seq<T>> {
    match p
    case Fail(e) => Fail(e)
    case Got(xs, rest) => Got(done + xs, rest)
  }

  lemma OntoStep<T>(read: seq<byte> -> Reading<T>, done: seq<T>, count: nat, s: seq<byte>)
    ensures Onto([], ReadMany(read, count, s)) == ReadMany(read, count, s)
    ensures count == 0 ==> Onto(done, ReadMany(read, count, s)) == Got(done, s)
    ensures count > 0 ==>
              match read(s)
              case Fail(e) => Onto(done, ReadMany(read, count, s)) == Fail(e)
              case Got(x, rest) =>
                Onto(done, ReadMany(read, count, s)) == Onto(done + [x], ReadMany(read, count - 1, rest))
  {
    var all := ReadMany(read, count, s);
    if all.Got? { assert [] + all.value == all.value && done + [] == done; }
    if count > 0 && read(s).Got? {
      var later := ReadMany(read, count - 1, read(s).rest);
      if later.Got? { assert done + ([read(s).value] + later.value) == done + [read(s).value] + later.value; }
    }
  }

  method TakeEntries(buf: Bytes) returns (r: Result<seq<RegistryEntry>, PacketError>)
    modifies buf
    ensures Agrees(ReadList(ReadEntry, old(buf.data)), r, buf.data)
  {
    hide ReadInt, ReadEntry, ReadMany, Onto;
    var count := TakeInt(buf);
    if count.Failure? {
      return Failure(count.error);
    }
    if count.value < 0 {
      return Failure(Panicking);
    }
    ghost var s := buf.data;
    var list := [];
    OntoStep(ReadEntry, [], count.value, s);
    for i := 0 to count.value
      invariant ReadMany(ReadEntry, count.value, s) == Onto(list, ReadMany(ReadEntry, count.value - i, buf.data))
    {
      OntoStep(ReadEntry, list, count.value - i, buf.data);
      var x := TakeEntry(buf);
      if x.Failure? {
        return Failure(x.error);
      }
      list := list + [x.value];
    }
    OntoStep(ReadEntry, list, 0, buf.data);
    return Success(list);
  }

  method TakeFeatures(buf: Bytes) returns (r: Result<seq<seq<byte>>, PacketError>)
    modifies buf
    ensures Agrees(ReadList(ReadString, old(buf.data)), r, buf.data)
  {
    hide ReadInt, ReadString, ReadMany, Onto;
    var count := TakeInt(buf);
    if count.Failure? {
      return Failure(count.error);
    }
    if count.value < 0 {
      return Failure(Panicking);
    }
    ghost var s := buf.data;
    var list := [];
    OntoStep(ReadString, [], count.value, s);
    for i := 0 to count.value
      invariant ReadMany(ReadString, count.value, s) == Onto(list, ReadMany(ReadString, count.value - i, buf.data))
    {
      OntoStep(ReadString, list, count.value - i, buf.data);
      var x := TakeString(buf);
      if x.Failure? {
        return Failure(x.error);
      }
      list := list + [x.value];
    }
    OntoStep(ReadString, list, 0, buf.data);
    return Success(list);
  }

  method TakePacks(buf: Bytes) returns (r: Result<seq<KnownPack>, PacketError>)
    modifies buf
    ensures Agrees(ReadList(ReadPack, old(buf.data)), r, buf.data)
  {
    hide ReadInt, ReadPack, ReadMany, Onto;
    var count := TakeInt(buf);
    if count.Failure? {
      return Failure(count.error);
    }
    if count.value < 0 {
      return Failure(Panicking);
    }
    ghost var s := buf.data;
    var list := [];
    OntoStep(ReadPack, [], count.value, s);
    for i := 0 to count.value
      invariant ReadMany(ReadPack, count.value, s) == Onto(list, ReadMany(ReadPack, count.value - i, buf.data))
    {
      OntoStep(ReadPack, list, count.value - i, buf.data);
      var x := TakePack(buf);
      if x.Failure? {
        return Failure(x.error);
      }
      list := list + [x.value];
    }
    OntoStep(ReadPack, list, 0, buf.data);
    return Success(list);
  }

  // ---- whole packets ----

  /** `Packet::write` */
  method PutBody(m: Message, buf: Bytes)
    requires WellFormed(m)
    modifies buf
    ensures buf.data == old(buf.data) + Body(m)
  {
    hide IntBytes, StringBytes, ListBytes, ToBigEndian, SignedBytes, ShortText, Pow256;
    ghost var start := buf.data;
    match m
    case Handshake(protocol, address, port, next) =>
      PutInt(protocol, buf);
      PutString(address, buf);
      buf.Extend(ToBigEndian(port, 2));
      PutInt(HandshakeValue(next), buf);
    case LoginStart(name, uuid) =>
      PutString(name, buf);
      buf.Extend(ToBigEndian(uuid, 16));
    case LoginDisconnect(reason) =>
      PutString(reason, buf);
    case RegistryData(key, entries) =>
      PutString(key, buf);
      PutEntries(entries, buf);
    case EnabledFeatures(features) =>
      PutFeatures(features, buf);
    case SelectKnownPacks(packs) =>
      PutPacks(packs, buf);
    case ClientInformation(locale, view, chat, colors, skin, hand, filtering, listings) =>
      PutClientInformation(m, buf);
  }

  method PutClientInformation(m: Message, buf: Bytes)
    requires m.ClientInformation? && WellFormed(m)
    modifies buf
    ensures buf.data == old(buf.data) + Body(m)
  {
    hide IntBytes, StringBytes, SignedBytes, ShortText, FitsBytes;
    PutString(m.locale, buf);
    buf.Extend(SignedBytes(m.viewDistance, 1));
    PutInt(m.chatMode, buf);
    buf.PutU8(Flag(m.chatColors));
    buf.PutU8(m.skinParts);
    PutInt(m.mainHand, buf);
    buf.PutU8(Flag(m.filtering));
    buf.PutU8(Flag(m.listings));
  }

  /** `Packet::read` */
  method TakeBody(kind: Kind, buf: Bytes) returns (r: Result<Message, PacketError>)
    modifies buf
    ensures Agrees(ReadBody(kind, old(buf.data)), r, buf.data)
  {
    hide ReadHandshake, ReadLoginStart, ReadClientInformation, ReadList, ReadString;
    match kind
    case KHandshake => r := TakeHandshake(buf);
    case KLoginStart => r := TakeLoginStart(buf);
    case KLoginDisconnect =>
      var reason := TakeString(buf);
      r := match reason case Success(t) => Success(LoginDisconnect(t)) case Failure(e) => Failure(e);
    case KRegistryData =>
      var key := TakeString(buf);
      if key.Failure? {
        return Failure(key.error);
      }
      var entries := TakeEntries(buf);
      r := match entries case Success(es) => Success(RegistryData(key.value, es)) case Failure(e) => Failure(e);
    case KEnabledFeatures =>
      var features := TakeFeatures(buf);
      r := match features case Success(fs) => Success(EnabledFeatures(fs)) case Failure(e) => Failure(e);
    case KSelectKnownPacks =>
      var packs := TakePacks(buf);
      r := match packs case Success(ps) => Success(SelectKnownPacks(ps)) case Failure(e) => Failure(e);
    case KClientInformation => r := TakeClientInformation(buf);
  }

  method TakeHandshake(buf: Bytes) returns (r: Result<Message, PacketError>)
    modifies buf
    ensures Agrees(ReadHandshake(old(buf.data)), r, buf.data)
  {
    hide ReadInt, ReadString, ReadNumber;
    var protocol := TakeInt(buf);
    if protocol.Failure? {
      return Failure(protocol.error);
    }
    var address := TakeString(buf);
    if address.Failure? {
      return Failure(address.error);
    }
    var port := TakeNumber(2, PacketError.Incomplete(2, |buf.data|), buf);
    if port.Failure? {
      return Failure(port.error);
    }
    var value := TakeInt(buf);
    if value.Failure? {
      return Failure(value.error);
    }
    var next := StateOfValue(value.value);
    if next.None? {
      return Failure(InvalidPacketId(value.value));
    }
    return Success(Handshake(protocol.value, address.value, port.value, next.value));
  }

  method TakeLoginStart(buf: Bytes) returns (r: Result<Message, PacketError>)
    modifies buf
    ensures Agrees(ReadLoginStart(old(buf.data)), r, buf.data)
  {
    hide ReadString, ReadNumber;
    var name := TakeString(buf);
    if name.Failure? {
      return Failure(name.error);
    }
    var uuid := TakeNumber(16, PacketError.Incomplete(16, |buf.data|), buf);
    if uuid.Failure? {
      return Failure(uuid.error);
    }
    return Success(LoginStart(name.value, uuid.value));
  }

  method TakeClientInformation(buf: Bytes) returns (r: Result<Message, PacketError>)
    modifies buf
    ensures Agrees(ReadClientInformation(old(buf.data)), r, buf.data)
  {
    hide ReadInt, ReadString, FromSigned;
    var locale := TakeString(buf);
    if locale.Failure? {
      return Failure(locale.error);
    }
    if buf.data == [] {
      return Failure(Panicking);
    }
    var view := buf.SplitTo(1);
    var chat := TakeInt(buf);
    if chat.Failure? {
      return Failure(chat.error);
    }
    if |buf.data| < 2 {
      return Failure(Panicking);
    }
    var colors := buf.GetU8();
    var skin := buf.GetU8();
    var hand := TakeInt(buf);
    if hand.Failure? {
      return Failure(hand.error);
    }
    if |buf.data| < 2 {
      return Failure(Panicking);
    }
    var filtering := buf.GetU8();
    var listings := buf.GetU8();
    return Success(ClientInformation(locale.value, FromSigned(view), chat.value, colors != 0, skin, hand.value,
                                     filtering != 0, listings != 0));
  }
}
