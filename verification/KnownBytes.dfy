// The formats byte by byte: strings of bytes that the repository's tests and comments spell out, and others like them.

module KnownBytes {
  import opened Common
  import opened VarInts
  import opened Frames
  import opened Packets
  import opened Utf8
  import Bits
  import BlockPositions
  import Decimals
  import Nbt
  import NbtGrammar
  import NbtTheorems
  import Regions
  import Sections

  // ---- numbers ----

  lemma BigEndianBytes(a: byte, b: byte, c: byte, d: byte)
    ensures BigEndian([a, b]) == 0x100 * a + b && ToBigEndian(0x100 * a + b, 2) == [a, b]
    ensures BigEndian([a, b, c, d]) == 0x100_0000 * a + 0x1_0000 * b + 0x100 * c + d
    ensures FromSigned([a]) == if a < 0x80 then a else a - 0x100
    ensures FromSigned([a, b]) == BigEndian([a, b]) - if a < 0x80 then 0 else 0x1_0000
    ensures FromSigned([a, b, c, d]) == BigEndian([a, b, c, d]) - if a < 0x80 then 0 else 0x1_0000_0000
  {
    assert [a][..0] == [] && [a, b][..1] == [a] && [a, b, c][..2] == [a, b] && [a, b, c, d][..3] == [a, b, c];
    Pow256Values();
    assert BigEndian([a]) == a && BigEndian([a, b]) == 0x100 * a + b && BigEndian([a, b, c]) == 0x1_0000 * a + 0x100 * b + c;
    DigitsOfBigEndian([a, b]);
  }

  lemma VarIntBytes()
    ensures IntBytes(0) == [0x00] && IntBytes(127) == [0x7F] && IntBytes(128) == [0x80, 0x01] && IntBytes(776) == [0x88, 0x06]
    ensures IntBytes(-1) == [0xFF, 0xFF, 0xFF, 0xFF, 0x0F] && IntBytes(-0x8000_0000) == [0x80, 0x80, 0x80, 0x80, 0x08]
  {
    hide Encode;
    LastGroup(0);
    LastGroup(127);
    MoreGroups(128);
    LastGroup(1);
    MoreGroups(776);
    LastGroup(6);
    MoreGroups(0xFFFF_FFFF);
    MoreGroups(0x1FF_FFFF);
    MoreGroups(0x3_FFFF);
    MoreGroups(0x7FF);
    LastGroup(15);
    MoreGroups(0x8000_0000);
    MoreGroups(0x100_0000);
    MoreGroups(0x2_0000);
    MoreGroups(0x400);
    LastGroup(8);
  }

  lemma LastGroup(u: nat)
    requires u < 128
    ensures Encode(u) == [u]
  {
  }

  lemma MoreGroups(u: nat)
    requires u >= 128
    ensures Encode(u) == [128 + u % 128] + Encode(u / 128)
  {
  }

  /** No byte, one that announces another, and five that do. */
  lemma VarIntErrors()
    ensures Decode(W32, []) == Bad(VarIntError.Incomplete) && Decode(W32, [0x80]) == Bad(VarIntError.Incomplete)
    ensures Decode(W32, [0x80, 0x80, 0x80, 0x80, 0x80]) == Bad(TooLarge)
  {
    assert [0x80][1..] == [];
    var s: seq<byte> := [0x80, 0x80, 0x80, 0x80, 0x80];
    if Continued(s) < 5 { assert false; }
  }

  /** Numbers in decimal, and the file names made of them. */
  lemma DecimalText()
    ensures Decimals.Decimal(0) == Ascii("0") && Decimals.Decimal(-7) == Ascii("-7") && Decimals.Decimal(12) == Ascii("12")
    ensures Regions.RegionName(12, -7) == Ascii("r.12.-7.mca")
  {
    DecimalDigits();
    hide Decimals.Decimal;
  }

  lemma DecimalDigits()
    ensures Decimals.Decimal(0) == [48] && Decimals.Decimal(-7) == [45, 55] && Decimals.Decimal(12) == [49, 50]
  {
    assert Decimals.Digits(1) == [49] && Decimals.Digits(12) == [49, 50];
  }

  // ---- frames ----

  lemma FrameBytes(z: Zlib)
    ensures Frame(Packet(0x0e, [7, 8]), false, z) == [3, 0x0e, 7, 8]
    ensures Frame(Packet(0x0e, [7, 8]), true, z) == [4, 0, 0x0e, 7, 8]
  {
    assert IntBytes(0x0e) == [0x0e] && IntBytes(3) == [3] && IntBytes(4) == [4] && IntBytes(0) == [0];
    hide IntBytes;
    assert [0x0e] + [7, 8] == [0x0e, 7, 8];
  }

  // ---- packet bodies ----

  /** The handshake of the repository's tests; the last byte is the next state. */
  lemma HandshakeBytes(next: State)
    ensures Body(Handshake(776, Ascii("localhost"), 25565, next))
         == [0x88, 0x06, 9, 108, 111, 99, 97, 108, 104, 111, 115, 116, 0x63, 0xDD,
             if next == StatusState then 1 else if next == LoginState then 2 else 0]
  {
    hide IntBytes, Ascii, ToBigEndian, StringBytes;
    VarIntBytes();
    BigEndianBytes(0x63, 0xDD, 0, 0);
    assert ToBigEndian(25565, 2) == [0x63, 0xDD];
    Localhost();
    SmallInts(HandshakeValue(next));
  }

  lemma Localhost()
    ensures StringBytes(Ascii("localhost")) == [9, 108, 111, 99, 97, 108, 104, 111, 115, 116]
  {
    SmallInts(9);
    hide IntBytes;
    assert Ascii("localhost") == [108, 111, 99, 97, 108, 104, 111, 115, 116];
  }

  lemma SmallInts(v: int)
    requires 0 <= v < 128
    ensures IntBytes(v) == [v]
  {
  }

  lemma OneLetter(a: byte)
    ensures StringBytes([a]) == [1, a]
  {
    SmallInts(1);
  }

  /** One body of each of the other kinds, field by field. */
  lemma LoginBytes(uuid: byte)
    ensures Body(LoginStart([65], uuid)) == [1, 65, 0, 0, 0, 0, 0, 0, 0, 0, 0, 0, 0, 0, 0, 0, 0, uuid]
    ensures Body(LoginDisconnect([65])) == [1, 65]
  {
    OneLetter(65);
    hide StringBytes;
    LowByte(uuid, 15);
    assert Zeros(15) == [0, 0, 0, 0, 0, 0, 0, 0, 0, 0, 0, 0, 0, 0, 0];
  }

  function Zeros(n: nat): (s: seq<byte>)
    ensures |s| == n
  {
    seq(n, _ => 0)
  }

  lemma {:induction false} LowByte(b: byte, n: nat)
    ensures ToBigEndian(b, n + 1) == Zeros(n) + [b]
  {
    assert b / 256 == 0 && b % 256 == b;
    if n > 0 {
      LowByte(0, n - 1);
      assert Zeros(n - 1) + [0] == Zeros(n);
    }
    NoDigits(n);
  }

  lemma {:induction false} NoDigits(n: nat)
    ensures ToBigEndian(0, n) == Zeros(n)
  {
    if n > 0 {
      NoDigits(n - 1);
      assert Zeros(n - 1) + [0] == Zeros(n);
    }
  }

  lemma RegistryBytes()
    ensures Body(RegistryData([97], [RegistryEntry([98], None), RegistryEntry([99], Some([9]))])) == [1, 97, 2, 1, 98, 0, 1, 99, 1, 9]
  {
    OneLetter(97);
    OneLetter(98);
    OneLetter(99);
    SmallInts(2);
    var e, d := RegistryEntry([98], None), RegistryEntry([99], Some([9]));
    hide StringBytes, IntBytes, ManyBytes;
    assert EntryBytes(e) == [1, 98, 0] && EntryBytes(d) == [1, 99, 1, 9];
    hide EntryBytes;
    ManyTwo(EntryBytes, e, d);
  }

  lemma ListBodies()
    ensures Body(EnabledFeatures([[97], [98]])) == [2, 1, 97, 1, 98]
    ensures Body(SelectKnownPacks([KnownPack([97], [98], [99])])) == [1, 1, 97, 1, 98, 1, 99]
  {
    hide StringBytes, IntBytes, ManyBytes, PackBytes;
    OneLetter(97);
    OneLetter(98);
    OneLetter(99);
    SmallInts(1);
    SmallInts(2);
    var p := KnownPack([97], [98], [99]);
    ManyTwo(StringBytes, [97], [98]);
    ManyOne(PackBytes, p);
    assert PackBytes(p) == [1, 97] + ([1, 98] + [1, 99]) by { PackParts(p); }
  }

  lemma PackParts(p: KnownPack)
    ensures PackBytes(p) == StringBytes(p.space) + (StringBytes(p.id) + StringBytes(p.version))
  {
  }

  lemma ManyOne<T>(write: T -> seq<byte>, x: T)
    ensures ManyBytes(write, [x]) == write(x)
  {
    assert [x][1..] == [] && ManyBytes(write, []) == [];
    assert write(x) + [] == write(x);
  }

  lemma ManyTwo<T>(write: T -> seq<byte>, x: T, y: T)
    ensures ManyBytes(write, [x, y]) == write(x) + write(y)
  {
    assert [x, y][1..] == [y];
    ManyOne(write, y);
  }

  lemma ClientInformationBytes()
    ensures Body(ClientInformation([97], -2, 3, true, 0x7F, 1, false, true)) == [1, 97, 0xFE, 3, 1, 0x7F, 1, 0, 1]
  {
    hide StringBytes, IntBytes, SignedBytes;
    OneLetter(97);
    SmallInts(3);
    SmallInts(1);
    MinusTwo();
  }

  lemma MinusTwo()
    ensures SignedBytes(-2, 1) == [0xFE]
  {
    Pow256Values();
    assert -2 % Pow256(1) == 0xFE && ToBigEndian(0xFE / 256, 0) == [];
  }

  lemma PacketNumbers(m: Message)
    ensures PacketId(m)
         == if m.RegistryData? then 0x07 else if m.EnabledFeatures? then 0x0c else if m.SelectKnownPacks? then 0x0e else 0x00
  {
  }

  // ---- NBT ----

  /** A compound of one field with the name "a". */
  function Alone(id: byte, payload: seq<byte>): seq<byte> {
    [id, 0, 1, 97] + payload + [0]
  }

  predicate ReadsAs(s: seq<byte>, v: Nbt.Value) {
    Nbt.ParseFields(s) == Nbt.Ok([Nbt.Field([97], v)], |s|)
  }

  lemma AloneReads(v: Nbt.Value, id: byte, payload: seq<byte>)
    requires NbtTheorems.Printable(v) && id == Nbt.Id(Nbt.Tag(v)) && payload == NbtTheorems.Print(v)
    ensures ReadsAs(Alone(id, payload), v)
  {
    hide Nbt.ParseFields, NbtTheorems.Printable, NbtTheorems.Print;
    var fields := [Nbt.Field([97], v)];
    BigEndianBytes(0, 1, 0, 0);
    assert ToBigEndian(1, 2) == [0, 1];
    assert Nbt.Text([97]) by { assert [97][1..] == []; }
    assert fields[1..] == [];
    assert NbtTheorems.PrintableFields([]) && NbtTheorems.PrintFields([]) == [0];
    assert Nbt.FieldHead(fields[0]) == [id, 0, 1, 97];
    assert NbtTheorems.PrintFields(fields) == Alone(id, payload);
    NbtTheorems.PrintFieldsSpells(fields);
    NbtGrammar.CompleteFields(Alone(id, payload), fields, []);
    assert Alone(id, payload) + [] == Alone(id, payload);
  }

  lemma NumberBytes()
    ensures ReadsAs(Alone(1, [0xFE]), Nbt.Byte(-2))
    ensures ReadsAs(Alone(2, [0x01, 0x02]), Nbt.Short(0x0102))
    ensures ReadsAs(Alone(3, [0, 0, 0, 42]), Nbt.Int(42))
    ensures ReadsAs(Alone(4, [0, 0, 0, 0, 0, 0, 0, 42]), Nbt.Long(42))
    ensures ReadsAs(Alone(5, [0, 0, 0, 42]), Nbt.Float(42))
    ensures ReadsAs(Alone(6, [0, 0, 0, 0, 0, 0, 0, 42]), Nbt.Double(42))
  {
    hide Nbt.ParseFields, ReadsAs, Alone, SignedBytes, ToBigEndian, NbtTheorems.Print, NbtTheorems.Printable;
    ShortNumbers();
    SmallDigits(42);
    NumberPrints(Nbt.Byte(-2));
    NumberPrints(Nbt.Short(0x0102));
    NumberPrints(Nbt.Int(42));
    NumberPrints(Nbt.Long(42));
    NumberPrints(Nbt.Float(42));
    NumberPrints(Nbt.Double(42));
    AloneReads(Nbt.Byte(-2), 1, [0xFE]);
    AloneReads(Nbt.Short(0x0102), 2, [0x01, 0x02]);
    AloneReads(Nbt.Int(42), 3, [0, 0, 0, 42]);
    AloneReads(Nbt.Long(42), 4, [0, 0, 0, 0, 0, 0, 0, 42]);
    AloneReads(Nbt.Float(42), 5, [0, 0, 0, 42]);
    AloneReads(Nbt.Double(42), 6, [0, 0, 0, 0, 0, 0, 0, 42]);
  }

  lemma NumberPrints(v: Nbt.Value)
    requires v == Nbt.Byte(-2) || v == Nbt.Short(0x0102) || v == Nbt.Int(42) || v == Nbt.Long(42) || v == Nbt.Float(42) || v == Nbt.Double(42)
    ensures NbtTheorems.Printable(v) && NbtTheorems.Print(v) == Nbt.ScalarBytes(v)
  {
    Pow256Values();
    hide Nbt.ScalarBytes, Pow256;
  }

  lemma ShortNumbers()
    ensures SignedBytes(-2, 1) == [0xFE] && SignedBytes(0x0102, 2) == [0x01, 0x02]
  {
    Pow256Values();
    BigEndianBytes(1, 2, 0, 0);
    MinusTwo();
  }

  lemma SmallDigits(v: byte)
    requires v < 128
    ensures SignedBytes(v, 1) == [v]
    ensures SignedBytes(v, 4) == ToBigEndian(v, 4) == [0, 0, 0, v]
    ensures SignedBytes(v, 8) == ToBigEndian(v, 8) == [0, 0, 0, 0, 0, 0, 0, v]
  {
    hide ToBigEndian;
    SmallDigitsIn(v, 1);
    SmallDigitsIn(v, 4);
    SmallDigitsIn(v, 8);
    assert Zeros(0) == [] && Zeros(3) == [0, 0, 0] && Zeros(7) == [0, 0, 0, 0, 0, 0, 0];
  }

  lemma SmallDigitsIn(v: byte, n: nat)
    requires v < 128 && n > 0
    ensures SignedBytes(v, n) == ToBigEndian(v, n) == Zeros(n - 1) + [v]
  {
    LowByte(v, n - 1);
    Pow256AtLeast(n);
    Bits.SmallMod(v, Pow256(n));
    hide ToBigEndian, Pow256;
  }

  lemma {:induction false} Pow256AtLeast(n: nat)
    requires n > 0
    ensures Pow256(n) >= 256
  {
    if n > 1 { Pow256AtLeast(n - 1); }
  }

  lemma ArrayBytes()
    ensures ReadsAs(Alone(7, [0, 0, 0, 1, 5]), Nbt.ByteArray([5]))
    ensures ReadsAs(Alone(11, [0, 0, 0, 1, 0, 0, 0, 5]), Nbt.IntArray([5]))
    ensures ReadsAs(Alone(12, [0, 0, 0, 1, 0, 0, 0, 0, 0, 0, 0, 5]), Nbt.LongArray([5]))
  {
    hide *;
    SmallDigits(1);
    SmallDigits(5);
    OneElement(1);
    OneElement(4);
    OneElement(8);
    ArrayPrints(Nbt.ByteArray([5]), 7, 1);
    ArrayPrints(Nbt.IntArray([5]), 11, 4);
    ArrayPrints(Nbt.LongArray([5]), 12, 8);
    AloneReads(Nbt.ByteArray([5]), 7, [0, 0, 0, 1, 5]);
    AloneReads(Nbt.IntArray([5]), 11, [0, 0, 0, 1, 0, 0, 0, 5]);
    AloneReads(Nbt.LongArray([5]), 12, [0, 0, 0, 1, 0, 0, 0, 0, 0, 0, 0, 5]);
  }

  lemma OneElement(size: nat)
    requires size > 0
    ensures Nbt.Flatten([5], size) == SignedBytes(5, size) && Nbt.AllFit([5], size)
  {
    var xs := [5];
    assert xs[1..] == [] && Nbt.Flatten([], size) == [];
    Pow256AtLeast(size);
    hide SignedBytes, Pow256;
  }

  lemma ArrayPrints(v: Nbt.Value, id: byte, size: nat)
    requires match v case ByteArray(xs) => xs == [5] && id == 7 && size == 1
                     case IntArray(xs) => xs == [5] && id == 11 && size == 4
                     case LongArray(xs) => xs == [5] && id == 12 && size == 8
                     case _ => false
    requires Nbt.AllFit([5], size)
    ensures NbtTheorems.Printable(v) && Nbt.Id(Nbt.Tag(v)) == id
    ensures NbtTheorems.Print(v) == SignedBytes(1, 4) + Nbt.Flatten([5], size)
  {
    hide SignedBytes, Nbt.Flatten, Nbt.AllFit;
  }

  lemma TextBytes()
    ensures ReadsAs(Alone(8, [0, 1, 104]), Nbt.String([104]))
  {
    hide Nbt.ParseFields, ReadsAs, Alone;
    BigEndianBytes(0, 1, 0, 0);
    assert [104][1..] == [];
    AloneReads(Nbt.String([104]), 8, [0, 1, 104]);
  }

  lemma ContainerBytes()
    ensures ReadsAs(Alone(9, [1, 0, 0, 0, 1, 5]), Nbt.List([Nbt.Byte(5)]))
    ensures ReadsAs(Alone(10, [0]), Nbt.Compound([]))
  {
    ListPrints();
    hide Nbt.ParseFields, ReadsAs, Alone;
    AloneReads(Nbt.List([Nbt.Byte(5)]), 9, [1, 0, 0, 0, 1, 5]);
    AloneReads(Nbt.Compound([]), 10, [0]);
  }

  lemma ListPrints()
    ensures NbtTheorems.Printable(Nbt.List([Nbt.Byte(5)])) && NbtTheorems.Print(Nbt.List([Nbt.Byte(5)])) == [1, 0, 0, 0, 1, 5]
  {
    hide SignedBytes, NbtTheorems.Printable, NbtTheorems.Print;
    SmallDigits(1);
    FivePrints();
    ListOfOne(Nbt.Byte(5));
  }

  lemma ListOfOne(v: Nbt.Value)
    requires NbtTheorems.Printable(v)
    ensures NbtTheorems.Printable(Nbt.List([v]))
    ensures NbtTheorems.Print(Nbt.List([v])) == [Nbt.Id(Nbt.Tag(v))] + SignedBytes(1, 4) + NbtTheorems.Print(v)
  {
    hide SignedBytes, Nbt.Id, Nbt.Tag;
    var items := [v];
    assert items[1..] == [] && NbtTheorems.PrintItems([]) == [] && NbtTheorems.PrintableItems([]);
    assert NbtTheorems.PrintItems(items) == NbtTheorems.Print(v) && NbtTheorems.PrintableItems(items);
  }

  lemma FivePrints()
    ensures NbtTheorems.Printable(Nbt.Byte(5)) && NbtTheorems.Print(Nbt.Byte(5)) == [5]
  {
    SmallDigits(5);
    FiveFits();
    hide SignedBytes, FitsBytes;
  }

  lemma FiveFits()
    ensures FitsBytes(5, 1)
  {
  }

  /** The root of a file: its number, a name that is dropped, and its fields. */
  lemma RootBytes()
    ensures Nbt.ParseRoot([10, 0, 0, 3, 0, 1, 97, 0, 0, 0, 42, 0]) == Nbt.Ok(Nbt.Compound([Nbt.Field([97], Nbt.Int(42))]), 12)
  {
    hide Nbt.ParseFields, Nbt.ParseName;
    NumberBytes();
    var s: seq<byte> := [10, 0, 0, 3, 0, 1, 97, 0, 0, 0, 42, 0];
    assert s[3..] == Alone(3, [0, 0, 0, 42]);
    NoName(s[1..]);
  }

  lemma NoName(s: seq<byte>)
    requires |s| >= 2 && s[0] == 0 && s[1] == 0
    ensures Nbt.ParseName(s) == Nbt.Ok([], 2)
  {
    hide BigEndian;
    BigEndianBytes(0, 0, 0, 0);
    assert s[..2] == [0, 0] && s[2..2] == [];
  }

  /** What is reported when fewer bytes are left than something takes at the least. */
  lemma ShortInputs(s: seq<byte>)
    ensures |s| < 1 ==> Nbt.ParsePayload(Nbt.TByte, s) == Nbt.Err(Nbt.Incomplete(1, |s|))
    ensures |s| < 2 ==> Nbt.ParsePayload(Nbt.TShort, s) == Nbt.Err(Nbt.Incomplete(2, |s|))
    ensures |s| < 4 ==> Nbt.ParsePayload(Nbt.TInt, s) == Nbt.ParsePayload(Nbt.TFloat, s) == Nbt.Err(Nbt.Incomplete(4, |s|))
    ensures |s| < 8 ==> Nbt.ParsePayload(Nbt.TLong, s) == Nbt.ParsePayload(Nbt.TDouble, s) == Nbt.Err(Nbt.Incomplete(8, |s|))
    ensures Nbt.ParsePayload(Nbt.TEnd, s) == Nbt.Ok(Nbt.Byte(0), 0)
  {
    hide Nbt.ParseArray, Nbt.ParseName, Nbt.ParseFields, Nbt.ParseItems;
  }

  /** The same for what has a length or fields. */
  lemma ShortContainers(s: seq<byte>)
    ensures Nbt.ParseFields([]) == Nbt.Err(Nbt.Incomplete(1, 0)) && Nbt.ParseRoot([]) == Nbt.Err(Nbt.Panic)
    ensures |s| < 2 ==> Nbt.ParsePayload(Nbt.TString, s) == Nbt.Err(Nbt.Incomplete(2, |s|))
    ensures |s| < 5 ==> Nbt.ParsePayload(Nbt.TList, s) == Nbt.Err(Nbt.Incomplete(5, |s|))
  {
    hide Nbt.ParseScalar, Nbt.ParseArray, Nbt.ParseItems, BigEndian, FromSigned;
  }

  lemma ShortArrays(s: seq<byte>)
    requires |s| < 4
    ensures Nbt.ParsePayload(Nbt.TByteArray, s) == Nbt.ParsePayload(Nbt.TIntArray, s) == Nbt.Err(Nbt.Incomplete(4, |s|))
    ensures Nbt.ParsePayload(Nbt.TLongArray, s) == Nbt.Err(Nbt.Incomplete(4, |s|))
  {
    hide Nbt.ParsePayload, Nbt.Elements, FromSigned;
    ArrayPayload(s);
  }

  /** A string or an array that declares more than there is says how much it lacks. */
  lemma CutPayloads(t: seq<byte>, n: byte)
    requires n < 128 && |t| < n
    ensures Nbt.ParsePayload(Nbt.TString, [0, n] + t) == Nbt.Err(Nbt.Incomplete(n, |t|))
    ensures Nbt.ParsePayload(Nbt.TByteArray, [0, 0, 0, n] + t) == Nbt.Err(Nbt.Incomplete(n, |t|))
    ensures Nbt.ParsePayload(Nbt.TIntArray, [0, 0, 0, n] + t) == Nbt.Err(Nbt.Incomplete(4 * n, |t|))
    ensures Nbt.ParsePayload(Nbt.TLongArray, [0, 0, 0, n] + t) == Nbt.Err(Nbt.Incomplete(8 * n, |t|))
  {
    hide *;
    NameShort(t, n);
    TextPayload([0, n] + t);
    ArrayPayload([0, 0, 0, n] + t);
    ArrayShort(Nbt.TByteArray, 1, t, n);
    ArrayShort(Nbt.TIntArray, 4, t, n);
    ArrayShort(Nbt.TLongArray, 8, t, n);
  }

  lemma TextPayload(s: seq<byte>)
    ensures Nbt.ParseName(s).Err? ==> Nbt.ParsePayload(Nbt.TString, s) == Nbt.Err(Nbt.ParseName(s).error)
  {
    hide Nbt.ParseName;
  }

  lemma ArrayPayload(s: seq<byte>)
    ensures Nbt.ParsePayload(Nbt.TByteArray, s) == Nbt.ParseArray(Nbt.TByteArray, s) && Nbt.ElementSize(Nbt.TByteArray) == 1
    ensures Nbt.ParsePayload(Nbt.TIntArray, s) == Nbt.ParseArray(Nbt.TIntArray, s) && Nbt.ElementSize(Nbt.TIntArray) == 4
    ensures Nbt.ParsePayload(Nbt.TLongArray, s) == Nbt.ParseArray(Nbt.TLongArray, s) && Nbt.ElementSize(Nbt.TLongArray) == 8
  {
    hide Nbt.ParseArray;
  }

  lemma NameShort(t: seq<byte>, n: byte)
    requires |t| < n
    ensures Nbt.ParseName([0, n] + t) == Nbt.Err(Nbt.Incomplete(n, |t|))
  {
    hide BigEndian;
    BigEndianBytes(0, n, 0, 0);
    assert ([0, n] + t)[..2] == [0, n];
  }

  lemma ArrayShort(ty: Nbt.TagType, size: nat, t: seq<byte>, n: byte)
    requires size == Nbt.ElementSize(ty) && (size == 1 || size == 4 || size == 8) && n < 128 && |t| < n
    ensures Nbt.ParseArray(ty, [0, 0, 0, n] + t) == Nbt.Err(Nbt.Incomplete(size * n, |t|))
  {
    hide BigEndian, FromSigned, Nbt.ElementSize;
    var s := [0, 0, 0, n] + t;
    BigEndianBytes(0, 0, 0, n);
    assert s[..4] == [0, 0, 0, n];
    ArrayLacks(ty, s, n, size * n);
  }

  lemma ArrayLacks(ty: Nbt.TagType, s: seq<byte>, len: nat, total: nat)
    requires |s| >= 4 && FromSigned(s[..4]) == len < 128 && total == len * Nbt.ElementSize(ty) && |s| - 4 < total < 0x1_0000
    ensures Nbt.ParseArray(ty, s) == Nbt.Err(Nbt.Incomplete(total, |s| - 4))
  {
    hide FromSigned, Nbt.ElementSize, Nbt.Elements;
  }

  /** Tags that there are not, and roots that are no compounds. */
  lemma WrongTags(tag: byte, s: seq<byte>)
    ensures tag > 12 ==> Nbt.ParseRoot([tag] + s) == Nbt.Err(Nbt.UnknownTag(tag))
    ensures tag > 12 ==> Nbt.ParseFields([tag] + s) == Nbt.Err(Nbt.UnknownTag(tag))
    ensures tag == 1 ==> Nbt.ParseRoot([tag] + s) == Nbt.Err(Nbt.ExpectedCompound(Nbt.TByte))
    ensures tag == 0 ==> Nbt.ParseRoot([tag] + s) == Nbt.Err(Nbt.ExpectedCompound(Nbt.TEnd))
  {
  }

  // ---- packed entries and positions ----

  /** The two arrays of the repository's tests. */
  lemma PackedEntries()
    ensures var data := [0x1234_5678_9ABC_DEF0];
            && Sections.ExtractPacked(data, 4, 0) == Some(0x0) && Sections.ExtractPacked(data, 4, 1) == Some(0xF)
            && Sections.ExtractPacked(data, 4, 2) == Some(0xE) && Sections.ExtractPacked(data, 4, 3) == Some(0xD)
    ensures var data := [-0x100_0000_0000_0000, 0xAB];
            Sections.ExtractPacked(data, 8, 7) == Some(0xFF) && Sections.ExtractPacked(data, 8, 8) == Some(0xAB)
  {
    hide *;
    var a, b := [0x1234_5678_9ABC_DEF0], [-0x100_0000_0000_0000, 0xAB];
    KnownWords();
    KnownPowers();
    EntryAt(a, 4, 0, 1);
    EntryAt(a, 4, 1, 0x10);
    EntryAt(a, 4, 2, 0x100);
    EntryAt(a, 4, 3, 0x1000);
    EntryAt(b, 8, 7, 0x100_0000_0000_0000);
    EntryAt(b, 8, 8, 0x1_0000_0000_0000_0000);
  }

  lemma KnownPowers()
    ensures Bits.Pow2(0) == 1 && Bits.Pow2(4) == 0x10 && Bits.Pow2(8) == 0x100 && Bits.Pow2(12) == 0x1000
    ensures Bits.Pow2(56) == 0x100_0000_0000_0000 && Bits.Pow2(64) == 0x1_0000_0000_0000_0000
  {
    Bits.Pow2Values();
    assert Bits.Pow2(0) == 1;
    hide Bits.Pow2;
    Bits.Pow2Add(28, 28);
  }

  lemma KnownWords()
    ensures Sections.Words([0x1234_5678_9ABC_DEF0]) == 0x1234_5678_9ABC_DEF0
    ensures Sections.Words([-0x100_0000_0000_0000, 0xAB]) == 0xAB_FF00_0000_0000_0000
  {
    hide Sections.Words;
    OneWord(0x1234_5678_9ABC_DEF0, []);
    OneWord(0xAB, []);
    OneWord(-0x100_0000_0000_0000, [0xAB]);
    assert [-0x100_0000_0000_0000] + [0xAB] == [-0x100_0000_0000_0000, 0xAB];
  }

  lemma EntryAt(data: seq<int>, bits: nat, i: nat, place: nat)
    requires 0 < bits <= 8 && i <= 8 && i * bits / 64 < |data| && Bits.Pow2(i * bits) == place
    ensures place > 0
    ensures Sections.ExtractPacked(data, bits, i) == Some(Sections.Words(data) / place % Bits.Pow2(bits))
  {
    hide Sections.ExtractPacked, Sections.Words, Bits.Pow2;
    Bits.Scale(i, 8, bits);
    Sections.ExtractExactly(data, bits, i);
  }

  lemma OneWord(w: int, more: seq<int>)
    ensures Sections.Words([w] + more) == Unsigned(W64, w) + 0x1_0000_0000_0000_0000 * Sections.Words(more)
    ensures Sections.Words([]) == 0
    ensures [w] + [] == [w]
  {
    Bits.Pow2Values();
    assert ([w] + more)[1..] == more;
  }

  lemma PositionBytes()
    ensures BlockPositions.Pack(1, 2, 3) == 0x40_0000_3002 && BlockPositions.Pack(0, -60, 0) == 0xFC4
  {
    BlockPositions.PackAsSum(1, 2, 3);
    BlockPositions.PackAsSum(0, -60, 0);
  }
}
