// A writer for worlds, as a specification: what is drawn in a chunk and stored in a region file is what is looked up.

module WrittenWorlds {
  import opened Common
  import opened Utf8
  import opened Nbt
  import NbtTheorems
  import Sections
  import opened Chunks
  import Regions
  import opened RegionWriter
  import NbtPanics
  import opened Worlds

  /** A section to be written: its height, the names in its palette, and an entry of it for every cell. */
  datatype Sketch = Sketch(y: int, names: seq<seq<byte>>, cells: seq<nat>)

  predicate Drawable(k: Sketch) {
    && FitsBytes(k.y, 1)
    && 0 < |k.names| <= 0x1_0000 && (forall i :: 0 <= i < |k.names| ==> Text(k.names[i]))
    && |k.cells| == Sections.BLOCKS_PER_SECTION && Sections.AllBelow(k.cells, |k.names|)
  }

  predicate AllDrawable(ks: seq<Sketch>) {
    forall i :: 0 <= i < |ks| ==> Drawable(ks[i])
  }

  // ---- as NBT ----

  function EntryValue(name: seq<byte>): Value {
    Compound([Field(Ascii("Name"), String(name))])
  }

  function Palette(names: seq<seq<byte>>): (vs: seq<Value>)
    ensures |vs| == |names|
  {
    seq(|names|, i requires 0 <= i < |names| => EntryValue(names[i]))
  }

  function Data(k: Sketch): seq<int> {
    Sections.Pack(k.cells, BitsPerBlock(|k.names|))
  }

  function States(k: Sketch): seq<Field> {
    [Field(Ascii("palette"), List(Palette(k.names))), Field(Ascii("data"), LongArray(Data(k)))]
  }

  function SectionValue(k: Sketch): Value {
    Compound([Field(Ascii("Y"), Byte(k.y)), Field(Ascii("block_states"), Compound(States(k)))])
  }

  function SectionValues(ks: seq<Sketch>): (vs: seq<Value>)
    ensures |vs| == |ks|
  {
    seq(|ks|, i requires 0 <= i < |ks| => SectionValue(ks[i]))
  }

  function ChunkFields(x: int, z: int, ks: seq<Sketch>): seq<Field> {
    [Field(Ascii("xPos"), Int(x)), Field(Ascii("zPos"), Int(z)), Field(Ascii("sections"), List(SectionValues(ks)))]
  }

  /** The file of a chunk before compression: a nameless root compound. */
  function ChunkBytes(x: int, z: int, ks: seq<Sketch>): seq<byte> {
    NbtTheorems.RootBytes([], NbtTheorems.PrintFields(ChunkFields(x, z, ks)))
  }

  // ---- what is written can be printed ----

  lemma AsciiText(s: string)
    requires |s| < 0x1_0000 && forall i :: 0 <= i < |s| ==> s[i] < 128 as char
    ensures Text(Ascii(s))
  {
    hide ValidUtf8;
    AsciiIsValid(Ascii(s));
  }

  lemma {:induction false} PrintableAll(vs: seq<Value>)
    requires forall i :: 0 <= i < |vs| ==> NbtTheorems.Printable(vs[i])
    ensures NbtTheorems.PrintableItems(vs)
    decreases |vs|
  {
    hide NbtTheorems.Printable;
    if vs != [] { PrintableAll(vs[1..]); }
  }

  lemma PrintableField(name: seq<byte>, v: Value, more: seq<Field>)
    requires Text(name) && NbtTheorems.Printable(v) && NbtTheorems.PrintableFields(more)
    ensures NbtTheorems.PrintableFields([Field(name, v)] + more)
  {
    hide Text, NbtTheorems.Printable;
    assert ([Field(name, v)] + more)[1..] == more;
  }

  lemma PrintablePalette(names: seq<seq<byte>>)
    requires 0 < |names| <= 0x1_0000 && forall i :: 0 <= i < |names| ==> Text(names[i])
    ensures NbtTheorems.Printable(List(Palette(names)))
  {
    hide Text, Ascii;
    var vs := Palette(names);
    AsciiText("Name");
    forall i | 0 <= i < |vs|
      ensures Tag(vs[i]) == TCompound && NbtTheorems.Printable(vs[i])
    {
      assert NbtTheorems.PrintableFields([]);
      PrintableField(Ascii("Name"), String(names[i]), []);
      assert [Field(Ascii("Name"), String(names[i]))] + [] == [Field(Ascii("Name"), String(names[i]))];
    }
    PrintableAll(vs);
  }

  lemma {:induction false} WordsFit(n: nat, k: nat)
    ensures AllFit(Sections.ToWords(n, k), 8)
  {
    if k > 0 {
      WordsFit(n / 0x1_0000_0000_0000_0000, k - 1);
      SignedResidue(W64, n);
      Pow256Values();
    }
  }

  lemma PrintableData(k: Sketch)
    ensures NbtTheorems.Printable(LongArray(Data(k)))
  {
    var bits := BitsPerBlock(|k.names|);
    assert bits <= 16;
    WordsFit(Sections.PackNumber(k.cells, bits, 0), 64 * bits);
  }

  lemma PrintableSection(k: Sketch)
    requires Drawable(k)
    ensures NbtTheorems.Printable(SectionValue(k))
  {
    PrintablePalette(k.names);
    ByteFits(k.y);
    PrintableParts(k);
  }

  lemma PrintableParts(k: Sketch)
    requires NbtTheorems.Printable(List(Palette(k.names))) && NbtTheorems.Printable(Byte(k.y))
    ensures NbtTheorems.Printable(SectionValue(k))
  {
    hide *;
    PrintableData(k);
    assert Text(Ascii("palette")) && Text(Ascii("data")) by { AsciiText("palette"); AsciiText("data"); }
    assert Text(Ascii("Y")) && Text(Ascii("block_states")) by { AsciiText("Y"); AsciiText("block_states"); }
    assert NbtTheorems.Printable(Compound(States(k))) by {
      TwoFields(Ascii("palette"), List(Palette(k.names)), Ascii("data"), LongArray(Data(k)));
      StatesAre(k);
      PrintableCompound(States(k));
    }
    TwoFields(Ascii("Y"), Byte(k.y), Ascii("block_states"), Compound(States(k)));
    SectionIs(k);
    PrintableCompound([Field(Ascii("Y"), Byte(k.y)), Field(Ascii("block_states"), Compound(States(k)))]);
  }

  lemma ByteFits(y: int)
    requires FitsBytes(y, 1)
    ensures NbtTheorems.Printable(Byte(y))
  {
  }

  lemma StatesAre(k: Sketch)
    ensures States(k) == [Field(Ascii("palette"), List(Palette(k.names))), Field(Ascii("data"), LongArray(Data(k)))]
  {
  }

  lemma SectionIs(k: Sketch)
    ensures SectionValue(k) == Compound([Field(Ascii("Y"), Byte(k.y)), Field(Ascii("block_states"), Compound(States(k)))])
  {
  }

  lemma TwoFields(a: seq<byte>, v: Value, b: seq<byte>, w: Value)
    requires Text(a) && NbtTheorems.Printable(v) && Text(b) && NbtTheorems.Printable(w)
    ensures NbtTheorems.PrintableFields([Field(a, v), Field(b, w)])
  {
    assert NbtTheorems.PrintableFields([]);
    hide Text, NbtTheorems.Printable, NbtTheorems.PrintableFields;
    PrintableField(b, w, []);
    assert [Field(b, w)] + [] == [Field(b, w)];
    PrintableField(a, v, [Field(b, w)]);
    assert [Field(a, v)] + [Field(b, w)] == [Field(a, v), Field(b, w)];
  }

  lemma PrintableCompound(fields: seq<Field>)
    requires NbtTheorems.PrintableFields(fields)
    ensures NbtTheorems.Printable(Compound(fields))
  {
  }

  lemma PrintableChunk(x: int, z: int, ks: seq<Sketch>)
    requires InRange(W32, x) && InRange(W32, z) && |ks| < 0x8000_0000 && AllDrawable(ks)
    ensures NbtTheorems.PrintableFields(ChunkFields(x, z, ks))
  {
    hide Text, Ascii, SectionValue, Drawable;
    var vs := SectionValues(ks);
    forall i | 0 <= i < |vs|
      ensures Tag(vs[i]) == TCompound && NbtTheorems.Printable(vs[i])
    {
      SectionIsCompound(ks[i]);
      PrintableSection(ks[i]);
    }
    PrintableAll(vs);
    assert NbtTheorems.Printable(List(vs));
    Pow256Values();
    assert NbtTheorems.Printable(Int(x)) && NbtTheorems.Printable(Int(z));
    AsciiText("xPos");
    AsciiText("zPos");
    AsciiText("sections");
    hide NbtTheorems.Printable, NbtTheorems.PrintableFields;
    TwoFields(Ascii("zPos"), Int(z), Ascii("sections"), List(vs));
    PrintableField(Ascii("xPos"), Int(x), [Field(Ascii("zPos"), Int(z)), Field(Ascii("sections"), List(vs))]);
    assert [Field(Ascii("xPos"), Int(x))] + [Field(Ascii("zPos"), Int(z)), Field(Ascii("sections"), List(vs))] == ChunkFields(x, z, ks);
  }

  lemma SectionIsCompound(k: Sketch)
    ensures SectionValue(k).Compound?
  {
  }

  // ---- what is written is what is looked up ----

  /** The first sketch at this height. */
  function FirstAt(ks: seq<Sketch>, y: int): (i: nat)
    ensures i <= |ks| && (i < |ks| ==> ks[i].y == y)
    ensures forall j :: 0 <= j < i ==> ks[j].y != y
  {
    if ks == [] || ks[0].y == y then 0 else 1 + FirstAt(ks[1..], y)
  }

  /** The name drawn at a position; air where nothing is drawn. */
  function DrawnName(ks: seq<Sketch>, wx: int, wy: int, wz: int): seq<byte>
    requires AllDrawable(ks)
  {
    var i := FirstAt(ks, SectionOf(wy));
    if i == |ks| then Sections.AIR_NAME
    else
      assert Drawable(ks[i]);
      ks[i].names[ks[i].cells[256 * (wy % 16) + 16 * (wz % 16) + wx % 16]]
  }

  lemma Described(k: Sketch)
    requires Drawable(k)
    ensures DescribesSection(SectionValue(k), k.y, Palette(k.names), k.cells)
  {
    hide Find, Sections.Pack, BitsPerBlock, Sections.AllBelow;
    assert |Ascii("palette")| != |Ascii("data")| && |Ascii("Y")| != |Ascii("block_states")|;
    FindInTwo(Ascii("palette"), List(Palette(k.names)), Ascii("data"), LongArray(Data(k)));
    FindInTwo(Ascii("Y"), Byte(k.y), Ascii("block_states"), Compound(States(k)));
    assert HoldsCells(States(k), Data(k), Palette(k.names), k.cells);
  }

  /** A section's `Y` is its sketch's height. */
  lemma HeightOfSection(k: Sketch)
    requires Drawable(k)
    ensures Get(SectionValue(k), Ascii("Y")) == Some(Byte(k.y))
    ensures ParseSection(SectionValue(k)).Some? && ParseSection(SectionValue(k)).value.y == k.y
  {
    hide Get, ParseSection, Palette, SectionValue, Drawable;
    Described(k);
    DescribedSection(SectionValue(k), k.y, Palette(k.names), k.cells);
  }

  lemma {:induction false} NothingDrawn(ks: seq<Sketch>, y: int)
    requires AllDrawable(ks) && forall i :: 0 <= i < |ks| ==> ks[i].y != y
    ensures SectionAt(ParseSections(SectionValues(ks)), y) == None
    decreases |ks|
  {
    hide ParseSection, SectionValue, Drawable;
    if ks != [] {
      HeightOfSection(ks[0]);
      assert SectionValues(ks)[1..] == SectionValues(ks[1..]);
      NothingDrawn(ks[1..], y);
      var later := ParseSections(SectionValues(ks[1..]));
      var first := ParseSection(SectionValue(ks[0])).value;
      assert ([first] + later)[1..] == later;
    }
  }

  /** The lookups in a written chunk's root compound. */
  lemma ChunkLookups(x: int, z: int, ks: seq<Sketch>)
    ensures var v := Compound(ChunkFields(x, z, ks));
            && GetInt(v, Ascii("xPos")) == Some(x) && GetInt(v, Ascii("zPos")) == Some(z)
            && GetList(v, Ascii("sections")) == Some(SectionValues(ks))
  {
    assert Ascii("xPos")[0] != Ascii("zPos")[0] && |Ascii("xPos")| != |Ascii("sections")| && |Ascii("zPos")| != |Ascii("sections")|;
    hide Find, Ascii, SectionValues;
    var px, pz, ps := Field(Ascii("xPos"), Int(x)), Field(Ascii("zPos"), Int(z)), Field(Ascii("sections"), List(SectionValues(ks)));
    assert [px] + [pz, ps] == ChunkFields(x, z, ks);
    FindFirst(px.name, px.value, [pz, ps], Ascii("xPos"));
    FindFirst(px.name, px.value, [pz, ps], Ascii("zPos"));
    FindFirst(px.name, px.value, [pz, ps], Ascii("sections"));
    FindInTwo(pz.name, pz.value, ps.name, ps.value);
  }

  lemma DrawnInChunk(x: int, z: int, ks: seq<Sketch>, wx: int, wy: int, wz: int)
    requires AllDrawable(ks)
    ensures var v := Compound(ChunkFields(x, z, ks));
            FromNbt(v).Some? && GetBlockIn(FromNbt(v).value, wx, wy, wz) == Some(DrawnName(ks, wx, wy, wz))
  {
    hide SectionValue, Get, GetInt, GetList, ParseSections, SectionAt, Drawable, SectionOf, NameIn, Lowest;
    var v, y := Compound(ChunkFields(x, z, ks)), SectionOf(wy);
    var i := FirstAt(ks, y);
    ChunkLookups(x, z, ks);
    hide ChunkFields;
    if i < |ks| {
      DrawnInSection(x, z, ks, i, wx, wy, wz);
    } else {
      NothingDrawn(ks, y);
    }
  }

  lemma SketchDescribed(x: int, z: int, ks: seq<Sketch>, i: nat, y: int)
    requires AllDrawable(ks) && i < |ks| && i == FirstAt(ks, y)
    ensures DescribesChunk(Compound(ChunkFields(x, z, ks)), i, y, Palette(ks[i].names), ks[i].cells)
  {
    assert Drawable(ks[i]);
    hide SectionValue, Get, GetInt, GetList, Drawable, ChunkFields, DescribesSection, Ascii;
    ChunkLookups(x, z, ks);
    Described(ks[i]);
    forall j | 0 <= j < i
      ensures Get(SectionValues(ks)[j], Ascii("Y")) != Some(Byte(y))
    {
      HeightOfSection(ks[j]);
    }
    assert DescribesFirst(SectionValues(ks), i, y, Palette(ks[i].names), ks[i].cells);
  }

  lemma DrawnInSection(x: int, z: int, ks: seq<Sketch>, i: nat, wx: int, wy: int, wz: int)
    requires AllDrawable(ks) && i < |ks| && i == FirstAt(ks, SectionOf(wy))
    ensures var v := Compound(ChunkFields(x, z, ks));
            FromNbt(v).Some? && GetBlockIn(FromNbt(v).value, wx, wy, wz) == Some(DrawnName(ks, wx, wy, wz))
  {
    hide AllDrawable, DescribesChunk, FromNbt, GetBlockIn, ChunkFields, NameOf, EntryValue, SectionOf, Palette, AssignedName, DrawnName;
    SketchDescribed(x, z, ks, i, SectionOf(wy));
    DescribedBlock(Compound(ChunkFields(x, z, ks)), i, Palette(ks[i].names), ks[i].cells, wx, wy, wz);
    DrawnIsAssigned(ks, i, wx, wy, wz);
  }

  lemma DrawnIsAssigned(ks: seq<Sketch>, i: nat, wx: int, wy: int, wz: int)
    requires AllDrawable(ks) && i < |ks| && i == FirstAt(ks, SectionOf(wy))
    ensures DrawnName(ks, wx, wy, wz) == AssignedName(Palette(ks[i].names), ks[i].cells, wx, wy, wz)
  {
    hide SectionOf, NameOf, EntryValue;
    assert Drawable(ks[i]);
    var c := 256 * (wy % 16) + 16 * (wz % 16) + wx % 16;
    CellInSection(wx % 16, wy % 16, wz % 16);
    assert ks[i].cells[c] < |ks[i].names|;
    NameOfEntry(ks[i].names[ks[i].cells[c]]);
  }

  lemma CellInSection(x: nat, y: nat, z: nat)
    requires x < 16 && y < 16 && z < 16
    ensures 256 * y + 16 * z + x < Sections.BLOCKS_PER_SECTION
  {
  }

  lemma NameOfEntry(name: seq<byte>)
    ensures NameOf(EntryValue(name)) == name
  {
  }

  // ---- as region files ----

  /** The compressors. */
  datatype Press = Press(gzip: seq<byte> -> seq<byte>, deflate: seq<byte> -> seq<byte>)

  ghost predicate Undoes(codec: Regions.Codec, press: Press) {
    forall s :: codec.gunzip(press.gzip(s)) == Some(s) && codec.inflate(press.deflate(s)) == Some(s)
  }

  function Pressed(press: Press, kind: byte, s: seq<byte>): seq<byte> {
    match kind
    case 1 => press.gzip(s)
    case 2 => press.deflate(s)
    case _ => s
  }

  lemma PressedBack(codec: Regions.Codec, press: Press, kind: byte, s: seq<byte>)
    requires Undoes(codec, press) && 1 <= kind <= 3
    ensures Regions.Decompressed(codec, kind, Pressed(press, kind, s)) == Success(s)
  {
  }

  /** Given a byte too many, a decompressor ignores it or fails. */
  ghost predicate Careful(codec: Regions.Codec, press: Press) {
    && (forall s, b: byte :: codec.gunzip(press.gzip(s) + [b]) == Some(s) || codec.gunzip(press.gzip(s) + [b]) == None)
    && (forall s, b: byte :: codec.inflate(press.deflate(s) + [b]) == Some(s) || codec.inflate(press.deflate(s) + [b]) == None)
  }

  lemma PressedAndMore(codec: Regions.Codec, press: Press, kind: byte, s: seq<byte>, b: byte) returns (rest: seq<byte>)
    requires Careful(codec, press) && 1 <= kind <= 3
    ensures var r := Regions.Decompressed(codec, kind, Pressed(press, kind, s) + [b]);
            r == Success(s + rest) || (r == Failure(Regions.Io) && kind != 3)
  {
    rest := if kind == 3 then [b] else [];
    assert s + [] == s;
  }

  /**
   * A chunk of a world to be written: where it lies, when it was changed, how it is compressed, what is drawn in it, and
   * whether its length is counted as in the standard layout.
   */
  datatype Plot = Plot(cx: int, cz: int, time: nat, kind: byte, sketches: seq<Sketch>, standard: bool)

  function StoredOf(p: Plot, press: Press): Stored {
    Stored(EntryOf(p.cx, p.cz), p.time, p.kind, Pressed(press, p.kind, ChunkBytes(p.cx, p.cz, p.sketches)), p.standard)
  }

  /** The compressors can be undone; and if anything is in the standard layout, with a byte too many as well. */
  ghost predicate Suits(codec: Regions.Codec, press: Press, plots: seq<Plot>) {
    Undoes(codec, press) && (Careful(codec, press) || forall i :: 0 <= i < |plots| ==> !plots[i].standard)
  }

  predicate Plottable(p: Plot, press: Press) {
    && InRange(W32, p.cx) && InRange(W32, p.cz) && p.time < 0x1_0000_0000 && 1 <= p.kind <= 3
    && |p.sketches| < 0x8000_0000 && AllDrawable(p.sketches)
    && Length(StoredOf(p, press)) < 0x1_0000_0000
  }

  predicate AllPlottable(plots: seq<Plot>, press: Press) {
    forall i :: 0 <= i < |plots| ==> Plottable(plots[i], press)
  }

  function RegionKey(p: Plot): (int, int) {
    (RegionOf(p.cx), RegionOf(p.cz))
  }

  /** The chunks of one region. */
  function InRegion(plots: seq<Plot>, key: (int, int), press: Press): seq<Stored> {
    if plots == [] then []
    else (if RegionKey(plots[0]) == key then [StoredOf(plots[0], press)] else []) + InRegion(plots[1..], key, press)
  }

  function Files(keys: seq<(int, int)>, plots: seq<Plot>, press: Press): Regions.Directory {
    if keys == [] then map[]
    else Files(keys[1..], plots, press)[Regions.RegionName(keys[0].0, keys[0].1) := RegionBytes(InRegion(plots, keys[0], press))]
  }

  function Keys(plots: seq<Plot>): (keys: seq<(int, int)>)
    ensures |keys| == |plots|
  {
    seq(|plots|, i requires 0 <= i < |plots| => RegionKey(plots[i]))
  }

  /** A world: one file for each region that a chunk lies in. */
  function WorldFiles(plots: seq<Plot>, press: Press): Regions.Directory {
    Files(Keys(plots), plots, press)
  }

  /** No file has more sectors than a location can number. */
  predicate AllNumberable(plots: seq<Plot>, press: Press) {
    forall i :: 0 <= i < |plots| ==> Numberable(InRegion(plots, RegionKey(plots[i]), press))
  }

  predicate IsKey(key: (int, int)) {
    InRange(W32, key.0) && InRange(W32, key.1)
  }

  lemma NamesDiffer(a: (int, int), b: (int, int))
    requires IsKey(a) && IsKey(b) && Regions.RegionName(a.0, a.1) == Regions.RegionName(b.0, b.1)
    ensures a == b
  {
    hide Regions.RegionName, Regions.CoordinatesOf;
    Regions.NameBack(a.0, a.1);
    Regions.NameBack(b.0, b.1);
  }

  lemma {:induction false} FilesAt(keys: seq<(int, int)>, plots: seq<Plot>, press: Press, key: (int, int))
    requires IsKey(key) && forall i :: 0 <= i < |keys| ==> IsKey(keys[i])
    ensures var name := Regions.RegionName(key.0, key.1);
            && (name in Files(keys, plots, press) <==> key in keys)
            && (key in keys ==> Files(keys, plots, press)[name] == RegionBytes(InRegion(plots, key, press)))
    decreases |keys|
  {
    hide Regions.RegionName, RegionBytes, InRegion;
    if keys != [] {
      FilesAt(keys[1..], plots, press, key);
      if Regions.RegionName(keys[0].0, keys[0].1) == Regions.RegionName(key.0, key.1) { NamesDiffer(keys[0], key); }
      assert key in keys <==> key == keys[0] || key in keys[1..];
    }
  }

  /** The first plot of a chunk. */
  function PlotAt(plots: seq<Plot>, cx: int, cz: int): (i: nat)
    ensures i <= |plots| && (i < |plots| ==> plots[i].cx == cx && plots[i].cz == cz)
    ensures forall j :: 0 <= j < i ==> plots[j].cx != cx || plots[j].cz != cz
  {
    if plots == [] || (plots[0].cx == cx && plots[0].cz == cz) then 0 else 1 + PlotAt(plots[1..], cx, cz)
  }

  /** Among the chunks of its region, a chunk is found by its entry. */
  lemma {:induction false} FoundInRegion(plots: seq<Plot>, cx: int, cz: int, press: Press)
    requires InRange(W32, cx) && InRange(W32, cz) && AllPlottable(plots, press)
    ensures var sts, i := InRegion(plots, (RegionOf(cx), RegionOf(cz)), press), PlotAt(plots, cx, cz);
            var k := FirstWith(sts, EntryOf(cx, cz));
            && (k < |sts| <==> i < |plots|)
            && (i < |plots| ==> sts[k] == StoredOf(plots[i], press))
    decreases |plots|
  {
    hide *;
    var key := (RegionOf(cx), RegionOf(cz));
    if plots == [] {
      NothingInRegion(cx, cz, key, press);
    } else {
      var p := plots[0];
      PlottableFirst(plots, press);
      FoundInRegion(plots[1..], cx, cz, press);
      PlotAtFirst(plots, cx, cz);
      InRegionFirst(plots, key, press);
      EntryStored(p, press);
      if RegionKey(p) == key {
        FirstWithStep(StoredOf(p, press), InRegion(plots[1..], key, press), EntryOf(cx, cz));
        if EntryOf(p.cx, p.cz) == EntryOf(cx, cz) { SameChunk(p, cx, cz, press); }
      } else {
        assert p.cx != cx || p.cz != cz by { KeyOf(p); }
      }
    }
  }

  lemma NothingInRegion(cx: int, cz: int, key: (int, int), press: Press)
    ensures InRegion([], key, press) == [] && PlotAt([], cx, cz) == 0 && FirstWith([], EntryOf(cx, cz)) == 0
  {
  }

  lemma PlottableFirst(plots: seq<Plot>, press: Press)
    requires AllPlottable(plots, press) && plots != []
    ensures Plottable(plots[0], press) && AllPlottable(plots[1..], press)
  {
    hide Plottable;
  }

  lemma KeyOf(p: Plot)
    ensures RegionKey(p) == (RegionOf(p.cx), RegionOf(p.cz))
  {
  }

  lemma InRegionFirst(plots: seq<Plot>, key: (int, int), press: Press)
    requires plots != []
    ensures var more := InRegion(plots[1..], key, press);
            InRegion(plots, key, press) == if RegionKey(plots[0]) == key then [StoredOf(plots[0], press)] + more else more
  {
    hide StoredOf, RegionKey;
    assert [] + InRegion(plots[1..], key, press) == InRegion(plots[1..], key, press);
  }

  lemma PlotAtFirst(plots: seq<Plot>, cx: int, cz: int)
    requires plots != []
    ensures PlotAt(plots, cx, cz) == if plots[0].cx == cx && plots[0].cz == cz then 0 else 1 + PlotAt(plots[1..], cx, cz)
  {
  }

  lemma FirstWithStep(st: Stored, more: seq<Stored>, entry: nat)
    ensures FirstWith([st] + more, entry) == if st.entry == entry then 0 else 1 + FirstWith(more, entry)
  {
    assert ([st] + more)[1..] == more;
  }

  lemma EntryStored(p: Plot, press: Press)
    ensures StoredOf(p, press).entry == EntryOf(p.cx, p.cz)
  {
  }

  lemma SameChunk(p: Plot, cx: int, cz: int, press: Press)
    requires Plottable(p, press) && InRange(W32, cx) && InRange(W32, cz)
    requires RegionKey(p) == (RegionOf(cx), RegionOf(cz)) && EntryOf(p.cx, p.cz) == EntryOf(cx, cz)
    ensures p.cx == cx && p.cz == cz
  {
    hide Regions.RegionName, RegionOf, EntryOf;
    AddressesDiffer(p.cx, p.cz, cx, cz);
  }

  lemma {:induction false} RegionStorable(plots: seq<Plot>, key: (int, int), press: Press)
    requires AllPlottable(plots, press)
    ensures AllStorable(InRegion(plots, key, press))
    decreases |plots|
  {
    hide Storable, Plottable;
    if plots != [] {
      RegionStorable(plots[1..], key, press);
      PlotStorable(plots[0], press);
    }
  }

  lemma PlotStorable(p: Plot, press: Press)
    requires Plottable(p, press)
    ensures Storable(StoredOf(p, press))
  {
    hide ChunkBytes, Pressed;
  }

  lemma KeysAreKeys(plots: seq<Plot>, press: Press)
    requires AllPlottable(plots, press)
    ensures forall i :: 0 <= i < |plots| ==> IsKey(Keys(plots)[i])
  {
    hide RegionOf;
    forall i | 0 <= i < |plots|
      ensures IsKey(Keys(plots)[i])
    {
      assert Plottable(plots[i], press);
      RegionOfIsFloor(plots[i].cx);
      RegionOfIsFloor(plots[i].cz);
    }
  }

  /** In a written world: the file of a chunk's region, if there is one. */
  lemma FileOfChunk(plots: seq<Plot>, press: Press, cx: int, cz: int)
    requires InRange(W32, cx) && InRange(W32, cz) && AllPlottable(plots, press) && AllNumberable(plots, press)
    ensures var name, key := Regions.RegionName(RegionOf(cx), RegionOf(cz)), (RegionOf(cx), RegionOf(cz));
            && (PlotAt(plots, cx, cz) < |plots| ==> name in WorldFiles(plots, press))
            && (name in WorldFiles(plots, press) ==>
                  WorldFiles(plots, press)[name] == RegionBytes(InRegion(plots, key, press)) && Numberable(InRegion(plots, key, press)))
  {
    hide Regions.RegionName, RegionBytes, InRegion, Numberable, RegionOf, Plottable, AllPlottable;
    KeysAreKeys(plots, press);
    RegionOfIsFloor(cx);
    RegionOfIsFloor(cz);
    var key := (RegionOf(cx), RegionOf(cz));
    FilesAt(Keys(plots), plots, press, key);
    var i := PlotAt(plots, cx, cz);
    if i < |plots| { assert Keys(plots)[i] == key; }
    if key in Keys(plots) {
      var k :| 0 <= k < |plots| && Keys(plots)[k] == key;
      assert RegionKey(plots[k]) == key;
    }
  }

  /**
   * A plot that can be read back: in the standard layout, exactly if one more byte follows its own and its decompressor
   * does not mind it.
   */
  predicate ReadsBack(plots: seq<Plot>, press: Press, codec: Regions.Codec, i: nat)
    requires i < |plots|
  {
    var p := plots[i];
    !p.standard
    || (var sts := InRegion(plots, RegionKey(p), press);
        var k := FirstWith(sts, EntryOf(p.cx, p.cz));
        k < |sts| && NextByte(sts, k).Some?
        && Regions.Decompressed(codec, p.kind, StoredOf(p, press).raw + [NextByte(sts, k).value]).Success?)
  }

  /** What the loader takes from a plot's entry. */
  lemma PlotTaken(plots: seq<Plot>, press: Press, cx: int, cz: int)
    requires InRange(W32, cx) && InRange(W32, cz) && AllPlottable(plots, press) && AllNumberable(plots, press)
    requires PlotAt(plots, cx, cz) < |plots|
    ensures var dir, name := WorldFiles(plots, press), Regions.RegionName(RegionOf(cx), RegionOf(cz));
            var sts, p := InRegion(plots, (RegionOf(cx), RegionOf(cz)), press), plots[PlotAt(plots, cx, cz)];
            var k := FirstWith(sts, EntryOf(cx, cz));
            && k < |sts| && sts[k] == StoredOf(p, press)
            && name in dir && |dir[name]| >= Regions.HEADER && EntryOf(cx, cz) < Regions.CHUNKS
            && var location := Regions.Table(dir[name], 0)[EntryOf(cx, cz)];
            && location != 0
            && Regions.StoredAt(dir[name], Regions.SectorStart(location)) == Taken(sts, k)
            && Regions.Table(dir[name], 4096)[EntryOf(cx, cz)] == p.time
  {
    var key := (RegionOf(cx), RegionOf(cz));
    assert EntryOf(cx, cz) < Regions.CHUNKS;
    hide Regions.RegionName, RegionBytes, InRegion, Numberable, RegionOf, EntryOf, WorldFiles, AllPlottable, StoredOf, Taken,
      AllNumberable, AllStorable, Regions.Table, Regions.StoredAt, Regions.SectorStart, PlotAt, FirstWith;
    FileOfChunk(plots, press, cx, cz);
    RegionStorable(plots, key, press);
    FoundInRegion(plots, cx, cz, press);
    RegionHolds(InRegion(plots, key, press), EntryOf(cx, cz));
  }

  /** A plot that reads back is loaded under its coordinates, with what was drawn and the time it was given. */
  lemma PlotLoads(plots: seq<Plot>, press: Press, codec: Regions.Codec, cx: int, cz: int)
    requires InRange(W32, cx) && InRange(W32, cz) && AllPlottable(plots, press) && AllNumberable(plots, press)
    requires Suits(codec, press, plots) && PlotAt(plots, cx, cz) < |plots| && ReadsBack(plots, press, codec, PlotAt(plots, cx, cz))
    ensures var region, p := Regions.Opened(WorldFiles(plots, press), Regions.RegionName(RegionOf(cx), RegionOf(cz))),
                             plots[PlotAt(plots, cx, cz)];
            && region.Success?
            && Regions.Load(region.value, codec, cx, cz)
               == Success(Regions.RegionChunk(cx, cz, Compound(ChunkFields(cx, cz, p.sketches)), p.time))
  {
    var p := plots[PlotAt(plots, cx, cz)];
    assert Plottable(p, press);
    assert |p.sketches| < 0x8000_0000 && AllDrawable(p.sketches);
    hide *;
    var rest := PlotIsStored(plots, press, codec, cx, cz);
    DrawnChunkBegins(cx, cz, p.sketches, rest);
    PlotTaken(plots, press, cx, cz);
    StoredLoads(WorldFiles(plots, press), codec, cx, cz, ChunkBytes(cx, cz, p.sketches) + rest, ChunkFields(cx, cz, p.sketches));
  }

  lemma StoredLoads(dir: Regions.Directory, codec: Regions.Codec, cx: int, cz: int, s: seq<byte>, fields: seq<Field>)
    requires InRange(W32, cx) && InRange(W32, cz) && IsStored(dir, codec, cx, cz, s) && BeginsWith(s, fields)
    ensures var name := Regions.RegionName(RegionOf(cx), RegionOf(cz));
            && name in dir && |dir[name]| >= Regions.HEADER && EntryOf(cx, cz) < Regions.CHUNKS
            && Regions.Opened(dir, name).Success?
            && Regions.Load(Regions.Opened(dir, name).value, codec, cx, cz)
               == Success(Regions.RegionChunk(cx, cz, Compound(fields), Regions.Table(dir[name], 4096)[EntryOf(cx, cz)]))
  {
    BeginsReads(s, fields);
    hide Regions.RegionName, RegionOf, Regions.Table, ParseRoot, Regions.LocalIndex, EntryOf, BeginsWith, Regions.CoordinatesOf,
      Regions.StoredAt, Regions.SectorStart, Regions.Decompressed;
    IndexOfChunk(dir, cx, cz);
  }

  /** What is stored for a plot that reads back: the bytes of its chunk, and perhaps one more. */
  lemma PlotIsStored(plots: seq<Plot>, press: Press, codec: Regions.Codec, cx: int, cz: int) returns (rest: seq<byte>)
    requires InRange(W32, cx) && InRange(W32, cz) && AllPlottable(plots, press) && AllNumberable(plots, press)
    requires Suits(codec, press, plots) && PlotAt(plots, cx, cz) < |plots| && ReadsBack(plots, press, codec, PlotAt(plots, cx, cz))
    ensures IsStored(WorldFiles(plots, press), codec, cx, cz, ChunkBytes(cx, cz, plots[PlotAt(plots, cx, cz)].sketches) + rest)
  {
    var i := PlotAt(plots, cx, cz);
    var p := plots[i];
    var sts := InRegion(plots, RegionKey(p), press);
    var k := FirstWith(sts, EntryOf(cx, cz));
    assert Plottable(p, press);
    hide Regions.RegionName, InRegion, RegionOf, EntryOf, ChunkBytes, Pressed, Careful, Undoes, WorldFiles, AllPlottable,
      AllNumberable, IsStored, Regions.Table, Regions.StoredAt, Regions.SectorStart, Regions.Decompressed, PlotAt, FirstWith, NextByte;
    PlotTaken(plots, press, cx, cz);
    var s := ChunkBytes(cx, cz, p.sketches);
    if p.standard {
      rest := PressedAndMore(codec, press, p.kind, s, NextByte(sts, k).value);
    } else {
      rest := [];
      assert s + [] == s;
      PressedBack(codec, press, p.kind, s);
    }
    TakenIsStored(WorldFiles(plots, press), codec, cx, cz, s + rest);
  }

  /** A chunk that can be read from its entry. */
  lemma TakenIsStored(dir: Regions.Directory, codec: Regions.Codec, cx: int, cz: int, s: seq<byte>)
    requires InRange(W32, cx) && InRange(W32, cz) && EntryOf(cx, cz) < Regions.CHUNKS
    requires var name := Regions.RegionName(RegionOf(cx), RegionOf(cz));
             && name in dir && |dir[name]| >= Regions.HEADER
             && var location := Regions.Table(dir[name], 0)[EntryOf(cx, cz)];
             && location != 0
             && var stored := Regions.StoredAt(dir[name], Regions.SectorStart(location));
             stored.Some? && Regions.Decompressed(codec, stored.value.0, stored.value.1) == Success(s)
    ensures IsStored(dir, codec, cx, cz, s)
  {
    hide Regions.RegionName, RegionOf, EntryOf, Regions.Table, Regions.StoredAt, Regions.SectorStart, Regions.Decompressed;
  }

  lemma PlotUnreadable(plots: seq<Plot>, press: Press, codec: Regions.Codec, cx: int, cz: int)
    requires InRange(W32, cx) && InRange(W32, cz) && AllPlottable(plots, press) && AllNumberable(plots, press)
    requires Suits(codec, press, plots) && PlotAt(plots, cx, cz) < |plots| && !ReadsBack(plots, press, codec, PlotAt(plots, cx, cz))
    ensures Lookup(WorldFiles(plots, press), codec, cx, cz) == Nothing
  {
    var i := PlotAt(plots, cx, cz);
    var p := plots[i];
    var sts := InRegion(plots, RegionKey(p), press);
    var k := FirstWith(sts, EntryOf(cx, cz));
    assert Plottable(p, press);
    hide Regions.RegionName, InRegion, RegionOf, EntryOf, ChunkBytes, Pressed, Careful, Undoes, WorldFiles, AllPlottable, Lookup,
      AllNumberable, Regions.Table, Regions.StoredAt, Regions.SectorStart, Regions.Decompressed, PlotAt, FirstWith, NextByte;
    PlotTaken(plots, press, cx, cz);
    if NextByte(sts, k).Some? {
      var _ := PressedAndMore(codec, press, p.kind, ChunkBytes(cx, cz, p.sketches), NextByte(sts, k).value);
    }
    NothingTaken(WorldFiles(plots, press), codec, cx, cz);
  }

  /** A chunk that has an entry but cannot be read from it. */
  lemma NothingTaken(dir: Regions.Directory, codec: Regions.Codec, cx: int, cz: int)
    requires InRange(W32, cx) && InRange(W32, cz) && EntryOf(cx, cz) < Regions.CHUNKS
    requires var name := Regions.RegionName(RegionOf(cx), RegionOf(cz));
             && name in dir && |dir[name]| >= Regions.HEADER
             && var location := Regions.Table(dir[name], 0)[EntryOf(cx, cz)];
             && location != 0
             && var stored := Regions.StoredAt(dir[name], Regions.SectorStart(location));
             stored.Some? ==> Regions.Decompressed(codec, stored.value.0, stored.value.1) == Failure(Regions.Io)
    ensures Lookup(dir, codec, cx, cz) == Nothing
  {
    hide Regions.RegionName, RegionOf, EntryOf, Regions.Table, Regions.StoredAt, Regions.SectorStart, Regions.Decompressed,
      Regions.LocalIndex, Regions.CoordinatesOf, ParseRoot, FromNbt;
    IndexOfChunk(dir, cx, cz);
  }

  lemma NothingPlotted(plots: seq<Plot>, press: Press, codec: Regions.Codec, cx: int, cz: int)
    requires InRange(W32, cx) && InRange(W32, cz) && AllPlottable(plots, press) && AllNumberable(plots, press)
    requires PlotAt(plots, cx, cz) == |plots|
    ensures Lookup(WorldFiles(plots, press), codec, cx, cz) == Nothing
  {
    var dir, name, key := WorldFiles(plots, press), Regions.RegionName(RegionOf(cx), RegionOf(cz)), (RegionOf(cx), RegionOf(cz));
    assert EntryOf(cx, cz) < Regions.CHUNKS;
    hide Regions.RegionName, RegionBytes, InRegion, Numberable, RegionOf, EntryOf, WorldFiles, AllPlottable, AllNumberable,
      AllStorable, Regions.Table, Regions.LocalIndex, PlotAt, FirstWith, Regions.CoordinatesOf;
    FileOfChunk(plots, press, cx, cz);
    if name in dir {
      RegionStorable(plots, key, press);
      FoundInRegion(plots, cx, cz, press);
      RegionHolds(InRegion(plots, key, press), EntryOf(cx, cz));
      IndexOfChunk(dir, cx, cz);
    }
  }

  /** The name drawn at a position of the world; air where nothing is drawn. */
  function WorldName(plots: seq<Plot>, press: Press, wx: int, wy: int, wz: int): seq<byte>
    requires AllPlottable(plots, press)
  {
    var i := PlotAt(plots, ChunkOf(wx), ChunkOf(wz));
    if i == |plots| then Sections.AIR_NAME
    else
      assert Plottable(plots[i], press);
      DrawnName(plots[i].sketches, wx, wy, wz)
  }

  lemma DrawnChunkBegins(x: int, z: int, ks: seq<Sketch>, rest: seq<byte>)
    requires InRange(W32, x) && InRange(W32, z) && |ks| < 0x8000_0000 && AllDrawable(ks)
    ensures BeginsWith(ChunkBytes(x, z, ks) + rest, ChunkFields(x, z, ks))
  {
    var s, fields := ChunkBytes(x, z, ks), ChunkFields(x, z, ks);
    PrintableChunk(x, z, ks);
    assert Text([]);
    hide Text, ChunkFields, AllDrawable, NbtTheorems.PrintFields, NbtTheorems.PrintableFields, SpellsFields;
    NbtTheorems.PrintFieldsSpells(fields);
    assert IsRoot(s + rest, [], NbtTheorems.PrintFields(fields), rest, fields);
  }

  /**
   * Draw any sections in any chunks, compress each chunk in any of the three ways, and write them to their region files:
   * then at every position of the world the name found is the one drawn, and nothing is found where air, no name or
   * nothing at all was drawn, nor in a chunk in the standard layout that does not read back.
   */
  lemma WrittenWorldReadsBack(plots: seq<Plot>, press: Press, codec: Regions.Codec, wx: int, wy: int, wz: int)
    requires AllPlottable(plots, press) && AllNumberable(plots, press) && Suits(codec, press, plots)
    requires InRange(W32, wx) && InRange(W32, wz)
    ensures var i, name := PlotAt(plots, ChunkOf(wx), ChunkOf(wz)), WorldName(plots, press, wx, wy, wz);
            BlockName(Lookup(WorldFiles(plots, press), codec, ChunkOf(wx), ChunkOf(wz)), wx, wy, wz)
            == if (i < |plots| && !ReadsBack(plots, press, codec, i)) || NoBlock(name) then Nothing
               else Found(name)
  {
    var cx, cz := ChunkOf(wx), ChunkOf(wz);
    var i := PlotAt(plots, cx, cz);
    hide Lookup, WorldFiles, AllPlottable, AllNumberable, PlotAt, ChunkOf, ReadsBack, Suits, Plottable, DrawnName;
    if i == |plots| {
      NothingPlotted(plots, press, codec, cx, cz);
    } else {
      assert Plottable(plots[i], press) by { PlotPlottable(plots, press, i); }
      if ReadsBack(plots, press, codec, i) {
        PlotReadsBack(plots, press, codec, i, wx, wy, wz);
      } else {
        PlotUnreadable(plots, press, codec, cx, cz);
      }
    }
  }

  lemma PlotPlottable(plots: seq<Plot>, press: Press, i: nat)
    requires AllPlottable(plots, press) && i < |plots|
    ensures Plottable(plots[i], press)
  {
  }

  lemma PlotReadsBack(plots: seq<Plot>, press: Press, codec: Regions.Codec, i: nat, wx: int, wy: int, wz: int)
    requires AllPlottable(plots, press) && AllNumberable(plots, press) && Suits(codec, press, plots)
    requires InRange(W32, wx) && InRange(W32, wz) && i < |plots| && i == PlotAt(plots, ChunkOf(wx), ChunkOf(wz))
    requires Plottable(plots[i], press) && ReadsBack(plots, press, codec, i)
    ensures var name := DrawnName(plots[i].sketches, wx, wy, wz);
            BlockName(Lookup(WorldFiles(plots, press), codec, ChunkOf(wx), ChunkOf(wz)), wx, wy, wz)
            == if NoBlock(name) then Nothing else Found(name)
  {
    var cx, cz, ks := ChunkOf(wx), ChunkOf(wz), plots[i].sketches;
    assert AllDrawable(ks);
    hide *;
    DrawnInChunk(cx, cz, ks, wx, wy, wz);
    PlotLookedUp(plots, press, codec, i, cx, cz);
    NameFound(FromNbt(Compound(ChunkFields(cx, cz, ks))).value, wx, wy, wz, DrawnName(ks, wx, wy, wz));
  }

  lemma PlotLookedUp(plots: seq<Plot>, press: Press, codec: Regions.Codec, i: nat, cx: int, cz: int)
    requires AllPlottable(plots, press) && AllNumberable(plots, press) && Suits(codec, press, plots)
    requires InRange(W32, cx) && InRange(W32, cz) && i < |plots| && i == PlotAt(plots, cx, cz) && Plottable(plots[i], press)
    requires ReadsBack(plots, press, codec, i) && FromNbt(Compound(ChunkFields(cx, cz, plots[i].sketches))).Some?
    ensures Lookup(WorldFiles(plots, press), codec, cx, cz) == Found(FromNbt(Compound(ChunkFields(cx, cz, plots[i].sketches))).value)
  {
    var ks := plots[i].sketches;
    assert |ks| < 0x8000_0000 && AllDrawable(ks);
    hide *;
    var rest := PlotIsStored(plots, press, codec, cx, cz);
    DrawnChunkBegins(cx, cz, ks, rest);
    LookupStored(WorldFiles(plots, press), codec, cx, cz, ChunkBytes(cx, cz, ks) + rest, ChunkFields(cx, cz, ks));
  }

  // ---- a file that makes the lookup panic ----

  /** The world in which one chunk's NBT is a list of length -1, in a region file that is otherwise in order. */
  function PoisonedWorld(cx: int, cz: int): Regions.Directory {
    map[Regions.RegionName(RegionOf(cx), RegionOf(cz)) := RegionBytes([Stored(EntryOf(cx, cz), 0, 3, NbtPanics.NEGATIVE_LIST, false)])]
  }

  lemma PoisonedLookupPanics(cx: int, cz: int, codec: Regions.Codec)
    requires InRange(W32, cx) && InRange(W32, cz)
    ensures Lookup(PoisonedWorld(cx, cz), codec, cx, cz) == Panicked
  {
    var st := Stored(EntryOf(cx, cz), 0, 3, NbtPanics.NEGATIVE_LIST, false);
    assert Storable(st);
    OneNumberable(st);
    hide Regions.RegionName, RegionBytes, RegionOf, EntryOf, Regions.Table, Regions.StoredAt, Regions.SectorStart, ParseRoot,
      Numberable, Storable, Lookup, NbtPanics.PoisonedRoot;
    RegionHolds([st], EntryOf(cx, cz));
    NbtPanics.NegativeListPanics();
    assert IsStored(PoisonedWorld(cx, cz), codec, cx, cz, NbtPanics.NEGATIVE_LIST);
    StoredPanics(PoisonedWorld(cx, cz), codec, cx, cz, NbtPanics.NEGATIVE_LIST);
  }

  lemma OneNumberable(st: Stored)
    requires |st.raw| < 0x1000
    ensures Numberable([st])
  {
    assert [st][1..] == [];
    assert Laid([st]) == Block(st) + [];
  }
}
