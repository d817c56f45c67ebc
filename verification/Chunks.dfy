// Chunks: what is taken from a chunk's NBT, and the block at a position of the world.

module Chunks {
  import opened Common
  import opened Bits
  import opened Decimals
  import opened Utf8
  import opened Nbt
  import opened Sections

  /** Block entities and heightmaps are not part of this model. */
  datatype Chunk =
    Chunk(x: int, z: int, dataVersion: int, status: seq<byte>, sections: seq<Section>, minY: int)

  // ---- looking up fields: the first one with the name decides ----

  function Find(fields: seq<Field>, key: seq<byte>): Option<Value> {
    if fields == [] then None
    else if fields[0].name == key then Some(fields[0].value)
    else Find(fields[1..], key)
  }

  function Get(v: Value, key: seq<byte>): Option<Value> {
    if v.Compound? then Find(v.fields, key) else None
  }

  function GetInt(v: Value, key: seq<byte>): Option<int> {
    match Get(v, key)
    case Some(Int(n)) => Some(n)
    case _ => None
  }

  function GetString(v: Value, key: seq<byte>): Option<seq<byte>> {
    match Get(v, key)
    case Some(String(t)) => Some(t)
    case _ => None
  }

  function GetCompound(v: Value, key: seq<byte>): Option<seq<Field>> {
    match Get(v, key)
    case Some(Compound(fields)) => Some(fields)
    case _ => None
  }

  function GetList(v: Value, key: seq<byte>): Option<seq<Value>> {
    match Get(v, key)
    case Some(List(items)) => Some(items)
    case _ => None
  }

  function OrElse<T>(o: Option<T>, other: T): T {
    if o.Some? then o.value else other
  }

  // ---- sections ----

  /** The text of a property's value. */
  function PropertyText(v: Value): seq<byte> {
    match v
    case String(t) => t
    case Int(n) => Decimal(n)
    case Byte(n) => Decimal(n)
    case _ => Ascii("?")
  }

  function Properties(fields: seq<Field>): (ps: seq<(seq<byte>, seq<byte>)>)
    ensures |ps| == |fields|
  {
    seq(|fields|, i requires 0 <= i < |fields| => (fields[i].name, PropertyText(fields[i].value)))
  }

  function Entry(v: Value): BlockState {
    BlockState(OrElse(GetString(v, Ascii("Name")), AIR_NAME),
               Properties(OrElse(GetCompound(v, Ascii("Properties")), [])))
  }

  function Entries(items: seq<Value>): (palette: seq<BlockState>)
    ensures |palette| == |items|
  {
    seq(|items|, i requires 0 <= i < |items| => Entry(items[i]))
  }

  /** `parse_palette` */
  function ParsePalette(blockStates: seq<Field>): Option<seq<BlockState>> {
    match Find(blockStates, Ascii("palette"))
    case Some(List(items)) => Some(Entries(items))
    case _ => None
  }

  function ParseData(blockStates: seq<Field>): seq<int> {
    match Find(blockStates, Ascii("data"))
    case Some(LongArray(words)) => words
    case _ => []
  }

  /** The width that `CalculateBitsPerBlock` computes. */
  function BitsPerBlock(paletteSize: nat): (bits: nat)
    ensures BitsFor(paletteSize, bits)
  {
    if paletteSize <= 1 then 0
    else
      Pow2Values();
      if paletteSize > 0x1_0000 then 16 else LeastWidth(paletteSize, 4)
  }

  function LeastWidth(n: nat, from: nat): (bits: nat)
    requires 4 <= from <= 16 && n <= 0x1_0000 && (from > 4 ==> Pow2(from - 1) < n)
    ensures from <= bits <= 16 && n <= Pow2(bits) && (bits > 4 ==> Pow2(bits - 1) < n)
    decreases 16 - from
  {
    assert Pow2(16) == 0x1_0000 by { Pow2Values(); }
    if n <= Pow2(from) then from else LeastWidth(n, from + 1)
  }

  /** There is only one such width. */
  lemma WidthUnique(paletteSize: nat, a: nat, b: nat)
    requires BitsFor(paletteSize, a) && BitsFor(paletteSize, b)
    ensures a == b
  {
    hide Pow2;
    if a < b { WidthNotLess(paletteSize, a, b); } else if b < a { WidthNotLess(paletteSize, b, a); }
  }

  lemma WidthNotLess(paletteSize: nat, a: nat, b: nat)
    requires BitsFor(paletteSize, a) && BitsFor(paletteSize, b)
    ensures a >= b
  {
    if a < b { Pow2Monotone(a, b - 1); }
  }

  /** `parse_section`; a section without a usable palette has no block states. */
  function ParseSection(v: Value): Option<Section> {
    match Get(v, Ascii("Y"))
    case Some(Byte(y)) =>
      var blockStates := GetCompound(v, Ascii("block_states"));
      if blockStates.None? || ParsePalette(blockStates.value).None? then Some(Section(y, [], [], 0))
      else
        var palette := ParsePalette(blockStates.value).value;
        Some(Section(y, palette, ParseData(blockStates.value), BitsPerBlock(|palette|)))
    case _ => None
  }

  /** Those that parse, in order. */
  function ParseSections(items: seq<Value>): seq<Section> {
    if items == [] then []
    else
      match ParseSection(items[0])
      case Some(s) => [s] + ParseSections(items[1..])
      case None => ParseSections(items[1..])
  }

  function Lowest(sections: seq<Section>): Option<int> {
    if sections == [] then None
    else
      match Lowest(sections[1..])
      case None => Some(sections[0].y * 16)
      case Some(y) => Some(if sections[0].y * 16 < y then sections[0].y * 16 else y)
  }

  /** The bottom of the world as a chunk sees it: the foot of some section, and of none a lower one. */
  lemma {:induction false} LowestExactly(sections: seq<Section>, foot: int)
    ensures Lowest(sections) == Some(foot)
       <==> (exists i :: 0 <= i < |sections| && sections[i].y * 16 == foot)
            && (forall i :: 0 <= i < |sections| ==> foot <= sections[i].y * 16)
    decreases |sections|
  {
    if sections != [] {
      var rest := sections[1..];
      assert forall i :: 0 < i < |sections| ==> sections[i] == rest[i - 1];
      assert forall i :: 0 <= i < |rest| ==> rest[i] == sections[i + 1];
      LowestExactly(rest, foot);
      match Lowest(rest)
      case None => NoLowest(rest);
      case Some(y) => LowestExactly(rest, y);
    }
  }

  lemma NoLowest(sections: seq<Section>)
    requires Lowest(sections) == None
    ensures sections == []
  {
  }

  /** `from_nbt` */
  function FromNbt(v: Value): Option<Chunk> {
    var x, z := GetInt(v, Ascii("xPos")), GetInt(v, Ascii("zPos"));
    if x.None? || z.None? then None
    else
      var sections := ParseSections(OrElse(GetList(v, Ascii("sections")), []));
      Some(Chunk(x.value, z.value,
                 OrElse(GetInt(v, Ascii("DataVersion")), 0),
                 OrElse(GetString(v, Ascii("Status")), Ascii("unknown")),
                 sections,
                 OrElse(Lowest(sections), 0)))
  }

  // ---- what is taken from where ----

  /** A field is looked up by its name, and the first of that name decides. */
  lemma {:induction false} FindExactly(fields: seq<Field>, key: seq<byte>, v: Value)
    ensures Find(fields, key) == Some(v)
       <==> exists i :: 0 <= i < |fields| && fields[i] == Field(key, v) && forall j :: 0 <= j < i ==> fields[j].name != key
    decreases |fields|
  {
    if fields != [] {
      var rest := fields[1..];
      FindExactly(rest, key, v);
      if fields[0].name != key {
        if i :| 0 <= i < |fields| && fields[i] == Field(key, v) && forall j :: 0 <= j < i ==> fields[j].name != key {
          assert rest[i - 1] == fields[i] && forall j :: 0 <= j < i - 1 ==> rest[j] == fields[j + 1];
        }
        if i :| 0 <= i < |rest| && rest[i] == Field(key, v) && forall j :: 0 <= j < i ==> rest[j].name != key {
          assert fields[i + 1] == rest[i] && forall j :: 0 < j < i + 1 ==> fields[j] == rest[j - 1];
        }
      } else if fields[0].value == v {
        assert fields[0] == Field(key, v);
      }
    }
  }

  lemma FindFirst(name: seq<byte>, v: Value, more: seq<Field>, key: seq<byte>)
    ensures Find([Field(name, v)] + more, key) == if name == key then Some(v) else Find(more, key)
  {
    assert ([Field(name, v)] + more)[1..] == more;
  }

  lemma FindInTwo(a: seq<byte>, v: Value, b: seq<byte>, w: Value)
    requires a != b
    ensures Find([Field(a, v), Field(b, w)], a) == Some(v) && Find([Field(a, v), Field(b, w)], b) == Some(w)
  {
    hide Find;
    assert [Field(a, v)] + [Field(b, w)] == [Field(a, v), Field(b, w)] && [Field(b, w)] + [] == [Field(b, w)];
    FindFirst(a, v, [Field(b, w)], a);
    FindFirst(a, v, [Field(b, w)], b);
    FindFirst(b, w, [], b);
  }

  /** The field of this name is an int. */
  predicate HasInt(v: Value, key: string, n: int)
    requires IsAscii(key)
  {
    Get(v, Ascii(key)) == Some(Int(n))
  }

  predicate HasText(v: Value, key: string, t: seq<byte>)
    requires IsAscii(key)
  {
    Get(v, Ascii(key)) == Some(String(t))
  }

  predicate IsAscii(s: string) {
    forall i :: 0 <= i < |s| ==> s[i] < 128 as char
  }

  /** Its foot is the lowest of the sections; of a chunk without sections it is zero. */
  predicate LowestFoot(c: Chunk) {
    if c.sections == [] then c.minY == 0
    else
      && (exists i :: 0 <= i < |c.sections| && c.sections[i].y * 16 == c.minY)
      && (forall i :: 0 <= i < |c.sections| ==> c.minY <= c.sections[i].y * 16)
  }

  /** A chunk is found in a value exactly if both its coordinates are; the rest of it has defaults. */
  lemma ChunkExactly(v: Value)
    ensures FromNbt(v).Some? <==> (exists x :: HasInt(v, "xPos", x)) && (exists z :: HasInt(v, "zPos", z))
    ensures FromNbt(v).Some? ==>
              var c := FromNbt(v).value;
              && HasInt(v, "xPos", c.x) && HasInt(v, "zPos", c.z)
              && (HasInt(v, "DataVersion", c.dataVersion)
                  || (c.dataVersion == 0 && forall n :: !HasInt(v, "DataVersion", n)))
              && (HasText(v, "Status", c.status)
                  || (c.status == Ascii("unknown") && forall t :: !HasText(v, "Status", t)))
              && LowestFoot(c)
  {
    hide Ascii, Get, ParseSections, Lowest, GetList, LowestFoot;
    var px, pz := GetInt(v, Ascii("xPos")), GetInt(v, Ascii("zPos"));
    if px.Some? { assert HasInt(v, "xPos", px.value); }
    if pz.Some? { assert HasInt(v, "zPos", pz.value); }
    if px.Some? && pz.Some? {
      LowestOf(FromNbt(v).value);
    }
  }

  lemma LowestOf(c: Chunk)
    requires c.minY == OrElse(Lowest(c.sections), 0)
    ensures LowestFoot(c)
  {
    if c.sections != [] { LowestExactly(c.sections, Lowest(c.sections).value); }
  }

  /** A palette entry has the name and the properties that its compound gives, in order; numbers are written in decimal. */
  lemma EntryExactly(name: seq<byte>, ps: seq<Field>, i: nat)
    requires i < |ps|
    ensures var e := Entry(Compound([Field(Ascii("Name"), String(name)), Field(Ascii("Properties"), Compound(ps))]));
            && e.name == name && |e.properties| == |ps| && e.properties[i].0 == ps[i].name
            && match ps[i].value
               case String(t) => e.properties[i].1 == t
               case Int(n) => InRange(W32, n) ==> ParseInt(e.properties[i].1) == Some(n)
               case Byte(n) => InRange(W32, n) ==> ParseInt(e.properties[i].1) == Some(n)
               case _ => e.properties[i].1 == Ascii("?")
  {
    var v := Compound([Field(Ascii("Name"), String(name)), Field(Ascii("Properties"), Compound(ps))]);
    assert |Ascii("Name")| != |Ascii("Properties")|;
    hide Ascii, Decimal, ParseInt, Find;
    FindInTwo(Ascii("Name"), String(name), Ascii("Properties"), Compound(ps));
    match ps[i].value
    case Int(n) => if InRange(W32, n) { DecimalBack(n); }
    case Byte(n) => if InRange(W32, n) { DecimalBack(n); }
    case _ =>
  }

  // ---- blocks by position in the world ----

  /** Rust's `as i8` */
  function AsByte(v: int): int {
    var m := v % 256;
    if m < 128 then m else m - 256
  }

  /** The section that a height is looked up in. */
  function SectionOf(worldY: int): int {
    AsByte(Shr(worldY, 4))
  }

  function SectionAt(sections: seq<Section>, y: int): Option<Section> {
    if sections == [] then None
    else if sections[0].y == y then Some(sections[0])
    else SectionAt(sections[1..], y)
  }

  /** `v & 15` */
  function Low4(v: int): (r: nat)
    ensures r == v % 16 && r < 16
  {
    var u := Unsigned(W32, v);
    Low4Is(v, u);
    And(u, 15)
  }

  lemma Low4Is(v: int, u: nat)
    requires u == Unsigned(W32, v)
    ensures And(u, 15) == v % 16
  {
    var d := v / 0x1_0000_0000;
    assert v == u + 16 * (0x1000_0000 * d);
    Pow2Values();
    AndMask(u, 4);
    DivAddMultiple(u, 16, 0x1000_0000 * d);
  }

  /** The name of the block at a cell of a section; nothing if reading it panics. */
  function NameIn(section: Section, x: nat, y: nat, z: nat): Option<seq<byte>>
  {
    match GetBlock(section, x, y, z)
    case None => None
    case Some(state) => Some(state.name)
  }

  /** `get_block` of a chunk; nothing if it panics. */
  function GetBlockIn(chunk: Chunk, wx: int, wy: int, wz: int): Option<seq<byte>> {
    match SectionAt(chunk.sections, SectionOf(wy))
    case None => Some(AIR_NAME)
    case Some(section) => NameIn(section, Low4(wx), Low4(wy), Low4(wz))
  }

  /** The height is split into section and remainder without loss exactly in this range. */
  lemma HeightExactly(worldY: int)
    ensures SectionOf(worldY) * 16 + Low4(worldY) == worldY <==> -2048 <= worldY <= 2047
  {
    hide SectionOf, Low4;
    var t := HeightNumber(worldY);
  }

  /** Two heights are one to the lookup exactly when they differ by a multiple of 4096. */
  lemma HeightAliasesExactly(a: int, b: int)
    ensures SectionOf(a) == SectionOf(b) && Low4(a) == Low4(b) <==> (a - b) % 4096 == 0
  {
    hide SectionOf;
    var s := HeightNumber(a);
    var t := HeightNumber(b);
    var m, n := SectionOf(a) * 16 + Low4(a), SectionOf(b) * 16 + Low4(b);
    assert a - b == m - n + 4096 * (t - s);
    assert m == n ==> SectionOf(a) == SectionOf(b) && Low4(a) == Low4(b);
    hide *;
    DivAddMultiple(m - n, 4096, t - s);
    assert -4096 < m - n < 4096;
    assert (m - n) % 4096 == 0 <==> m == n;
  }

  /** What the section and the remainder make of a height: the height itself, up to whole turns of 4096. */
  lemma HeightNumber(v: int) returns (turns: int)
    ensures SectionOf(v) * 16 + Low4(v) == v + 4096 * turns
    ensures -128 <= SectionOf(v) <= 127
  {
    Pow2Values();
    var q := v / 16;
    turns := -(q / 256);
    if q % 256 >= 128 { turns := turns - 1; }
  }

  // ---- a stored chunk reads back as the blocks it describes ----

  /** `v` is a section at `y` whose palette has these entries and whose words hold these cells. */
  ghost predicate DescribesSection(v: Value, y: int, palette: seq<Value>, cells: seq<nat>) {
    && Get(v, Ascii("Y")) == Some(Byte(y))
    && 0 < |palette| <= 0x1_0000
    && |cells| == BLOCKS_PER_SECTION && AllBelow(cells, |palette|)
    && exists states: seq<Field>, words: seq<int> ::
         && Get(v, Ascii("block_states")) == Some(Compound(states))
         && HoldsCells(states, words, palette, cells)
  }

  ghost predicate HoldsCells(states: seq<Field>, words: seq<int>, palette: seq<Value>, cells: seq<nat>) {
    && Find(states, Ascii("palette")) == Some(List(palette))
    && Find(states, Ascii("data")) == Some(LongArray(words))
    && Pack(cells, BitsPerBlock(|palette|)) <= words
  }

  /** Section `k` of the list is the first one at height `y`; it has this palette and these cells. */
  ghost predicate DescribesChunk(v: Value, k: nat, y: int, palette: seq<Value>, cells: seq<nat>) {
    && GetInt(v, Ascii("xPos")).Some? && GetInt(v, Ascii("zPos")).Some?
    && GetList(v, Ascii("sections")).Some?
    && DescribesFirst(GetList(v, Ascii("sections")).value, k, y, palette, cells)
  }

  ghost predicate DescribesFirst(items: seq<Value>, k: nat, y: int, palette: seq<Value>, cells: seq<nat>) {
    && k < |items|
    && DescribesSection(items[k], y, palette, cells)
    && forall j :: 0 <= j < k ==> Get(items[j], Ascii("Y")) != Some(Byte(y))
  }

  lemma {:induction false} DescribedSection(v: Value, y: int, palette: seq<Value>, cells: seq<nat>)
    requires DescribesSection(v, y, palette, cells)
    ensures ParseSection(v).Some?
    ensures var s := ParseSection(v).value; s.y == y && s.palette == Entries(palette) && Stores(s, cells)
  {
    hide Entry, Pack, AllBelow, BitsPerBlock, BitsFor, Find, Get;
    var states: seq<Field>, words: seq<int> :|
      Get(v, Ascii("block_states")) == Some(Compound(states)) && HoldsCells(states, words, palette, cells);
    assert BitsFor(|palette|, BitsPerBlock(|palette|));
  }

  lemma {:induction false} DescribedSectionFound(items: seq<Value>, k: nat, y: int)
    requires k < |items| && ParseSection(items[k]).Some? && ParseSection(items[k]).value.y == y
    requires forall j :: 0 <= j < k ==> Get(items[j], Ascii("Y")) != Some(Byte(y))
    ensures SectionAt(ParseSections(items), y) == ParseSection(items[k])
  {
    hide Get, GetCompound, ParsePalette, ParseData, BitsPerBlock;
    if k > 0 {
      DescribedSectionFound(items[1..], k - 1, y);
      var rest := ParseSections(items[1..]);
      if ParseSection(items[0]).Some? {
        assert ParseSections(items)[1..] == rest;
      }
    }
  }

  /** The name that a palette entry gives to its block. */
  function NameOf(entry: Value): seq<byte> {
    OrElse(GetString(entry, Ascii("Name")), AIR_NAME)
  }

  /** The name that the cells assign to a position; they cover a section and stay inside the palette. */
  function AssignedName(palette: seq<Value>, cells: seq<nat>, wx: int, wy: int, wz: int): seq<byte> {
    var i := 256 * (wy % 16) + 16 * (wz % 16) + wx % 16;
    if i < |cells| && cells[i] < |palette| then NameOf(palette[cells[i]]) else []
  }

  /** Every position of a described section reads as the palette entry assigned to its cell. */
  lemma DescribedBlock(v: Value, k: nat, palette: seq<Value>, cells: seq<nat>, wx: int, wy: int, wz: int)
    requires DescribesChunk(v, k, SectionOf(wy), palette, cells)
    ensures FromNbt(v).Some?
    ensures GetBlockIn(FromNbt(v).value, wx, wy, wz) == Some(AssignedName(palette, cells, wx, wy, wz))
  {
    hide Get, GetInt, GetList, Ascii, FromNbt, GetBlockIn, AssignedName, DescribesFirst, SectionOf;
    var items, y := GetList(v, Ascii("sections")).value, SectionOf(wy);
    assert DescribesFirst(items, k, y, palette, cells);
    SectionOfChunk(v, wx, wy, wz);
    hide *;
    FirstDescribed(items, k, y, palette, cells);
    CellOfFirst(items, k, y, palette, cells, wx, wy, wz);
  }

  /** Once the section at a height is known, so is the block. */
  lemma SectionOfChunk(v: Value, wx: int, wy: int, wz: int)
    requires GetInt(v, Ascii("xPos")).Some? && GetInt(v, Ascii("zPos")).Some? && GetList(v, Ascii("sections")).Some?
    ensures FromNbt(v).Some?
    ensures var found := SectionAt(ParseSections(GetList(v, Ascii("sections")).value), SectionOf(wy));
            found.Some? ==> GetBlockIn(FromNbt(v).value, wx, wy, wz) == NameIn(found.value, Low4(wx), Low4(wy), Low4(wz))
  {
    hide Get, GetInt, GetList, ParseSections, SectionAt, SectionOf, NameIn, Low4, Ascii, Lowest;
  }

  lemma FirstDescribed(items: seq<Value>, k: nat, y: int, palette: seq<Value>, cells: seq<nat>)
    requires DescribesFirst(items, k, y, palette, cells)
    ensures SectionAt(ParseSections(items), y) == ParseSection(items[k])
    ensures ParseSection(items[k]).Some?
  {
    assert DescribesSection(items[k], y, palette, cells);
    hide DescribesSection, ParseSection, ParseSections, SectionAt, Get, Ascii;
    DescribedSection(items[k], y, palette, cells);
    DescribedSectionFound(items, k, y);
  }

  lemma CellOfFirst(items: seq<Value>, k: nat, y: int, palette: seq<Value>, cells: seq<nat>, wx: int, wy: int, wz: int)
    requires DescribesFirst(items, k, y, palette, cells) && ParseSection(items[k]).Some?
    ensures NameIn(ParseSection(items[k]).value, Low4(wx), Low4(wy), Low4(wz)) == Some(AssignedName(palette, cells, wx, wy, wz))
  {
    assert DescribesSection(items[k], y, palette, cells);
    var x, v, z := Low4(wx), Low4(wy), Low4(wz);
    hide DescribesFirst, DescribesSection, ParseSection, NameIn, NameOf, Low4;
    DescribedCell(items[k], y, palette, cells, x, v, z);
  }

  lemma DescribedCell(v: Value, height: int, palette: seq<Value>, cells: seq<nat>, x: nat, y: nat, z: nat)
    requires DescribesSection(v, height, palette, cells) && x < 16 && y < 16 && z < 16
    ensures ParseSection(v).Some?
    ensures var i := 256 * y + 16 * z + x;
            && i < |cells| && cells[i] < |palette|
            && NameIn(ParseSection(v).value, x, y, z) == Some(NameOf(palette[cells[i]]))
  {
    assert |cells| == BLOCKS_PER_SECTION && AllBelow(cells, |palette|) && 0 < |palette| <= 0x1_0000;
    hide Get, GetBlock, ParseSection, Stores, DescribesSection;
    DescribedSection(v, height, palette, cells);
    SectionIsArray(ParseSection(v).value, cells, x, y, z);
  }

  // ---- any chunk, whatever its words ----

  /** What a position of a section reads as: nothing if it panics. */
  function StoredName(section: Section, wx: int, wy: int, wz: int): Option<seq<byte>> {
    var i := 256 * (wy % 16) + 16 * (wz % 16) + wx % 16;
    if !Readable(section, i) then None
    else Some(if StoredIndex(section, i) < |section.palette| then section.palette[StoredIndex(section, i)].name else [])
  }

  /** The section at the position's height is there, but its words end before the entry of the position's cell. */
  predicate CutShort(v: Value, wx: int, wy: int, wz: int) {
    && FromNbt(v).Some?
    && var section := SectionAt(FromNbt(v).value.sections, SectionOf(wy));
       section.Some? && !Readable(section.value, 256 * (wy % 16) + 16 * (wz % 16) + wx % 16)
  }

  lemma {:induction false} ParsedWidth(items: seq<Value>, y: int)
    ensures var section := SectionAt(ParseSections(items), y);
            section.Some? ==> section.value.bitsPerBlock <= 16
    decreases |items|
  {
    hide GetCompound, ParsePalette, ParseData, Get;
    if items != [] {
      ParsedWidth(items[1..], y);
      var rest := ParseSections(items[1..]);
      if ParseSection(items[0]).Some? {
        assert ParseSections(items)[1..] == rest;
        assert BitsFor(|ParseSection(items[0]).value.palette|, ParseSection(items[0]).value.bitsPerBlock);
      }
    }
  }

  lemma NameInExactly(section: Section, wx: int, wy: int, wz: int)
    requires section.bitsPerBlock <= 16
    ensures NameIn(section, Low4(wx), Low4(wy), Low4(wz)) == StoredName(section, wx, wy, wz)
  {
    hide Low4, BlockAt, GetBlock, Readable, StoredIndex, CellIndex;
    var x, y, z := Low4(wx), Low4(wy), Low4(wz);
    CellInside(x, y, z);
    BlockAtExactly(section, CellIndex(x, y, z));
    BlockAtCell(section, x, y, z);
  }

  lemma CellInside(x: nat, y: nat, z: nat)
    requires x < 16 && y < 16 && z < 16
    ensures CellIndex(x, y, z) == 256 * y + 16 * z + x < BLOCKS_PER_SECTION
  {
  }

  /** What every position of every parsed chunk reads as. */
  lemma BlockExactly(v: Value, wx: int, wy: int, wz: int)
    requires FromNbt(v).Some?
    ensures GetBlockIn(FromNbt(v).value, wx, wy, wz)
         == match SectionAt(FromNbt(v).value.sections, SectionOf(wy))
            case None => Some(AIR_NAME)
            case Some(section) => StoredName(section, wx, wy, wz)
    ensures GetBlockIn(FromNbt(v).value, wx, wy, wz) == None <==> CutShort(v, wx, wy, wz)
  {
    var chunk, items := FromNbt(v).value, OrElse(GetList(v, Ascii("sections")), []);
    assert chunk.sections == ParseSections(items) by { SectionsOfChunk(v); }
    hide FromNbt, GetList, Ascii, ParseSections, SectionAt, SectionOf, NameIn, Low4, Readable, StoredIndex;
    ParsedWidth(items, SectionOf(wy));
    var section := SectionAt(chunk.sections, SectionOf(wy));
    if section.Some? { NameInExactly(section.value, wx, wy, wz); }
  }

  lemma SectionsOfChunk(v: Value)
    requires FromNbt(v).Some?
    ensures FromNbt(v).value.sections == ParseSections(OrElse(GetList(v, Ascii("sections")), []))
  {
    hide GetInt, GetList, GetString, ParseSections, Lowest, Ascii;
  }
}
