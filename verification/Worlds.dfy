// The world: regions opened on demand and kept, and the lookup of chunks and blocks by absolute coordinates.

module Worlds {
  import opened Common
  import opened Bits
  import opened Utf8
  import opened Regions
  import opened Chunks
  import Nbt
  import NbtPanics
  import NbtTheorems
  import Sections

  /** `Panicked` stands for a Rust panic. */
  datatype Answer<T> = Panicked | Nothing | Found(value: T)

  /** `chunk >> 5` */
  function RegionOf(chunk: int): int {
    Shr(chunk, 5)
  }

  /** The answer about a chunk when its region is opened for this one question. */
  function Lookup(dir: Directory, codec: Codec, cx: int, cz: int): Answer<Chunk> {
    match Opened(dir, RegionName(RegionOf(cx), RegionOf(cz)))
    case Failure(_) => Nothing
    case Success(region) => ChunkFrom(Load(region, codec, cx, cz))
  }

  function ChunkFrom(loaded: Result<RegionChunk, RegionError>): Answer<Chunk> {
    match loaded
    case Failure(e) => if e == Panic then Panicked else Nothing
    case Success(rc) =>
      match FromNbt(rc.data)
      case None => Nothing
      case Some(chunk) => Found(chunk)
  }

  /** The answer about a block: its name, unless it is air or nameless. */
  function BlockName(chunk: Answer<Chunk>, wx: int, wy: int, wz: int): Answer<seq<byte>> {
    match chunk
    case Panicked => Panicked
    case Nothing => Nothing
    case Found(c) =>
      match GetBlockIn(c, wx, wy, wz)
      case None => Panicked
      case Some(name) => NamedOrNothing(name)
  }

  // ---- addresses ----

  /** A region that a world opens has the coordinates it was looked up by, and its corner fits in 32 bits. */
  lemma OpenedRegion(dir: Directory, cx: int, cz: int)
    requires InRange(W32, cx) && InRange(W32, cz) && Opened(dir, RegionName(RegionOf(cx), RegionOf(cz))).Success?
    ensures var region := Opened(dir, RegionName(RegionOf(cx), RegionOf(cz))).value;
            && region.x == RegionOf(cx) && region.z == RegionOf(cz)
            && InRange(W32, region.x * 32) && InRange(W32, region.z * 32)
            && Inside(region.x, cx) && Inside(region.z, cz)
  {
    RegionOfIsFloor(cx);
    RegionOfIsFloor(cz);
    hide RegionOf, RegionName, CoordinatesOf;
    NameBack(RegionOf(cx), RegionOf(cz));
  }

  lemma RegionOfIsFloor(chunk: int)
    requires InRange(W32, chunk)
    ensures Inside(RegionOf(chunk), chunk) && InRange(W32, RegionOf(chunk)) && InRange(W32, RegionOf(chunk) * 32)
  {
    assert Pow2(5) == 32;
  }

  /** The entry that a chunk is looked up in, in a region opened for it. */
  function EntryOf(cx: int, cz: int): nat {
    cx % 32 + 32 * (cz % 32)
  }

  /** For negative and positive coordinates alike, the index lies in the table and is the low five bits of each. */
  lemma IndexOfChunk(dir: Directory, cx: int, cz: int)
    requires InRange(W32, cx) && InRange(W32, cz) && Opened(dir, RegionName(RegionOf(cx), RegionOf(cz))).Success?
    ensures var region := Opened(dir, RegionName(RegionOf(cx), RegionOf(cz))).value;
            LocalIndex(region, cx, cz) == Some(EntryOf(cx, cz)) && EntryOf(cx, cz) < CHUNKS
  {
    hide RegionOf, RegionName, Opened, LocalIndex;
    var region := Opened(dir, RegionName(RegionOf(cx), RegionOf(cz))).value;
    OpenedRegion(dir, cx, cz);
    DivMod(cx, 32, region.x, cx - region.x * 32);
    DivMod(cz, 32, region.z, cz - region.z * 32);
    IndexExactly(region, cx, cz);
  }

  /** No two chunks of the world share a file and an entry. */
  lemma AddressesDiffer(cx: int, cz: int, dx: int, dz: int)
    requires InRange(W32, cx) && InRange(W32, cz) && InRange(W32, dx) && InRange(W32, dz)
    requires RegionName(RegionOf(cx), RegionOf(cz)) == RegionName(RegionOf(dx), RegionOf(dz))
    requires EntryOf(cx, cz) == EntryOf(dx, dz)
    ensures cx == dx && cz == dz
  {
    RegionOfIsFloor(cx);
    RegionOfIsFloor(cz);
    RegionOfIsFloor(dx);
    RegionOfIsFloor(dz);
    assert RegionOf(cx) == RegionOf(dx) && RegionOf(cz) == RegionOf(dz) by {
      hide RegionOf, RegionName, CoordinatesOf;
      NameBack(RegionOf(cx), RegionOf(cz));
      NameBack(RegionOf(dx), RegionOf(dz));
    }
    hide RegionOf;
    var x, z := RegionOf(cx), RegionOf(cz);
    DivMod(cx, 32, x, cx - x * 32);
    DivMod(dx, 32, x, dx - x * 32);
    DivMod(cz, 32, z, cz - z * 32);
    DivMod(dz, 32, z, dz - z * 32);
  }

  /** A lookup panics exactly if the NBT stored for the chunk is poisoned: the index never makes it panic. */
  lemma PanicsExactly(dir: Directory, codec: Codec, cx: int, cz: int)
    requires InRange(W32, cx) && InRange(W32, cz)
    requires forall s :: IsStored(dir, codec, cx, cz, s) ==> |s| <= MAX_SLICE
    ensures Lookup(dir, codec, cx, cz) == Panicked <==> exists s :: IsStored(dir, codec, cx, cz, s) && NbtPanics.PoisonedRoot(s)
  {
    hide IsStored, Lookup, NbtPanics.PoisonedRoot, Nbt.ParseRoot;
    if Lookup(dir, codec, cx, cz) == Panicked {
      var s := StoredOfPanic(dir, codec, cx, cz);
      NbtPanics.RootPanicsExactly(s);
    }
    if s :| IsStored(dir, codec, cx, cz, s) && NbtPanics.PoisonedRoot(s) {
      NbtPanics.RootPanicsExactly(s);
      StoredPanics(dir, codec, cx, cz, s);
    }
  }

  lemma StoredOfPanic(dir: Directory, codec: Codec, cx: int, cz: int) returns (s: seq<byte>)
    requires InRange(W32, cx) && InRange(W32, cz) && Lookup(dir, codec, cx, cz) == Panicked
    ensures IsStored(dir, codec, cx, cz, s) && Nbt.ParseRoot(s) == Nbt.Err(Nbt.Panic)
  {
    var name := RegionName(RegionOf(cx), RegionOf(cz));
    hide RegionName, RegionOf, Table, Nbt.ParseRoot, FromNbt, LocalIndex, EntryOf, CoordinatesOf;
    IndexOfChunk(dir, cx, cz);
    var stored := StoredAt(dir[name], SectorStart(Table(dir[name], 0)[EntryOf(cx, cz)])).value;
    s := Decompressed(codec, stored.0, stored.1).value;
  }

  lemma StoredPanics(dir: Directory, codec: Codec, cx: int, cz: int, s: seq<byte>)
    requires InRange(W32, cx) && InRange(W32, cz) && IsStored(dir, codec, cx, cz, s)
    requires Nbt.ParseRoot(s) == Nbt.Err(Nbt.Panic)
    ensures Lookup(dir, codec, cx, cz) == Panicked
  {
    hide RegionName, RegionOf, Table, Nbt.ParseRoot, FromNbt, LocalIndex, EntryOf, CoordinatesOf;
    IndexOfChunk(dir, cx, cz);
  }

  /** `s` is the NBT stored for this chunk: its region's table points to it, and it decompresses. */
  predicate IsStored(dir: Directory, codec: Codec, cx: int, cz: int, s: seq<byte>)
    requires InRange(W32, cx) && InRange(W32, cz)
  {
    var name := RegionName(RegionOf(cx), RegionOf(cz));
    && name in dir && |dir[name]| >= HEADER && EntryOf(cx, cz) < CHUNKS
    && var location := Table(dir[name], 0)[EntryOf(cx, cz)];
    && location != 0
    && var stored := StoredAt(dir[name], SectorStart(location));
    && stored.Some?
    && Decompressed(codec, stored.value.0, stored.value.1) == Success(s)
  }

  /**
   * Which chunk is found: the one described by the root compound that the stored bytes begin with,
   * whatever way that compound is spelled.
   */
  lemma FoundExactly(dir: Directory, codec: Codec, cx: int, cz: int, chunk: Chunk)
    requires InRange(W32, cx) && InRange(W32, cz)
    requires forall s :: IsStored(dir, codec, cx, cz, s) ==> |s| <= MAX_SLICE
    ensures Lookup(dir, codec, cx, cz) == Found(chunk)
       <==> exists s, fields :: IsStored(dir, codec, cx, cz, s) && BeginsWith(s, fields) && FromNbt(Nbt.Compound(fields)) == Some(chunk)
  {
    var name := RegionName(RegionOf(cx), RegionOf(cz));
    if Lookup(dir, codec, cx, cz) == Found(chunk) {
      hide RegionName, RegionOf, Table, Nbt.ParseRoot, FromNbt, LocalIndex, EntryOf, BeginsWith;
      IndexOfChunk(dir, cx, cz);
      var file := dir[name];
      var stored := StoredAt(file, SectorStart(Table(file, 0)[EntryOf(cx, cz)])).value;
      var s := Decompressed(codec, stored.0, stored.1).value;
      assert IsStored(dir, codec, cx, cz, s);
      BeginsExactly(s);
      assert BeginsWith(s, Nbt.ParseRoot(s).value.fields);
    }
    if s, fields :| IsStored(dir, codec, cx, cz, s) && BeginsWith(s, fields) && FromNbt(Nbt.Compound(fields)) == Some(chunk) {
      LookupStored(dir, codec, cx, cz, s, fields);
    }
  }

  lemma LookupStored(dir: Directory, codec: Codec, cx: int, cz: int, s: seq<byte>, fields: seq<Nbt.Field>)
    requires InRange(W32, cx) && InRange(W32, cz) && IsStored(dir, codec, cx, cz, s) && BeginsWith(s, fields)
    ensures Lookup(dir, codec, cx, cz)
         == match FromNbt(Nbt.Compound(fields)) case None => Nothing case Some(chunk) => Found(chunk)
  {
    BeginsReads(s, fields);
    hide RegionName, RegionOf, Table, Nbt.ParseRoot, FromNbt, LocalIndex, EntryOf, BeginsWith;
    IndexOfChunk(dir, cx, cz);
  }

  /** A root compound with these fields, under some name and in some spelling, and then anything. */
  ghost predicate BeginsWith(s: seq<byte>, fields: seq<Nbt.Field>) {
    exists name, body, rest :: IsRoot(s, name, body, rest, fields)
  }

  ghost predicate IsRoot(s: seq<byte>, name: seq<byte>, body: seq<byte>, rest: seq<byte>, fields: seq<Nbt.Field>) {
    Nbt.Text(name) && Nbt.SpellsFields(body, fields) && s == NbtTheorems.RootBytes(name, body) + rest
  }

  lemma BeginsReads(s: seq<byte>, fields: seq<Nbt.Field>)
    requires BeginsWith(s, fields)
    ensures Nbt.ParseRoot(s).Ok? && Nbt.ParseRoot(s).value == Nbt.Compound(fields)
  {
    hide Nbt.ParseRoot, Nbt.SpellsFields, Nbt.Text, NbtTheorems.RootBytes;
    var name, body, rest :| IsRoot(s, name, body, rest, fields);
    NbtTheorems.RootAccepted(name, body, fields, rest);
  }

  lemma BeginsExactly(s: seq<byte>)
    requires |s| <= MAX_SLICE && Nbt.ParseRoot(s).Ok?
    ensures Nbt.ParseRoot(s).value.Compound? && BeginsWith(s, Nbt.ParseRoot(s).value.fields)
  {
    hide Nbt.ParseRoot, Nbt.SpellsFields, Nbt.Text, NbtTheorems.RootBytes;
    var p := Nbt.ParseRoot(s);
    NbtTheorems.RootExactly(s, p.value, p.used);
    var name, body :| Nbt.Text(name) && Nbt.SpellsFields(body, p.value.fields) && s[..p.used] == NbtTheorems.RootBytes(name, body);
    assert s == s[..p.used] + s[p.used..];
    assert IsRoot(s, name, body, s[p.used..], p.value.fields);
  }

  // ---- the whole way from a file's bytes to a block ----

  /**
   * A chunk's NBT is stored in its region file, and its first section at this height has this palette and these cells:
   * then the block found at any position of the section is the one that the cell assigns, unless that is air or nameless.
   */
  lemma StoredBlockIsFound(dir: Directory, codec: Codec, s: seq<byte>, fields: seq<Nbt.Field>, k: nat,
                           palette: seq<Nbt.Value>, cells: seq<nat>, wx: int, wy: int, wz: int)
    requires InRange(W32, wx) && InRange(W32, wy) && InRange(W32, wz)
    requires IsStored(dir, codec, ChunkOf(wx), ChunkOf(wz), s) && BeginsWith(s, fields)
    requires DescribesChunk(Nbt.Compound(fields), k, SectionOf(wy), palette, cells)
    ensures var name := AssignedName(palette, cells, wx, wy, wz);
            BlockName(Lookup(dir, codec, ChunkOf(wx), ChunkOf(wz)), wx, wy, wz)
            == if NoBlock(name) then Nothing else Found(name)
  {
    hide *;
    DescribedBlock(Nbt.Compound(fields), k, palette, cells, wx, wy, wz);
    LookupStored(dir, codec, ChunkOf(wx), ChunkOf(wz), s, fields);
    NameFound(FromNbt(Nbt.Compound(fields)).value, wx, wy, wz, AssignedName(palette, cells, wx, wy, wz));
  }

  /**
   * When the lookup of a block panics, for every position: the NBT stored for its chunk is poisoned, or it describes a
   * chunk whose section at this height has words that end before the entry of the position's cell.
   */
  lemma BlockPanicsExactly(dir: Directory, codec: Codec, wx: int, wy: int, wz: int)
    requires InRange(W32, wx) && InRange(W32, wy) && InRange(W32, wz)
    requires forall s :: IsStored(dir, codec, ChunkOf(wx), ChunkOf(wz), s) ==> |s| <= MAX_SLICE
    ensures BlockName(Lookup(dir, codec, ChunkOf(wx), ChunkOf(wz)), wx, wy, wz) == Panicked
       <==> exists s :: IsStored(dir, codec, ChunkOf(wx), ChunkOf(wz), s) && (NbtPanics.PoisonedRoot(s) || Truncated(s, wx, wy, wz))
  {
    hide IsStored, Lookup, NbtPanics.PoisonedRoot, Truncated, GetBlockIn, ChunkOf;
    var cx, cz := ChunkOf(wx), ChunkOf(wz);
    var found := Lookup(dir, codec, cx, cz);
    PanicsExactly(dir, codec, cx, cz);
    if BlockName(found, wx, wy, wz) == Panicked && found.Found? {
      var s := StoredOfCutShort(dir, codec, cx, cz, found.value, wx, wy, wz);
    }
    if s :| IsStored(dir, codec, cx, cz, s) && Truncated(s, wx, wy, wz) {
      TruncatedPanics(dir, codec, cx, cz, s, wx, wy, wz);
    }
  }

  /** The stored bytes begin with a chunk in which the position cannot be read. */
  ghost predicate Truncated(s: seq<byte>, wx: int, wy: int, wz: int) {
    exists fields :: BeginsWith(s, fields) && CutShort(Nbt.Compound(fields), wx, wy, wz)
  }

  lemma StoredOfCutShort(dir: Directory, codec: Codec, cx: int, cz: int, chunk: Chunk, wx: int, wy: int, wz: int)
    returns (s: seq<byte>)
    requires InRange(W32, cx) && InRange(W32, cz) && Lookup(dir, codec, cx, cz) == Found(chunk)
    requires forall s :: IsStored(dir, codec, cx, cz, s) ==> |s| <= MAX_SLICE
    requires GetBlockIn(chunk, wx, wy, wz) == None
    ensures IsStored(dir, codec, cx, cz, s) && Truncated(s, wx, wy, wz)
  {
    hide IsStored, Lookup, BeginsWith, GetBlockIn, FromNbt, CutShort;
    FoundExactly(dir, codec, cx, cz, chunk);
    var fields;
    s, fields :| IsStored(dir, codec, cx, cz, s) && BeginsWith(s, fields) && FromNbt(Nbt.Compound(fields)) == Some(chunk);
    BlockExactly(Nbt.Compound(fields), wx, wy, wz);
  }

  lemma TruncatedPanics(dir: Directory, codec: Codec, cx: int, cz: int, s: seq<byte>, wx: int, wy: int, wz: int)
    requires InRange(W32, cx) && InRange(W32, cz) && IsStored(dir, codec, cx, cz, s) && Truncated(s, wx, wy, wz)
    ensures BlockName(Lookup(dir, codec, cx, cz), wx, wy, wz) == Panicked
  {
    var fields :| BeginsWith(s, fields) && CutShort(Nbt.Compound(fields), wx, wy, wz);
    assert FromNbt(Nbt.Compound(fields)).Some?;
    hide IsStored, Lookup, BeginsWith, GetBlockIn, FromNbt, CutShort;
    BlockExactly(Nbt.Compound(fields), wx, wy, wz);
    LookupStored(dir, codec, cx, cz, s, fields);
  }

  /** What `get_block_name` makes of a name. */
  function NamedOrNothing(name: seq<byte>): Answer<seq<byte>> {
    if name == Sections.AIR_NAME || name == [] then Nothing else Found(name)
  }

  /** The names that stand for no block: that of air, and none at all. */
  predicate NoBlock(name: seq<byte>) {
    name == Ascii("minecraft:air") || name == []
  }

  lemma NameFound(chunk: Chunk, wx: int, wy: int, wz: int, name: seq<byte>)
    requires GetBlockIn(chunk, wx, wy, wz) == Some(name)
    ensures BlockName(Found(chunk), wx, wy, wz) == if NoBlock(name) then Nothing else Found(name)
  {
    hide GetBlockIn;
    AirName();
  }

  lemma AirName()
    ensures Sections.AIR_NAME == Ascii("minecraft:air")
  {
  }

  /** `world >> 4`, which is always a chunk coordinate of 32 bits. */
  function ChunkOf(world: int): (c: int)
    ensures InRange(W32, world) ==> InRange(W32, c)
    ensures 16 * c + world % 16 == world
  {
    Pow2Values();
    Shr(world, 4)
  }

  // ---- the world as it runs ----

  class World {
    const dir: Directory
    const codec: Codec
    var regions: map<(int, int), RegionFile>

    /** Every region kept is the one that opening its file would give. */
    predicate Valid()
      reads this
    {
      forall key :: key in regions ==> regions[key].Valid() && Opened(dir, RegionName(key.0, key.1)) == Success(regions[key].AsRegion())
    }

    constructor (dir: Directory, codec: Codec)
      ensures Valid() && this.dir == dir && this.codec == codec && regions == map[]
    {
      this.dir := dir;
      this.codec := codec;
      regions := map[];
    }

    /** Whatever was asked before, the answer is the one that opening the file now would give. */
    method GetChunk(cx: int, cz: int) returns (r: Answer<Chunk>)
      requires Valid() && InRange(W32, cx) && InRange(W32, cz)
      modifies this, regions.Values
      ensures Valid()
      ensures r == Lookup(dir, codec, cx, cz)
      ensures forall key :: key in old(regions) ==> key in regions && regions[key] == old(regions)[key]
      ensures var key := (RegionOf(cx), RegionOf(cz));
              regions.Keys - old(regions).Keys
              == if Opened(dir, RegionName(key.0, key.1)).Success? && key !in old(regions) then {key} else {}
      ensures forall rf :: rf in regions.Values && rf !in old(regions.Values) ==> fresh(rf)
    {
      hide RegionName, Opened, RegionOf, Load, FromNbt;
      var key := (RegionOf(cx), RegionOf(cz));
      if key !in regions {
        var rf := RegionFile.Open(dir, RegionName(key.0, key.1));
        if rf.Failure? {
          return Nothing;
        }
        regions := regions[key := rf.value];
      }
      var region := regions[key];
      var loaded := region.LoadChunk(codec, cx, cz);
      match loaded
      case Failure(e) => return if e == Panic then Panicked else Nothing;
      case Success(rc) =>
        match FromNbt(rc.data)
        case None => return Nothing;
        case Some(chunk) => return Found(chunk);
    }

    method GetBlockName(wx: int, wy: int, wz: int) returns (r: Answer<seq<byte>>)
      requires Valid() && InRange(W32, wx) && InRange(W32, wy) && InRange(W32, wz)
      modifies this, regions.Values
      ensures Valid()
      ensures r == BlockName(Lookup(dir, codec, ChunkOf(wx), ChunkOf(wz)), wx, wy, wz)
      ensures forall rf :: rf in regions.Values && rf !in old(regions.Values) ==> fresh(rf)
    {
      hide GetBlockIn, Lookup;
      var chunk := GetChunk(ChunkOf(wx), ChunkOf(wz));
      if !chunk.Found? {
        return if chunk.Panicked? then Panicked else Nothing;
      }
      var name := GetBlockIn(chunk.value, wx, wy, wz);
      if name.None? {
        return Panicked;
      }
      return if name.value == Sections.AIR_NAME || name.value == [] then Nothing else Found(name.value);
    }
  }
}
