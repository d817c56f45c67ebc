// Region files: a table of 32 by 32 chunk locations, then the chunks themselves in 4 KiB sectors.

module Regions {
  import opened Common
  import opened Bits
  import opened Decimals
  import opened Utf8
  import Nbt

  /** `Io` stands for every error of the operating system or of a decompressor, `Panic` for a Rust panic. */
  datatype RegionError =
    | Io | NbtError(error: Nbt.NbtError) | HeaderTooSmall(size: nat) | ChunkNotPresent(x: int, z: int)
    | UnsupportedCompression(kind: byte) | Panic

  /** The two decompressors. */
  datatype Codec = Codec(gunzip: seq<byte> -> Option<seq<byte>>, inflate: seq<byte> -> Option<seq<byte>>)

  /** The files of the region directory by name. */
  type Directory = map<seq<byte>, seq<byte>>

  /** An opened region: its coordinates, which come from the file name, and the file's bytes. */
  datatype Region = Region(x: int, z: int, file: seq<byte>)

  datatype RegionChunk = RegionChunk(x: int, z: int, data: Nbt.Value, timestamp: nat)

  const HEADER := 8192
  const CHUNKS := 1024

  // ---- file names ----

  const DOT: byte := 46

  /** "r.{rx}.{rz}.mca" */
  function RegionName(rx: int, rz: int): seq<byte> {
    Stem(rx, rz) + Ascii(".mca")
  }

  function Stem(rx: int, rz: int): seq<byte> {
    Ascii("r") + [DOT] + (Decimal(rx) + [DOT] + Decimal(rz))
  }

  function LastDot(s: seq<byte>): (i: int)
    ensures -1 <= i < |s|
  {
    if s == [] then -1 else if s[|s| - 1] == DOT then |s| - 1 else LastDot(s[..|s| - 1])
  }

  /** `Path::file_stem` of a file name. */
  function FileStem(name: seq<byte>): seq<byte> {
    if name == [DOT, DOT] || LastDot(name) <= 0 then name else name[..LastDot(name)]
  }

  /** The length of the part before the first dot. */
  function Piece(s: seq<byte>): (n: nat)
    ensures n <= |s|
  {
    if s == [] || s[0] == DOT then 0 else 1 + Piece(s[1..])
  }

  /** `split('.')` */
  function Split(s: seq<byte>): (parts: seq<seq<byte>>)
    ensures |parts| > 0
    decreases |s|
  {
    var n := Piece(s);
    if n == |s| then [s] else [s[..n]] + Split(s[n + 1..])
  }

  function ParseOrZero(s: seq<byte>): int {
    match ParseInt(s)
    case Some(v) => v
    case None => 0
  }

  /** The region's coordinates according to its file name; (0, 0) for a name of another form. */
  function CoordinatesOf(name: seq<byte>): (int, int) {
    var stem := FileStem(name);
    var parts := Split(if ValidUtf8(stem) then stem else []);
    if |parts| >= 3 && parts[0] == Ascii("r") then (ParseOrZero(parts[1]), ParseOrZero(parts[2])) else (0, 0)
  }

  lemma {:induction false} SplitAtDot(a: seq<byte>, rest: seq<byte>)
    requires DOT !in a
    ensures Piece(a) == |a| && Piece(a + [DOT] + rest) == |a|
    ensures Split(a) == [a] && Split(a + [DOT] + rest) == [a] + Split(rest)
    decreases |a|
  {
    var s := a + [DOT] + rest;
    if a != [] {
      SplitAtDot(a[1..], rest);
      assert s[1..] == a[1..] + [DOT] + rest;
    }
    assert s[..|a|] == a && s[|a| + 1..] == rest;
  }

  lemma StemOfName(stem: seq<byte>)
    requires stem != []
    ensures FileStem(stem + Ascii(".mca")) == stem
  {
    var name := stem + Ascii(".mca");
    var n := |stem|;
    assert name[..n + 3][..n + 2] == name[..n + 2] && name[..n + 2][..n + 1] == name[..n + 1];
    assert LastDot(name) == LastDot(name[..n + 3]) == LastDot(name[..n + 2]) == LastDot(name[..n + 1]) == n;
    assert name[..n] == stem;
  }

  lemma SplitThree(a: seq<byte>, b: seq<byte>, c: seq<byte>)
    requires DOT !in a && DOT !in b && DOT !in c
    ensures Split(a + [DOT] + (b + [DOT] + c)) == [a, b, c]
  {
    SplitAtDot(a, b + [DOT] + c);
    SplitAtDot(b, c);
    SplitAtDot(c, []);
    hide Split, Piece;
    var parts := [b] + [c];
    assert [a] + parts == [a, b, c];
  }

  lemma DecimalHasNoDot(v: int)
    requires InRange(W32, v)
    ensures DOT !in Decimal(v) && forall i :: 0 <= i < |Decimal(v)| ==> Decimal(v)[i] < 128
  {
    DecimalBack(v);
    hide Decimal;
  }

  lemma PartsOfStem(rx: int, rz: int)
    requires InRange(W32, rx) && InRange(W32, rz)
    ensures Split(Stem(rx, rz)) == [Ascii("r"), Decimal(rx), Decimal(rz)]
    ensures ValidUtf8(Stem(rx, rz))
  {
    assert Ascii("r") == [114];
    DecimalHasNoDot(rx);
    DecimalHasNoDot(rz);
    hide Decimal, Split, ValidUtf8, Ascii;
    SplitThree([114], Decimal(rx), Decimal(rz));
    AsciiIsValid(Stem(rx, rz));
  }

  /** A text without dots. */
  predicate Undotted(s: seq<byte>) {
    DOT !in s && forall i :: 0 <= i < |s| ==> s[i] < 128
  }

  /** What other names stand for: without the "r", or with fewer parts, the origin; a part that is not a number is zero. */
  lemma OtherNames(a: seq<byte>, b: seq<byte>, c: seq<byte>)
    requires Undotted(a) && Undotted(b) && Undotted(c)
    ensures CoordinatesOf(a + [DOT] + (b + [DOT] + c) + Ascii(".mca"))
         == if a != Ascii("r") then (0, 0)
            else (match ParseInt(b) case Some(x) => x case None => 0, match ParseInt(c) case Some(z) => z case None => 0)
    ensures CoordinatesOf(a + [DOT] + b + Ascii(".mca")) == (0, 0)
  {
    hide FileStem, Split, ValidUtf8, ParseInt, Ascii;
    var three, two := a + [DOT] + (b + [DOT] + c), a + [DOT] + b;
    AsciiIsValid(three);
    AsciiIsValid(two);
    StemOfName(three);
    StemOfName(two);
    SplitThree(a, b, c);
    SplitAtDot(a, b);
    SplitAtDot(b, []);
    assert Split(two) == [a, b];
  }

  /** A name that is not UTF-8 stands for the origin as well. */
  lemma OddNames(stem: seq<byte>)
    requires stem != [] && !ValidUtf8(stem)
    ensures CoordinatesOf(stem + Ascii(".mca")) == (0, 0)
  {
    hide FileStem, ValidUtf8, ParseInt, Ascii;
    StemOfName(stem);
  }

  /** The coordinates that a region file is opened with are the ones its name was made from. */
  lemma NameBack(rx: int, rz: int)
    requires InRange(W32, rx) && InRange(W32, rz)
    ensures CoordinatesOf(RegionName(rx, rz)) == (rx, rz)
  {
    hide Decimal, ParseInt, FileStem, Split, ValidUtf8, Stem, Ascii;
    assert Stem(rx, rz) != [] by { StemNotEmpty(rx, rz); }
    StemOfName(Stem(rx, rz));
    PartsOfStem(rx, rz);
    DecimalBack(rx);
    DecimalBack(rz);
  }

  lemma StemNotEmpty(rx: int, rz: int)
    ensures Stem(rx, rz) != []
  {
  }

  // ---- the header ----

  /** The 1024 big-endian numbers from byte `start` on. */
  function Table(file: seq<byte>, start: nat): (t: seq<nat>)
    requires start + 4 * CHUNKS <= |file|
    ensures |t| == CHUNKS
  {
    seq(CHUNKS, i requires 0 <= i < CHUNKS => Number(file, start + 4 * i))
  }

  function Number(file: seq<byte>, at: nat): nat
    requires at + 4 <= |file|
  {
    BigEndian(file[at..at + 4])
  }

  /** Opening a file by name. */
  function Opened(dir: Directory, name: seq<byte>): (r: Result<Region, RegionError>)
    ensures r.Success? ==> |r.value.file| >= HEADER
  {
    if name !in dir then Failure(Io)
    else if |dir[name]| < HEADER then Failure(HeaderTooSmall(|dir[name]|))
    else
      var (x, z) := CoordinatesOf(name);
      Success(Region(x, z, dir[name]))
  }

  // ---- the position of a chunk in the table ----

  /** A subtraction or multiplication of `i32`s; nothing if it overflows. */
  function Checked(v: int): Option<int> {
    if InRange(W32, v) then Some(v) else None
  }

  /** `chunk - region * 32` and then `as usize`. */
  function LocalCoordinate(region: int, chunk: int): Option<nat> {
    if Checked(region * 32).None? then None
    else
      match Checked(chunk - region * 32)
      case None => None
      case Some(d) => Some(AsUsize(d))
  }

  /** The index into the table; nothing if computing it or using it panics. */
  function LocalIndex(region: Region, cx: int, cz: int): (i: Option<nat>)
    ensures i.Some? ==> i.value < CHUNKS
  {
    var lx, lz := LocalCoordinate(region.x, cx), LocalCoordinate(region.z, cz);
    if lx.None? || lz.None? || lz.value * 32 >= 0x1_0000_0000_0000_0000 then None
    else if lx.value + lz.value * 32 < CHUNKS then Some(lx.value + lz.value * 32) else None
  }

  predicate Inside(region: int, chunk: int) {
    region * 32 <= chunk < region * 32 + 32
  }

  function HasChunk(region: Region, cx: int, cz: int): Option<bool>
    requires |region.file| >= HEADER
  {
    match LocalIndex(region, cx, cz)
    case None => None
    case Some(i) => Some(Table(region.file, 0)[i] != 0)
  }

  /**
   * When the table can be asked about a chunk without a panic: the region's corner fits in 32 bits, and the chunk lies
   * neither before it nor past the end of the table, which is reached later than the end of the region.
   */
  lemma IndexExactly(region: Region, cx: int, cz: int)
    requires InRange(W32, cx) && InRange(W32, cz)
    ensures var dx, dz := cx - region.x * 32, cz - region.z * 32;
            LocalIndex(region, cx, cz)
            == if InRange(W32, region.x * 32) && InRange(W32, region.z * 32) && 0 <= dx && 0 <= dz && dx + 32 * dz < CHUNKS
               then Some(dx + 32 * dz) else None
  {
    hide LocalCoordinate;
    LocalExactly(region.x, cx);
    LocalExactly(region.z, cz);
  }

  /** A chunk before the region has a huge local coordinate. */
  lemma LocalExactly(region: int, chunk: int)
    requires InRange(W32, chunk)
    ensures var l, d := LocalCoordinate(region, chunk), chunk - region * 32;
            && (l.Some? <==> InRange(W32, region * 32) && InRange(W32, d))
            && (l.Some? && d >= 0 ==> l.value == d)
            && (l.Some? && d < 0 ==> l.value >= 0x7FFF_FFFF_FFFF_FFFF)
  {
  }

  /** Inside the region every chunk has its own entry. */
  lemma IndexInside(region: Region, cx: int, cz: int)
    requires InRange(W32, region.x * 32) && InRange(W32, region.z * 32) && InRange(W32, cx) && InRange(W32, cz)
    requires Inside(region.x, cx) && Inside(region.z, cz)
    ensures LocalIndex(region, cx, cz).Some?
    ensures LocalIndex(region, cx, cz).value % 32 == cx - region.x * 32
    ensures LocalIndex(region, cx, cz).value / 32 == cz - region.z * 32
  {
    IndexExactly(region, cx, cz);
    hide LocalIndex;
    DivMod(LocalIndex(region, cx, cz).value, 32, cz - region.z * 32, cx - region.x * 32);
  }

  /**
   * `has_chunk` is asked about chunks by absolute coordinates. East of the region it answers for the chunk 32 to the
   * west and one to the south: two chunks share an entry exactly when they differ by a multiple of that step.
   */
  lemma AliasesExactly(region: Region, cx: int, cz: int, dx: int, dz: int)
    requires InRange(W32, cx) && InRange(W32, cz) && InRange(W32, dx) && InRange(W32, dz)
    requires LocalIndex(region, cx, cz).Some? && LocalIndex(region, dx, dz).Some?
    ensures LocalIndex(region, cx, cz) == LocalIndex(region, dx, dz) <==> dx == cx - 32 * (dz - cz)
  {
    IndexExactly(region, cx, cz);
    IndexExactly(region, dx, dz);
  }

  /** A chunk outside the region is answered for rather than refused exactly in this strip. */
  lemma OutsideAnsweredExactly(region: Region, cx: int, cz: int)
    requires InRange(W32, region.x * 32) && InRange(W32, region.z * 32) && InRange(W32, cx) && InRange(W32, cz)
    ensures LocalIndex(region, cx, cz).Some? && !(Inside(region.x, cx) && Inside(region.z, cz))
       <==> Inside(region.z, cz) && region.x * 32 + 32 <= cx < region.x * 32 + 32 * (32 - (cz - region.z * 32))
  {
    IndexExactly(region, cx, cz);
  }

  // ---- loading a chunk ----

  function Decompressed(codec: Codec, kind: byte, raw: seq<byte>): Result<seq<byte>, RegionError> {
    match kind
    case 1 => Unpacked(codec.gunzip(raw))
    case 2 => Unpacked(codec.inflate(raw))
    case 3 => Success(raw)
    case _ => Failure(UnsupportedCompression(kind))
  }

  function Unpacked(out: Option<seq<byte>>): Result<seq<byte>, RegionError> {
    match out
    case Some(s) => Success(s)
    case None => Failure(Io)
  }

  /** The stored chunk at this byte: a length, a kind of compression, and as many bytes as the length says. */
  function StoredAt(file: seq<byte>, at: nat): Option<(byte, seq<byte>)> {
    if |file| < at + 5 then None
    else if |file| < at + 5 + Number(file, at) then None
    else Some((file[at + 4], file[at + 5..at + 5 + Number(file, at)]))
  }

  function ParsedChunk(codec: Codec, kind: byte, raw: seq<byte>): Result<Nbt.Value, RegionError> {
    match Decompressed(codec, kind, raw)
    case Failure(e) => Failure(e)
    case Success(s) =>
      match Nbt.ParseRoot(s)
      case Ok(v, _) => Success(v)
      case Err(e) => Failure(if e == Nbt.Panic then Panic else NbtError(e))
  }

  /** The byte that a location points to. */
  function SectorStart(location: nat): nat {
    Shr(location, 8) * 4096
  }

  /** `load_chunk` */
  function Load(region: Region, codec: Codec, cx: int, cz: int): Result<RegionChunk, RegionError>
    requires |region.file| >= HEADER
  {
    match LocalIndex(region, cx, cz)
    case None => Failure(Panic)
    case Some(i) =>
      var location := Table(region.file, 0)[i];
      if location == 0 then Failure(ChunkNotPresent(cx, cz))
      else
        match StoredAt(region.file, SectorStart(location))
        case None => Failure(Io)
        case Some((kind, raw)) =>
          match ParsedChunk(codec, kind, raw)
          case Failure(e) => Failure(e)
          case Success(v) => Success(RegionChunk(cx, cz, v, Table(region.file, 4096)[i]))
  }

  /** A chunk that the table has lies where the upper three bytes of its entry say, and which error it gives if it is not whole. */
  lemma LoadErrors(region: Region, codec: Codec, cx: int, cz: int, i: nat)
    requires |region.file| >= 8192 && LocalIndex(region, cx, cz) == Some(i) && BigEndian(region.file[4 * i..4 * i + 4]) != 0
    ensures var file, at := region.file, BigEndian(region.file[4 * i..4 * i + 4]) / 256 * 4096;
            if |file| < at + 5 || |file| < at + 5 + BigEndian(file[at..at + 4]) then Load(region, codec, cx, cz) == Failure(Io)
            else
              var kind, raw := file[at + 4], file[at + 5..at + 5 + BigEndian(file[at..at + 4])];
              && (kind == 0 || kind > 3 ==> Load(region, codec, cx, cz) == Failure(UnsupportedCompression(kind)))
              && (kind == 1 && codec.gunzip(raw) == None ==> Load(region, codec, cx, cz) == Failure(Io))
              && (kind == 2 && codec.inflate(raw) == None ==> Load(region, codec, cx, cz) == Failure(Io))
              && (kind == 3 && Nbt.ParseRoot(raw).Err? && Nbt.ParseRoot(raw).error != Nbt.Panic ==>
                    Load(region, codec, cx, cz) == Failure(NbtError(Nbt.ParseRoot(raw).error)))
  {
    hide BigEndian, Nbt.ParseRoot, LocalIndex;
    var location := Number(region.file, 4 * i);
    assert Table(region.file, 0)[i] == location;
    assert SectorStart(location) == location / 256 * 4096 by { Pow2Values(); }
    hide SectorStart;
  }

  /** A chunk is loaded only if the table has it, and a chunk the table does not have is reported as such. */
  lemma LoadNeedsEntry(region: Region, codec: Codec, cx: int, cz: int)
    requires |region.file| >= HEADER && HasChunk(region, cx, cz).Some?
    ensures Load(region, codec, cx, cz) == Failure(ChunkNotPresent(cx, cz)) <==> HasChunk(region, cx, cz) == Some(false)
  {
  }

  // ---- the reader as it runs ----

  class RegionFile {
    const file: seq<byte>
    var cursor: nat
    const regionX: int
    const regionZ: int
    const locations: seq<nat>
    const timestamps: seq<nat>

    predicate Valid() {
      && |file| >= HEADER
      && locations == Table(file, 0)
      && timestamps == Table(file, 4096)
    }

    function AsRegion(): Region {
      Region(regionX, regionZ, file)
    }

    constructor (file: seq<byte>, cursor: nat, x: int, z: int, locations: seq<nat>, timestamps: seq<nat>)
      ensures this.file == file && this.cursor == cursor && AsRegion() == Region(x, z, file)
      ensures this.locations == locations && this.timestamps == timestamps
    {
      this.file := file;
      this.cursor := cursor;
      this.regionX := x;
      this.regionZ := z;
      this.locations := locations;
      this.timestamps := timestamps;
    }

    static method Open(dir: Directory, name: seq<byte>) returns (r: Result<RegionFile, RegionError>)
      ensures match Opened(dir, name)
              case Failure(e) => r == Failure(e)
              case Success(region) =>
                r.Success? && fresh(r.value) && r.value.Valid() && r.value.AsRegion() == region
      ensures r.Success? <==> name in dir && |dir[name]| >= 8192
      ensures name in dir && |dir[name]| < 8192 ==> r == Failure(HeaderTooSmall(|dir[name]|))
      ensures name !in dir ==> r == Failure(Io)
    {
      hide CoordinatesOf, BigEndian;
      var (x, z) := CoordinatesOf(name);
      if name !in dir {
        return Failure(Io);
      }
      var file := dir[name];
      if |file| < HEADER {
        return Failure(HeaderTooSmall(|file|));
      }
      var header := file[..HEADER];
      var locations := ReadTable(file, header, 0);
      var timestamps := ReadTable(file, header, 4096);
      var region := new RegionFile(file, HEADER, x, z, locations, timestamps);
      return Success(region);
    }

    /** `read_exact`: fails if the file ends first. */
    method ReadExact(n: nat) returns (r: Option<seq<byte>>)
      modifies this
      ensures if old(cursor) + n <= |file|
              then r == Some(file[old(cursor)..old(cursor) + n]) && cursor == old(cursor) + n
              else r == None
    {
      if cursor + n <= |file| {
        r := Some(file[cursor..cursor + n]);
        cursor := cursor + n;
      } else {
        r := None;
        cursor := |file|;
      }
    }

    /** The answer does not depend on where the last call left the cursor. */
    method LoadChunk(codec: Codec, cx: int, cz: int) returns (r: Result<RegionChunk, RegionError>)
      requires Valid()
      modifies this
      ensures r == Load(AsRegion(), codec, cx, cz)
    {
      hide BigEndian, Table, LocalIndex, SectorStart, Nbt.ParseRoot;
      var idx := LocalIndex(AsRegion(), cx, cz);
      if idx.None? {
        return Failure(Panic);
      }
      var loc := locations[idx.value];
      if loc == 0 {
        return Failure(ChunkNotPresent(cx, cz));
      }
      var offset := SectorStart(loc);
      cursor := offset;
      var lenBuf := ReadExact(4);
      if lenBuf.None? {
        return Failure(Io);
      }
      var declared := BigEndian(lenBuf.value);
      assert |file| >= offset + 5 ==> declared == Number(file, offset);
      var compBuf := ReadExact(1);
      if compBuf.None? {
        return Failure(Io);
      }
      var raw := ReadExact(declared);
      if raw.None? {
        return Failure(Io);
      }
      assert StoredAt(file, offset) == Some((compBuf.value[0], raw.value));
      var decompressed := Decompressed(codec, compBuf.value[0], raw.value);
      if decompressed.Failure? {
        return Failure(decompressed.error);
      }
      var parsed := Nbt.ParseRoot(decompressed.value);
      match parsed
      case Err(e) => return Failure(if e == Nbt.Panic then Panic else NbtError(e));
      case Ok(data, _) => return Success(RegionChunk(cx, cz, data, timestamps[idx.value]));
    }

    /**
     * `chunk_coords` lists the chunks of the region that `has_chunk` finds, each once;
     * it panics exactly if there is one and the region's corner does not fit in 32 bits.
     */
    method ChunkCoords() returns (coords: Option<seq<(int, int)>>)
      requires Valid()
      ensures coords == None <==> Corner(AsRegion()).None? && exists i :: 0 <= i < CHUNKS && locations[i] != 0
      ensures coords.Some? ==> Lists(AsRegion(), coords.value, CHUNKS)
    {
      hide Table;
      var region := AsRegion();
      var found: seq<(int, int)> := [];
      for lz := 0 to 32
        invariant Lists(region, found, 32 * lz)
        invariant Corner(region).None? ==> forall i :: 0 <= i < 32 * lz ==> locations[i] == 0
      {
        for lx := 0 to 32
          invariant Lists(region, found, 32 * lz + lx)
          invariant Corner(region).None? ==> forall i :: 0 <= i < 32 * lz + lx ==> locations[i] == 0
        {
          var idx := lx + lz * 32;
          if locations[idx] != 0 {
            if Checked(regionX * 32).None? || Checked(regionZ * 32).None? {
              return None;
            }
            var at := (regionX * 32 + lx, regionZ * 32 + lz);
            ListOne(region, found, lx, lz);
            found := found + [at];
          } else {
            SkipOne(region, found, lx, lz);
          }
        }
      }
      return Some(found);
    }
  }

  method ReadTable(file: seq<byte>, header: seq<byte>, start: nat) returns (t: seq<nat>)
    requires |file| >= HEADER && header == file[..HEADER] && start + 4 * CHUNKS <= HEADER
    ensures t == Table(file, start)
  {
    t := [];
    for i := 0 to CHUNKS
      invariant t == Table(file, start)[..i]
    {
      hide BigEndian;
      var off := start + 4 * i;
      assert header[off..off + 4] == file[off..off + 4];
      t := t + [BigEndian(header[off..off + 4])];
    }
  }

  /** The region's corner, if it fits in 32 bits. */
  function Corner(region: Region): Option<(int, int)> {
    if Checked(region.x * 32).Some? && Checked(region.z * 32).Some? then Some((region.x * 32, region.z * 32)) else None
  }

  function PlaceOf(region: Region, at: (int, int)): int {
    at.0 - region.x * 32 + 32 * (at.1 - region.z * 32)
  }

  predicate Listable(region: Region, at: (int, int), end: nat)
    requires |region.file| >= HEADER
  {
    && Inside(region.x, at.0) && Inside(region.z, at.1)
    && PlaceOf(region, at) < end
    && HasChunk(region, at.0, at.1) == Some(true)
  }

  /** `coords` are the chunks of the region before entry `end` that the table has, each once and in order. */
  ghost predicate Lists(region: Region, coords: seq<(int, int)>, end: nat)
    requires |region.file| >= HEADER
  {
    && (forall k :: 0 <= k < |coords| ==> Listable(region, coords[k], end))
    && (forall j, k :: 0 <= j < k < |coords| ==> PlaceOf(region, coords[j]) < PlaceOf(region, coords[k]))
    && (forall at: (int, int) :: Listable(region, at, end) ==> at in coords)
  }

  /** A chunk of the region lies at entry `lx + 32 lz` exactly if it is the one with these local coordinates. */
  lemma PlaceExactly(region: Region, at: (int, int), lx: nat, lz: nat)
    requires Inside(region.x, at.0) && Inside(region.z, at.1) && lx < 32 && lz < 32
    ensures PlaceOf(region, at) == 32 * lz + lx <==> at == (region.x * 32 + lx, region.z * 32 + lz)
  {
  }

  /** What `has_chunk` says of a chunk of the region is what its entry says. */
  lemma ListableExactly(region: Region, at: (int, int), end: nat)
    requires |region.file| >= HEADER && Inside(region.x, at.0) && Inside(region.z, at.1) && PlaceOf(region, at) < end
    ensures Listable(region, at, end) <==> Corner(region).Some? && Table(region.file, 0)[PlaceOf(region, at)] != 0
  {
    hide Table;
  }

  lemma ListOne(region: Region, coords: seq<(int, int)>, lx: nat, lz: nat)
    requires |region.file| >= HEADER && Lists(region, coords, 32 * lz + lx) && lx < 32 && lz < 32
    requires Corner(region).Some? && Table(region.file, 0)[32 * lz + lx] != 0
    ensures Lists(region, coords + [(region.x * 32 + lx, region.z * 32 + lz)], 32 * lz + lx + 1)
  {
    var end, here := 32 * lz + lx, (region.x * 32 + lx, region.z * 32 + lz);
    var all := coords + [here];
    PlaceExactly(region, here, lx, lz);
    ListableExactly(region, here, end + 1);
    hide HasChunk, Table;
    assert Listable(region, here, end + 1);
    forall k | 0 <= k < |all|
      ensures Listable(region, all[k], end + 1)
    {
      if k < |coords| { assert Listable(region, coords[k], end); }
    }
    forall at: (int, int) | Listable(region, at, end + 1)
      ensures at in all
    {
      if PlaceOf(region, at) < end {
        assert Listable(region, at, end) && at in coords;
      } else {
        PlaceExactly(region, at, lx, lz);
        assert all[|coords|] == at;
      }
    }
  }

  lemma SkipOne(region: Region, coords: seq<(int, int)>, lx: nat, lz: nat)
    requires |region.file| >= HEADER && Lists(region, coords, 32 * lz + lx) && lx < 32 && lz < 32
    requires Table(region.file, 0)[32 * lz + lx] == 0
    ensures Lists(region, coords, 32 * lz + lx + 1)
  {
    var end := 32 * lz + lx;
    forall k | 0 <= k < |coords|
      ensures Listable(region, coords[k], end + 1)
    {
      hide HasChunk, Table;
      assert Listable(region, coords[k], end);
    }
    forall at: (int, int) | Listable(region, at, end + 1)
      ensures at in coords
    {
      ListableExactly(region, at, end + 1);
      hide HasChunk, Table;
      assert Listable(region, at, end);
    }
  }
}
