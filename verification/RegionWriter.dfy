// A writer for region files, as a specification: chunks one after the other, each in sectors of its own.

module RegionWriter {
  import opened Common
  import opened Bits
  import Regions

  const SECTOR := 4096

  /**
   * A chunk to be stored: its entry in the tables, its time, and its compressed bytes. The length in front of them is
   * their number, as `load_chunk` takes it; in the standard layout it counts the byte for the kind of compression too.
   */
  datatype Stored = Stored(entry: nat, time: nat, kind: byte, raw: seq<byte>, standard: bool)

  function Length(st: Stored): nat {
    |st.raw| + if st.standard then 1 else 0
  }

  predicate Storable(st: Stored) {
    st.entry < Regions.CHUNKS && st.time < 0x1_0000_0000 && Length(st) < 0x1_0000_0000
  }

  predicate AllStorable(sts: seq<Stored>) {
    forall i :: 0 <= i < |sts| ==> Storable(sts[i])
  }

  function Zeros(n: nat): (s: seq<byte>)
    ensures |s| == n
  {
    seq(n, _ => 0)
  }

  function Head(st: Stored): (s: seq<byte>)
    ensures |s| == |st.raw| + 5
  {
    ToBigEndian(Length(st), 4) + [st.kind] + st.raw
  }

  function Sectors(st: Stored): nat {
    (|Head(st)| + SECTOR - 1) / SECTOR
  }

  /** The sectors of a chunk. */
  function Block(st: Stored): (s: seq<byte>)
    ensures |s| == SECTOR * Sectors(st)
  {
    Head(st) + Zeros(SECTOR * Sectors(st) - |Head(st)|)
  }

  function Laid(sts: seq<Stored>): seq<byte> {
    if sts == [] then [] else Block(sts[0]) + Laid(sts[1..])
  }

  /** The byte behind a chunk: padding, if its last sector is not full, or else the first one of the next chunk. */
  function NextByte(sts: seq<Stored>, i: nat): Option<byte>
    requires i < |sts|
  {
    if |Head(sts[i])| % SECTOR != 0 then Some(0) else if i + 1 < |sts| then Some(Head(sts[i + 1])[0]) else None
  }

  /** What is taken for a chunk's kind and bytes: in the standard layout, one byte more than there are. */
  function Taken(sts: seq<Stored>, i: nat): Option<(byte, seq<byte>)>
    requires i < |sts|
  {
    if !sts[i].standard then Some((sts[i].kind, sts[i].raw))
    else
      match NextByte(sts, i)
      case None => None
      case Some(b) => Some((sts[i].kind, sts[i].raw + [b]))
  }

  /** The first of the chunks with this entry. */
  function FirstWith(sts: seq<Stored>, entry: nat): (i: nat)
    ensures i <= |sts| && (i < |sts| ==> sts[i].entry == entry)
    ensures forall j :: 0 <= j < i ==> sts[j].entry != entry
  {
    if sts == [] || sts[0].entry == entry then 0 else 1 + FirstWith(sts[1..], entry)
  }

  /** The location of an entry, the chunks being laid out from sector `at` on: a sector, and how many there are. */
  function Located(sts: seq<Stored>, entry: nat, at: nat): nat
    decreases |sts|
  {
    if sts == [] then 0
    else if sts[0].entry == entry then 256 * at + Sectors(sts[0]) % 256
    else Located(sts[1..], entry, at + Sectors(sts[0]))
  }

  function TimeOf(sts: seq<Stored>, entry: nat): nat {
    var i := FirstWith(sts, entry);
    if i < |sts| then sts[i].time else 0
  }

  /** A table of 1024 numbers of four bytes each. */
  function TableBytes(f: nat -> nat): (s: seq<byte>)
    ensures |s| == 4 * Regions.CHUNKS
  {
    seq(4 * Regions.CHUNKS, b requires 0 <= b < 4 * Regions.CHUNKS => ToBigEndian(f(b / 4), 4)[b % 4])
  }

  function RegionBytes(sts: seq<Stored>): seq<byte> {
    TableBytes(e => Located(sts, e, 2)) + TableBytes(e => TimeOf(sts, e)) + Laid(sts)
  }

  /** As many sectors as three bytes can number. */
  predicate Numberable(sts: seq<Stored>) {
    |RegionBytes(sts)| <= 0x10_0000_0000
  }

  lemma TableAt(f: nat -> nat, e: nat)
    requires e < Regions.CHUNKS && f(e) < 0x1_0000_0000
    ensures BigEndian(TableBytes(f)[4 * e..4 * e + 4]) == f(e)
  {
    var part, whole := TableBytes(f)[4 * e..4 * e + 4], ToBigEndian(f(e), 4);
    forall j | 0 <= j < 4
      ensures part[j] == whole[j]
    {
      assert (4 * e + j) / 4 == e && (4 * e + j) % 4 == j;
    }
    assert part == whole;
    Pow256Values();
    BigEndianOfDigits(f(e), 4);
  }

  /** A stored chunk, with the later ones behind it, lies at the sector that its location names. */
  lemma {:induction false} LaidAt(sts: seq<Stored>, entry: nat, at: nat) returns (q: nat)
    requires FirstWith(sts, entry) < |sts|
    ensures var i := FirstWith(sts, entry);
            && Located(sts, entry, at) == 256 * (at + q) + Sectors(sts[i]) % 256
            && SECTOR * q <= |Laid(sts)| && Laid(sts)[SECTOR * q..] == Laid(sts[i..])
    decreases |sts|
  {
    hide Head, Sectors;
    var block, rest := Block(sts[0]), Laid(sts[1..]);
    if sts[0].entry == entry {
      q := 0;
      assert sts[0..] == sts && Laid(sts)[0..] == Laid(sts);
    } else {
      var r := LaidAt(sts[1..], entry, at + Sectors(sts[0]));
      q := Sectors(sts[0]) + r;
      var i := FirstWith(sts, entry);
      assert sts[1..][i - 1] == sts[i] && sts[1..][i - 1..] == sts[i..];
      assert (block + rest)[|block| + SECTOR * r..] == rest[SECTOR * r..];
    }
  }

  lemma SliceBehind(a: seq<byte>, b: seq<byte>, i: nat, n: nat)
    requires i + n <= |b|
    ensures (a + b)[|a| + i..|a| + i + n] == b[i..i + n]
  {
  }

  lemma {:induction false} NotLocated(sts: seq<Stored>, entry: nat, at: nat)
    requires FirstWith(sts, entry) == |sts|
    ensures Located(sts, entry, at) == 0
    decreases |sts|
  {
    if sts != [] { NotLocated(sts[1..], entry, at + Sectors(sts[0])); }
  }

  lemma TablesOf(sts: seq<Stored>, entry: nat)
    requires entry < Regions.CHUNKS && Located(sts, entry, 2) < 0x1_0000_0000 && TimeOf(sts, entry) < 0x1_0000_0000
    ensures var file := RegionBytes(sts);
            && |file| >= Regions.HEADER
            && Regions.Table(file, 0)[entry] == Located(sts, entry, 2)
            && Regions.Table(file, 4096)[entry] == TimeOf(sts, entry)
  {
    hide Located, TimeOf, TableBytes, Laid, BigEndian;
    var places, times, laid := TableBytes(e => Located(sts, e, 2)), TableBytes(e => TimeOf(sts, e)), Laid(sts);
    var file := RegionBytes(sts);
    TableAt(e => Located(sts, e, 2), entry);
    TableAt(e => TimeOf(sts, e), entry);
    assert file == places + (times + laid);
    assert file[4 * entry..4 * entry + 4] == places[4 * entry..4 * entry + 4];
    SliceBehind(places, times + laid, 4 * entry, 4);
    assert (times + laid)[4 * entry..4 * entry + 4] == times[4 * entry..4 * entry + 4];
    assert file[4096 + 4 * entry..4096 + 4 * entry + 4] == times[4 * entry..4 * entry + 4];
  }

  lemma StoredHead(file: seq<byte>, at: nat, st: Stored, behind: seq<byte>)
    requires Storable(st) && at <= |file| && file[at..] == Head(st) + behind
    ensures Regions.StoredAt(file, at)
         == if !st.standard then Some((st.kind, st.raw))
            else if behind == [] then None else Some((st.kind, st.raw + [behind[0]]))
  {
    HeadParts(file, at, st, behind);
    hide Head, Regions.Number;
    var more := st.raw + behind;
    if Length(st) <= |more| {
      SliceWithin(file, at, Length(st), more);
      if st.standard { assert more[..Length(st)] == st.raw + [behind[0]]; } else { assert more[..Length(st)] == st.raw; }
    }
  }

  lemma SliceWithin(file: seq<byte>, at: nat, n: nat, more: seq<byte>)
    requires at + 5 <= |file| && file[at..][5..] == more && n <= |more|
    ensures file[at + 5..at + 5 + n] == more[..n]
  {
    assert file[at..][5..] == file[at + 5..];
  }

  lemma HeadParts(file: seq<byte>, at: nat, st: Stored, behind: seq<byte>)
    requires Storable(st) && at <= |file| && file[at..] == Head(st) + behind
    ensures |file| == at + 5 + |st.raw| + |behind|
    ensures Regions.Number(file, at) == Length(st) && file[at + 4] == st.kind && file[at..][5..] == st.raw + behind
  {
    var size, tail := ToBigEndian(Length(st), 4), file[at..];
    assert tail == size + ([st.kind] + (st.raw + behind));
    assert file[at..at + 4] == tail[..4] == size;
    assert file[at + 4] == tail[4] == st.kind;
    Pow256Values();
    BigEndianOfDigits(Length(st), 4);
  }

  /** What lies behind a chunk begins with its next byte. */
  lemma LaidBehind(sts: seq<Stored>, i: nat) returns (behind: seq<byte>)
    requires i < |sts|
    ensures Laid(sts[i..]) == Head(sts[i]) + behind
    ensures NextByte(sts, i) == if behind == [] then None else Some(behind[0])
  {
    hide Head;
    var st, rest := sts[i], sts[i + 1..];
    var pad := Zeros(SECTOR * Sectors(st) - |Head(st)|);
    behind := pad + Laid(rest);
    assert sts[i..][0] == st && sts[i..][1..] == rest;
    assert Laid(sts[i..]) == Head(st) + pad + Laid(rest);
    if |Head(st)| % SECTOR == 0 {
      assert behind == Laid(rest);
      if rest != [] { LaidFirst(rest); }
    } else {
      assert behind[0] == pad[0] == 0;
    }
  }

  lemma LaidFirst(sts: seq<Stored>)
    requires sts != []
    ensures |Laid(sts)| > 0 && Laid(sts)[0] == Head(sts[0])[0]
  {
    hide Head;
    assert Laid(sts)[0] == Block(sts[0])[0];
  }

  lemma StoredFirst(file: seq<byte>, at: nat, sts: seq<Stored>, i: nat)
    requires i < |sts| && Storable(sts[i]) && at <= |file| && file[at..] == Laid(sts[i..])
    ensures Regions.StoredAt(file, at) == Taken(sts, i)
  {
    hide Head, Laid, NextByte, Storable, Regions.StoredAt;
    var behind := LaidBehind(sts, i);
    StoredHead(file, at, sts[i], behind);
  }

  lemma SectorOf(at: nat, sectors: nat)
    ensures Regions.SectorStart(256 * at + sectors % 256) == SECTOR * at
  {
    Pow2Values();
    DivMod(256 * at + sectors % 256, 256, at, sectors % 256);
  }

  /**
   * In a written region file, a chunk that was stored is what its entry leads to, and no other entry leads anywhere. In
   * the standard layout, what it leads to is one byte too long; it is not there if that byte lies past the end.
   */
  lemma RegionHolds(sts: seq<Stored>, entry: nat)
    requires AllStorable(sts) && Numberable(sts) && entry < Regions.CHUNKS
    ensures var file, i := RegionBytes(sts), FirstWith(sts, entry);
            && |file| >= Regions.HEADER
            && var location := Regions.Table(file, 0)[entry];
            && (location == 0 <==> i == |sts|)
            && (i < |sts| ==>
                  && Regions.StoredAt(file, Regions.SectorStart(location)) == Taken(sts, i)
                  && Regions.Table(file, 4096)[entry] == sts[i].time)
  {
    var i := FirstWith(sts, entry);
    if i == |sts| {
      NotLocated(sts, entry, 2);
      TablesOf(sts, entry);
    } else {
      StoredRegionHolds(sts, i, entry);
    }
  }

  lemma StoredRegionHolds(sts: seq<Stored>, i: nat, entry: nat)
    requires AllStorable(sts) && Numberable(sts) && i < |sts| && i == FirstWith(sts, entry) && entry < Regions.CHUNKS
    ensures var file := RegionBytes(sts);
            && |file| >= Regions.HEADER
            && var location := Regions.Table(file, 0)[entry];
            && location != 0
            && Regions.StoredAt(file, Regions.SectorStart(location)) == Taken(sts, i)
            && Regions.Table(file, 4096)[entry] == sts[i].time
  {
    hide Located, TableBytes, Laid, Head, Sectors, Regions.SectorStart, Regions.StoredAt, Regions.Table, RegionBytes, FirstWith, Block,
      Numberable, Taken;
    var q := LaidAt(sts, entry, 2);
    assert TimeOf(sts, entry) == sts[i].time < 0x1_0000_0000 by { assert Storable(sts[i]); }
    StoredBehindTables(sts, i, q);
    hide *;
    TablesOf(sts, entry);
    SectorOf(2 + q, Sectors(sts[i]));
  }

  lemma StoredBehindTables(sts: seq<Stored>, i: nat, q: nat)
    requires AllStorable(sts) && Numberable(sts) && i < |sts|
    requires SECTOR * q <= |Laid(sts)| && Laid(sts)[SECTOR * q..] == Laid(sts[i..])
    ensures Regions.StoredAt(RegionBytes(sts), SECTOR * (2 + q)) == Taken(sts, i)
    ensures 256 * (2 + q) + 255 < 0x1_0000_0000
  {
    assert Storable(sts[i]);
    assert |Laid(sts[i..])| > 0 by { assert sts[i..] != []; LaidFirst(sts[i..]); }
    assert RegionBytes(sts)[8192..] == Laid(sts) by { LaidBehindTables(sts); }
    hide Laid, Storable, RegionBytes, Regions.StoredAt, Taken;
    SectorBehind(RegionBytes(sts), Laid(sts), q);
    StoredFirst(RegionBytes(sts), SECTOR * (2 + q), sts, i);
  }

  lemma LaidBehindTables(sts: seq<Stored>)
    ensures |RegionBytes(sts)| >= 8192 && RegionBytes(sts)[8192..] == Laid(sts)
  {
    hide TableBytes, Laid;
    var tables := TableBytes(e => Located(sts, e, 2)) + TableBytes(e => TimeOf(sts, e));
    assert |tables| == 8192 && (tables + Laid(sts))[|tables|..] == Laid(sts);
  }

  lemma SectorBehind(file: seq<byte>, laid: seq<byte>, q: nat)
    requires 8192 <= |file| <= 0x10_0000_0000 && file[8192..] == laid && SECTOR * q < |laid|
    ensures SECTOR * (2 + q) < |file| && file[SECTOR * (2 + q)..] == laid[SECTOR * q..]
    ensures 256 * (2 + q) + 255 < 0x1_0000_0000
  {
    assert SECTOR * (2 + q) == 8192 + SECTOR * q;
    assert file[8192..][SECTOR * q..] == file[8192 + SECTOR * q..];
  }
}
