// Chunk sections: 4096 palette indices packed back to back into 64-bit words, an index possibly straddling two words.

module Sections {
  import opened Common
  import opened Bits

  /** A block state; its strings are represented by their bytes. */
  datatype BlockState = BlockState(name: seq<byte>, properties: seq<(seq<byte>, seq<byte>)>)

  /** The block reported for an index outside the palette. */
  const AIR := BlockState([], [])

  /** "minecraft:air" */
  const AIR_NAME: seq<byte> := [109, 105, 110, 101, 99, 114, 97, 102, 116, 58, 97, 105, 114]

  /** Biomes are not part of this model. */
  datatype Section = Section(y: int, palette: seq<BlockState>, blockData: seq<int>, bitsPerBlock: nat)

  const BLOCKS_PER_SECTION := 4096

  /** `extract_packed`; nothing if it panics. */
  function ExtractPacked(data: seq<int>, bits: nat, index: nat): Option<nat> {
    if bits == 0 then Some(0)
    else
      var bitOffset := BitOffset(bits, index);
      var longIdx, shift := bitOffset / 64, bitOffset % 64;
      if bitOffset >= 0x1_0000_0000_0000_0000 || longIdx >= |data| || bits >= 64 then None
      else
        Some(And(Joined(data, bits, longIdx, shift), Mask(bits)))
  }

  function BitOffset(bits: nat, index: nat): nat {
    index * bits
  }

  /** `(1u64 << bits) - 1` */
  function Mask(bits: nat): (mask: nat)
    requires bits < 64
    ensures mask == Pow2(bits) - 1
  {
    ShlOne(bits);
    Shl(1, bits, 64) - 1
  }

  /** The word at `longIdx` shifted down, with the low bits of the next one above it if the entry reaches there. */
  function Joined(data: seq<int>, bits: nat, longIdx: nat, shift: nat): nat
    requires longIdx < |data| && shift < 64
  {
    var value: nat := Shr(Unsigned(W64, data[longIdx]), shift);
    if shift + bits > 64 then Or(value, Shl(WordOrZero(data, longIdx + 1), 64 - shift, 64)) else value
  }

  function WordOrZero(data: seq<int>, i: nat): nat {
    if i < |data| then Unsigned(W64, data[i]) else 0
  }

  /** `calculate_bits_per_block` */
  method CalculateBitsPerBlock(paletteSize: nat) returns (bits: nat)
    requires paletteSize <= 0x7FFF_FFFF_FFFF_FFFF
    ensures BitsFor(paletteSize, bits)
  {
    if paletteSize <= 1 {
      return 0;
    }
    Pow2Values();
    bits := 4;
    while Shl(1, bits, 64) < paletteSize
      invariant 4 <= bits <= 63
      invariant bits > 4 ==> Pow2(bits - 1) < paletteSize
      decreases 64 - bits
    {
      ShlOne(bits);
      bits := bits + 1;
    }
    ShlOne(bits);
    hide Shl;
    if bits > 16 {
      Pow2Monotone(16, bits - 1);
    } else {
      Pow2Monotone(bits, 16);
    }
    bits := if bits < 16 then bits else 16;
  }

  /** The width is the least, from 4 up and 16 at most, at which every palette index fits. */
  predicate BitsFor(paletteSize: nat, bits: nat) {
    if paletteSize <= 1 then bits == 0
    else if paletteSize > 0x1_0000 then bits == 16
    else 4 <= bits <= 16 && paletteSize <= Pow2(bits) && (bits > 4 ==> Pow2(bits - 1) < paletteSize)
  }

  lemma ShlOne(k: nat)
    requires k < 64
    ensures Shl(1, k, 64) == Pow2(k)
  {
    hide Pow2;
    Pow2Monotone(k, 64);
    SmallMod(Pow2(k), Pow2(64));
  }

  // ---- the packed words as one number ----

  /** The number the words spell, read as unsigned, least significant word first. */
  function Words(data: seq<int>): nat {
    if data == [] then 0 else Unsigned(W64, data[0]) + Pow2(64) * Words(data[1..])
  }

  lemma WordsCons(data: seq<int>)
    requires data != []
    ensures Words(data) == Plus(Unsigned(W64, data[0]), Pow2(64), Words(data[1..]))
    ensures Words(data) / Pow2(64) == Words(data[1..])
  {
    assert Unsigned(W64, data[0]) < Pow2(64) by { Pow2Values(); }
    var low, rest, all := Unsigned(W64, data[0]), Words(data[1..]), Words(data);
    assert all == low + Pow2(64) * rest;
    hide Words, Pow2, Unsigned;
    DivMod(all, Pow2(64), rest, low);
  }

  lemma {:induction false} WordsFrom(data: seq<int>, q: nat)
    requires q <= |data|
    ensures Words(data) / Pow2(64 * q) == Words(data[q..])
  {
    if q == 0 {
      assert data[0..] == data;
    } else {
      var tail := data[1..];
      WordsFrom(tail, q - 1);
      assert tail[q - 1..] == data[q..];
      assert Pow2(64 * q) == Pow2(64) * Pow2(64 * (q - 1)) by { Pow2Add(64, 64 * (q - 1)); }
      WordsCons(data);
      hide Words, Pow2;
      DivDiv(Words(data), Pow2(64), Pow2(64 * (q - 1)));
    }
  }

  lemma OffsetIntoWords(data: seq<int>, q: nat, s: nat)
    requires q <= |data|
    ensures Words(data) / Pow2(64 * q + s) == Words(data[q..]) / Pow2(s)
  {
    WordsFrom(data, q);
    Pow2Add(64 * q, s);
    hide Words, Pow2;
    DivDiv(Words(data), Pow2(64 * q), Pow2(s));
  }

  /** Shifting a number down to the middle of its lowest word. */
  lemma ShiftedWord(low: nat, rest: nat, s: nat)
    requires s < 64
    ensures Plus(low, Pow2(64), rest) / Pow2(s) == Plus(low / Pow2(s), Pow2(64 - s), rest)
  {
    var p, r := Pow2(s), Pow2(64 - s);
    assert Pow2(64) == p * r by { Pow2Add(s, 64 - s); }
    hide Pow2;
    Associate(p, r, rest);
    DivAddMultiple(low, p, r * rest);
  }

  /** An entry within one word. */
  lemma EntryInWord(low: nat, rest: nat, s: nat, bits: nat)
    requires s + bits <= 64
    ensures (Plus(low, Pow2(64), rest) / Pow2(s)) % Pow2(bits) == Shr(low, s) % Pow2(bits)
  {
    if bits == 0 {
      assert Pow2(0) == 1;
    } else {
      hide Pow2, Plus;
      ShiftedWord(low, rest, s);
      DropMultiple(low / Pow2(s), 64 - s, bits, rest);
    }
  }

  lemma DropMultiple(x: int, n: nat, bits: nat, rest: nat)
    requires bits <= n
    ensures Plus(x, Pow2(n), rest) % Pow2(bits) == x % Pow2(bits)
  {
    hide Pow2;
    var b, e := Pow2(bits), Pow2(n - bits);
    assert Pow2(n) == b * e by { Pow2Add(bits, n - bits); }
    Associate(b, e, rest);
    DivAddMultiple(x, b, e * rest);
  }

  /** An entry that straddles two words: the code's shifted and joined word agrees with the number. */
  lemma EntryAcrossWords(low: nat, high: nat, rest: nat, s: nat, bits: nat)
    requires low < Pow2(64) && 0 < s < 64 && bits < 64
    ensures (Plus(low, Pow2(64), Plus(high, Pow2(64), rest)) / Pow2(s)) % Pow2(bits)
         == Or(Shr(low, s), Shl(high, 64 - s, 64)) % Pow2(bits)
  {
    hide Shl, Or, Pow2, Plus;
    PlusNonnegative(high, Pow2(64), rest);
    ShiftedWord(low, Plus(high, Pow2(64), rest), s);
    var joined, far := JoinedUpper(low, high, rest, s);
    DropMultiple(joined, 64, bits, far);
  }

  /** What the shifted upper word contributes: its low bits are joined to the lower word, the rest lies beyond the word. */
  lemma JoinedUpper(low: nat, high: nat, rest: nat, s: nat) returns (joined: nat, far: nat)
    requires low < Pow2(64) && 0 < s < 64
    ensures joined == Or(Shr(low, s), Shl(high, 64 - s, 64))
    ensures Plus(low / Pow2(s), Pow2(64 - s), Plus(high, Pow2(64), rest)) == Plus(joined, Pow2(64), far)
  {
    hide Shl, Or, Pow2;
    joined := low / Pow2(s) + (high % Pow2(s)) * Pow2(64 - s);
    far := high / Pow2(s) + Pow2(64 - s) * rest;
    JoinedHalves(low, high, s);
    hide Plus;
    SplitUpper(low / Pow2(s), high, rest, s);
  }

  lemma PlusNonnegative(low: nat, base: nat, high: nat)
    ensures Plus(low, base, high) >= 0
  {
  }

  /** What the shifted upper word contributes: its low bits, and the rest beyond the word. */
  lemma SplitUpper(value: nat, high: nat, rest: nat, s: nat)
    requires s <= 64
    ensures Plus(value, Pow2(64 - s), Plus(high, Pow2(64), rest))
         == Plus(value + (high % Pow2(s)) * Pow2(64 - s), Pow2(64), high / Pow2(s) + Pow2(64 - s) * rest)
  {
    hide Pow2;
    assert Pow2(64) == Pow2(s) * Pow2(64 - s) by { Pow2Add(s, 64 - s); }
    SplitHigh(high, Pow2(s), Pow2(64 - s), Pow2(64), rest);
  }

  lemma JoinedHalves(low: nat, high: nat, s: nat)
    requires low < Pow2(64) && 0 < s < 64
    ensures Or(Shr(low, s), Shl(high, 64 - s, 64)) == Shr(low, s) + (high % Pow2(s)) * Pow2(64 - s)
  {
    hide Shl, Or, Pow2;
    assert Pow2(64) == Pow2(s) * Pow2(64 - s) by { Pow2Add(s, 64 - s); }
    ShlAsProduct(high, 64 - s, 64);
    QuotientBelow(low, Pow2(s), Pow2(64 - s));
    OrDisjoint(low / Pow2(s), high % Pow2(s), 64 - s);
  }

  lemma QuotientBelow(a: nat, d: nat, m: nat)
    requires d > 0 && a < d * m
    ensures a / d < m
  {
    if a / d >= m { Scale(m, a / d, d); }
  }

  lemma SplitHigh(high: nat, ps: nat, p: nat, w: nat, rest: nat)
    requires ps > 0 && w == ps * p
    ensures p * (high + w * rest) == (high % ps) * p + w * (high / ps + p * rest)
  {
    var q, r := high / ps, high % ps;
    calc {
      p * (high + w * rest);
      { Distribute(p, high, w * rest); assert high == ps * q + r; }
      p * (ps * q + r) + p * (w * rest);
      { Distribute(p, ps * q, r); }
      p * (ps * q) + p * r + p * (w * rest);
      { assert p * (ps * q) == w * q; assert p * (w * rest) == w * (p * rest); }
      w * q + p * r + w * (p * rest);
      { Distribute(w, q, p * rest); }
      r * p + w * (q + p * rest);
    }
  }

  /** Digit number `index` of `n` in base `2^bits`. */
  function Digit(n: nat, bits: nat, index: nat): nat {
    (n / Pow2(BitOffset(bits, index))) % Pow2(bits)
  }

  /**
   * The shifting and masking reads a digit of one big number, wherever the entry lies among the words;
   * and it answers exactly when the entry begins in a word that is there and is at most 63 bits wide.
   */
  lemma ExtractExactly(data: seq<int>, bits: nat, index: nat)
    requires BitOffset(bits, index) < 0x1_0000_0000_0000_0000
    ensures ExtractPacked(data, bits, index).Some?
       <==> bits == 0 || (bits <= 63 && BitOffset(bits, index) / 64 < |data|)
    ensures ExtractPacked(data, bits, index).Some?
        ==> ExtractPacked(data, bits, index).value == Digit(Words(data), bits, index)
  {
    if bits == 0 {
      assert Pow2(0) == 1;
    } else if bits <= 63 && BitOffset(bits, index) / 64 < |data| {
      hide BitOffset, Joined, Words, And, Mask, Pow2;
      var offset := BitOffset(bits, index);
      var joined := Joined(data, bits, offset / 64, offset % 64);
      JoinedEntry(data, bits, offset / 64, offset % 64);
      AndMask(joined, bits);
    }
  }

  lemma TwoWords(data: seq<int>, q: nat) returns (more: nat)
    requires q < |data|
    ensures Words(data[q..]) == Plus(Unsigned(W64, data[q]), Pow2(64), Plus(WordOrZero(data, q + 1), Pow2(64), more))
    ensures Unsigned(W64, data[q]) < Pow2(64)
  {
    assert Unsigned(W64, data[q]) < Pow2(64) by { Pow2Values(); }
    var rest := data[q + 1..];
    assert data[q..][1..] == rest;
    WordsCons(data[q..]);
    more := 0;
    if rest != [] {
      hide Plus, Words, Unsigned;
      WordsCons(rest);
      more := Words(rest[1..]);
    }
  }

  lemma JoinedEntry(data: seq<int>, bits: nat, q: nat, s: nat)
    requires 0 < bits < 64 && s < 64 && q < |data|
    ensures Joined(data, bits, q, s) % Pow2(bits) == (Words(data) / Pow2(64 * q + s)) % Pow2(bits)
  {
    hide Words, Or, Shl, Pow2, Unsigned, WordOrZero, Plus;
    OffsetIntoWords(data, q, s);
    var more := TwoWords(data, q);
    var low, high := Unsigned(W64, data[q]), WordOrZero(data, q + 1);
    if s + bits > 64 {
      EntryAcrossWords(low, high, more, s, bits);
    } else {
      PlusNonnegative(high, Pow2(64), more);
      EntryInWord(low, Plus(high, Pow2(64), more), s, bits);
    }
  }

  // ---- a packed section is a plain array ----

  predicate AllBelow(cells: seq<nat>, n: nat) {
    forall i :: 0 <= i < |cells| ==> cells[i] < n
  }

  /** `cells` packed densely at `bits` bits each, least significant first, with `tail` above them. */
  function PackNumber(cells: seq<nat>, bits: nat, tail: nat): nat {
    if cells == [] then tail else cells[0] + Pow2(bits) * PackNumber(cells[1..], bits, tail)
  }

  /** The low `64 k` bits of a number as signed words. */
  function ToWords(n: nat, k: nat): (words: seq<int>)
    ensures |words| == k
  {
    if k == 0 then [] else [Signed(W64, n)] + ToWords(n / 0x1_0000_0000_0000_0000, k - 1)
  }

  /** The words in which a section's cells are stored. */
  function Pack(cells: seq<nat>, bits: nat): seq<int> {
    ToWords(PackNumber(cells, bits, 0), 64 * bits)
  }

  lemma {:induction false} DigitOfPacked(cells: seq<nat>, bits: nat, tail: nat, i: nat)
    requires i < |cells| && AllBelow(cells, Pow2(bits))
    ensures Digit(PackNumber(cells, bits, tail), bits, i) == cells[i]
  {
    var b, rest := Pow2(bits), PackNumber(cells[1..], bits, tail);
    var n := cells[0] + b * rest;
    DivMod(n, b, rest, cells[0]);
    if i == 0 {
      assert Pow2(BitOffset(bits, 0)) == 1;
    } else {
      DigitOfPacked(cells[1..], bits, tail, i - 1);
      var offset := BitOffset(bits, i - 1);
      assert Pow2(BitOffset(bits, i)) == b * Pow2(offset) by {
        assert BitOffset(bits, i) == bits + offset;
        Pow2Add(bits, offset);
      }
      hide Pow2, BitOffset;
      DivDiv(n, b, Pow2(offset));
    }
  }

  lemma {:induction false} PackNumberBound(cells: seq<nat>, bits: nat, tail: nat)
    requires AllBelow(cells, Pow2(bits))
    ensures PackNumber(cells, bits, 0) < Pow2(BitOffset(bits, |cells|))
    ensures PackNumber(cells, bits, tail) == Plus(PackNumber(cells, bits, 0), Pow2(BitOffset(bits, |cells|)), tail)
  {
    if cells == [] {
      assert Pow2(BitOffset(bits, 0)) == 1;
    } else {
      PackNumberBound(cells[1..], bits, tail);
      assert BitOffset(bits, |cells|) == bits + BitOffset(bits, |cells| - 1);
      var b, p, r := Pow2(bits), Pow2(BitOffset(bits, |cells| - 1)), PackNumber(cells[1..], bits, 0);
      assert Pow2(BitOffset(bits, |cells|)) == b * p by { Pow2Add(bits, BitOffset(bits, |cells| - 1)); }
      assert PackNumber(cells, bits, 0) == Plus(cells[0], b, r);
      assert PackNumber(cells, bits, tail) == Plus(cells[0], b, Plus(r, p, tail));
      hide *;
      PlusAssociates(cells[0], b, r, p, tail);
      PlusBelow(cells[0], b, r, p);
    }
  }

  lemma PlusAssociates(low: int, b: int, r: int, p: int, tail: int)
    ensures Plus(low, b, Plus(r, p, tail)) == Plus(Plus(low, b, r), b * p, tail)
  {
    Distribute(b, r, p * tail);
    Associate(b, p, tail);
  }

  lemma PlusBelow(low: int, b: nat, r: int, p: int)
    requires low < b && r < p
    ensures Plus(low, b, r) < b * p
  {
    Scale(r, p - 1, b);
    Distribute(b, p, 1);
  }

  lemma {:induction false} WordsOfNumber(n: nat, k: nat, extra: seq<int>)
    requires n < Pow2(64 * k)
    ensures Words(ToWords(n, k) + extra) == Plus(n, Pow2(64 * k), Words(extra))
  {
    hide Words, ToWords, Pow2, Signed, Unsigned, Plus;
    if k == 0 {
      NoWords(n, extra);
    } else {
      var w, p := 0x1_0000_0000_0000_0000, Pow2(64 * (k - 1));
      var upper, words := n / w, ToWords(n, k) + extra;
      assert Pow2(64) == w by { Pow2Values(); }
      assert Pow2(64 * k) == w * p by { Pow2Add(64, 64 * (k - 1)); }
      assert upper < p by { QuotientBelow(n, w, p); }
      WordsOfNumber(upper, k - 1, extra);
      FirstWord(n, k, extra);
      assert Unsigned(W64, words[0]) == n % w by { SignedResidue(W64, n); }
      WordsCons(words);
      PlusAssociates(n % w, w, upper, p, Words(extra));
      assert Plus(n % w, w, upper) == n by { PlusOfParts(n, w); }
    }
  }

  lemma NoWords(n: nat, extra: seq<int>)
    requires n < Pow2(0)
    ensures Words(ToWords(n, 0) + extra) == Plus(n, Pow2(0), Words(extra))
  {
    hide Words;
    assert Pow2(0) == 1 && n == 0;
    assert ToWords(n, 0) + extra == extra;
  }

  lemma FirstWord(n: nat, k: nat, extra: seq<int>)
    requires k > 0
    ensures var words := ToWords(n, k) + extra;
            words != [] && words[0] == Signed(W64, n) && words[1..] == ToWords(n / 0x1_0000_0000_0000_0000, k - 1) + extra
  {
    hide Signed;
    assert ToWords(n, k) + extra == [Signed(W64, n)] + (ToWords(n / 0x1_0000_0000_0000_0000, k - 1) + extra);
  }

  lemma PlusOfParts(n: nat, w: nat)
    requires w > 0
    ensures Plus(n % w, w, n / w) == n
  {
  }

  function CellIndex(x: nat, y: nat, z: nat): nat {
    y * 256 + z * 16 + x
  }

  /** `palette_index`; nothing if it panics. */
  function PaletteIndex(section: Section, x: nat, y: nat, z: nat): Option<nat> {
    if section.bitsPerBlock == 0 || |section.palette| <= 1 then Some(0)
    else ExtractPacked(section.blockData, section.bitsPerBlock, CellIndex(x, y, z))
  }

  function GetBlock(section: Section, x: nat, y: nat, z: nat): Option<BlockState> {
    match PaletteIndex(section, x, y, z)
    case None => None
    case Some(i) => Some(if i < |section.palette| then section.palette[i] else AIR)
  }

  /** Nothing panics at any cell exactly when all the words are there. */
  lemma ReadableExactly(section: Section)
    requires 2 <= |section.palette| && 1 <= section.bitsPerBlock <= 63
    ensures (forall x, y, z | 0 <= x < 16 && 0 <= y < 16 && 0 <= z < 16 :: PaletteIndex(section, x, y, z).Some?)
       <==> |section.blockData| >= 64 * section.bitsPerBlock
  {
    var b := section.bitsPerBlock;
    if |section.blockData| >= 64 * b {
      forall x, y, z | 0 <= x < 16 && 0 <= y < 16 && 0 <= z < 16
        ensures PaletteIndex(section, x, y, z).Some?
      {
        EntryInSection(b, CellIndex(x, y, z));
        ExtractExactly(section.blockData, b, CellIndex(x, y, z));
      }
    } else {
      assert BitOffset(b, 4095) == 4095 * b && 4095 * b / 64 == 64 * b - 1;
      assert CellIndex(15, 15, 15) == 4095;
      ExtractExactly(section.blockData, b, 4095);
      assert PaletteIndex(section, 15, 15, 15).None?;
    }
  }

  lemma EntryInSection(bits: nat, i: nat)
    requires bits <= 63 && i < BLOCKS_PER_SECTION
    ensures BitOffset(bits, i) < 0x1_0000_0000_0000_0000
    ensures bits > 0 ==> BitOffset(bits, i) / 64 < 64 * bits
  {
    Scale(i, 4095, bits);
  }

  /** The state that an assignment of palette entries to cells gives to a cell. */
  function Assigned(palette: seq<BlockState>, cells: seq<nat>, x: nat, y: nat, z: nat): BlockState
    requires |cells| == BLOCKS_PER_SECTION && AllBelow(cells, |palette|)
    requires x < 16 && y < 16 && z < 16
  {
    palette[cells[256 * y + 16 * z + x]]
  }

  /** The section stores `cells` at the width its palette calls for; more words may follow. */
  predicate Stores(section: Section, cells: seq<nat>) {
    && BitsFor(|section.palette|, section.bitsPerBlock)
    && Pack(cells, section.bitsPerBlock) <= section.blockData
  }

  /**
   * For every palette of up to 65536 states and every assignment of its entries to the cells, a section that stores
   * the packed assignment reports the assigned state everywhere.
   */
  lemma SectionIsArray(section: Section, cells: seq<nat>, x: nat, y: nat, z: nat)
    requires 0 < |section.palette| <= 0x1_0000 && |cells| == BLOCKS_PER_SECTION && AllBelow(cells, |section.palette|)
    requires Stores(section, cells) && x < 16 && y < 16 && z < 16
    ensures GetBlock(section, x, y, z) == Some(Assigned(section.palette, cells, x, y, z))
  {
    hide ToWords, PackNumber, ExtractPacked, Pow2, Pack, AllBelow, BitsFor;
    var bits, i := section.bitsPerBlock, CellIndex(x, y, z);
    CellBelow(cells, |section.palette|, i);
    if |section.palette| > 1 {
      WidthOfPalette(|section.palette|, bits);
      AllBelowMore(cells, |section.palette|, Pow2(bits));
      var packed := Pack(cells, bits);
      var extra := section.blockData[|packed|..];
      assert section.blockData == packed + extra;
      PackedCell(cells, bits, extra, i);
    }
  }

  lemma CellBelow(cells: seq<nat>, n: nat, i: nat)
    requires AllBelow(cells, n) && i < |cells|
    ensures cells[i] < n
  {
  }

  lemma AllBelowMore(cells: seq<nat>, n: nat, m: nat)
    requires AllBelow(cells, n) && n <= m
    ensures AllBelow(cells, m)
  {
  }

  lemma WidthOfPalette(paletteSize: nat, bits: nat)
    requires BitsFor(paletteSize, bits) && 1 < paletteSize <= 0x1_0000
    ensures 0 < bits <= 16 && paletteSize <= Pow2(bits)
  {
    hide Pow2;
  }

  lemma PackedCell(cells: seq<nat>, bits: nat, extra: seq<int>, i: nat)
    requires |cells| == BLOCKS_PER_SECTION && i < BLOCKS_PER_SECTION && 0 < bits <= 63
    requires AllBelow(cells, Pow2(bits))
    ensures ExtractPacked(Pack(cells, bits) + extra, bits, i) == Some(cells[i])
  {
    assert BitOffset(bits, BLOCKS_PER_SECTION) == 64 * (64 * bits);
    hide ToWords, PackNumber, Words, Pow2, Digit, BitOffset, ExtractPacked, AllBelow, Plus;
    var tail := Words(extra);
    PackNumberBound(cells, bits, tail);
    WordsOfNumber(PackNumber(cells, bits, 0), 64 * bits, extra);
    DigitOfPacked(cells, bits, tail, i);
    EntryInSection(bits, i);
    ExtractExactly(Pack(cells, bits) + extra, bits, i);
  }

  /** With more than 65536 states the width is capped: no entry from 65536 on is ever reported, whatever the words. */
  lemma WidePaletteUnreachable(section: Section, x: nat, y: nat, z: nat)
    requires |section.palette| > 0x1_0000 && BitsFor(|section.palette|, section.bitsPerBlock)
    requires x < 16 && y < 16 && z < 16
    ensures PaletteIndex(section, x, y, z).Some? ==> PaletteIndex(section, x, y, z).value < 0x1_0000
  {
    var i := CellIndex(x, y, z);
    EntryInSection(16, i);
    ExtractExactly(section.blockData, 16, i);
    Pow2Values();
  }

  // ---- the iterator over the blocks that are not air ----

  /** The block of the cell with this index, in y, z, x order. */
  function BlockAt(section: Section, i: nat): Option<BlockState> {
    GetBlock(section, i % 16, i / 256 % 16, i / 16 % 16)
  }

  predicate Solid(section: Section, i: nat) {
    BlockAt(section, i).Some? && BlockAt(section, i).value.name != AIR_NAME
  }

  datatype Item = Item(x: nat, y: nat, z: nat, state: BlockState)

  datatype Step = Done | Panicked | Yield(item: Item)

  class BlockIter {
    const section: Section
    var index: nat

    constructor (section: Section)
      ensures this.section == section && index == 0
    {
      this.section := section;
      index := 0;
    }

    /** Everything skipped is air; what is yielded is the cell before the new position. */
    method Next() returns (r: Step)
      modifies this
      ensures forall i :: old(index) <= i < index - (if r.Done? then 0 else 1)
                          ==> BlockAt(section, i).Some? && !Solid(section, i)
      ensures match r
              case Done => index == if old(index) < BLOCKS_PER_SECTION then BLOCKS_PER_SECTION else old(index)
              case Panicked => old(index) < index <= BLOCKS_PER_SECTION && BlockAt(section, index - 1).None?
              case Yield(item) =>
                && old(index) < index <= BLOCKS_PER_SECTION
                && Solid(section, index - 1)
                && item.x < 16 && item.y < 16 && item.z < 16
                && 256 * item.y + 16 * item.z + item.x == index - 1
                && item.state == BlockAt(section, index - 1).value
    {
      hide GetBlock, And, Pow2;
      while index < BLOCKS_PER_SECTION
        invariant old(index) <= index && (old(index) < BLOCKS_PER_SECTION ==> index <= BLOCKS_PER_SECTION)
        invariant BLOCKS_PER_SECTION <= old(index) ==> index == old(index)
        invariant forall i :: old(index) <= i < index ==> BlockAt(section, i).Some? && !Solid(section, i)
      {
        var idx := index;
        index := index + 1;
        MaskedCoordinates(idx);
        var x := And(idx, 15);
        var z := And(Shr(idx, 4), 15);
        var y := And(Shr(idx, 8), 15);
        var block := GetBlock(section, x, y, z);
        if block.None? {
          return Panicked;
        }
        if block.value.name != AIR_NAME {
          return Yield(Item(x, y, z, block.value));
        }
      }
      return Done;
    }
  }

  lemma MaskedCoordinates(i: nat)
    requires i < BLOCKS_PER_SECTION
    ensures And(i, 15) == i % 16
    ensures Shr(i, 4) == i / 16 && And(i / 16, 15) == i / 16 % 16
    ensures Shr(i, 8) == i / 256 && And(i / 256, 15) == i / 256 % 16
    ensures CellIndex(i % 16, i / 256 % 16, i / 16 % 16) == i
  {
    Low4Bits(i);
    Low4Bits(i / 16);
    Low4Bits(i / 256);
    assert Shr(i, 4) == i / 16 && Shr(i, 8) == i / 256 by { Pow2Values(); }
    hide And, Pow2, Shr;
    DivDiv(i, 16, 16);
  }

  lemma Low4Bits(i: nat)
    ensures And(i, 15) == i % 16
  {
    Pow2Values();
    AndMask(i, 4);
  }

  lemma CellIndexInverse(x: nat, y: nat, z: nat)
    requires x < 16 && y < 16 && z < 16
    ensures var i := CellIndex(x, y, z);
            i < BLOCKS_PER_SECTION && i % 16 == x && i / 256 % 16 == y && i / 16 % 16 == z
  {
    var i := CellIndex(x, y, z);
    DivMod(i, 256, y, z * 16 + x);
    DivMod(i, 16, y * 16 + z, x);
  }

  /** What a whole iteration yields: each cell that is not air once, in increasing order, with its state. */
  predicate AllSolidBelow(section: Section, items: seq<Item>, end: nat) {
    && (forall k :: 0 <= k < |items| ==> ItemOf(section, items[k], end))
    && (forall j, k :: 0 <= j < k < |items| ==> IndexOf(items[j]) < IndexOf(items[k]))
    && (forall i: nat :: i < end && Solid(section, i) ==> exists k :: 0 <= k < |items| && IndexOf(items[k]) == i)
  }

  function IndexOf(item: Item): nat {
    256 * item.y + 16 * item.z + item.x
  }

  predicate ItemOf(section: Section, item: Item, end: nat) {
    && item.x < 16 && item.y < 16 && item.z < 16
    && IndexOf(item) < end
    && Solid(section, IndexOf(item)) && item.state == BlockAt(section, IndexOf(item)).value
  }

  /** The cells that hold something other than air, by their coordinates: each once, in y, z, x order. */
  ghost predicate ListsNonAir(section: Section, items: seq<Item>) {
    && (forall k :: 0 <= k < |items| ==> IsNonAir(section, items[k]))
    && (forall j, k :: 0 <= j < k < |items| ==> IndexOf(items[j]) < IndexOf(items[k]))
    && (forall item: Item :: IsNonAir(section, item) ==> item in items)
  }

  predicate IsNonAir(section: Section, item: Item) {
    && item.x < 16 && item.y < 16 && item.z < 16
    && GetBlock(section, item.x, item.y, item.z) == Some(item.state)
    && item.state.name != AIR_NAME
  }

  /** The block of a cell by its coordinates is the block of the cell by its index. */
  lemma BlockAtCell(section: Section, x: nat, y: nat, z: nat)
    requires x < 16 && y < 16 && z < 16
    ensures BlockAt(section, CellIndex(x, y, z)) == GetBlock(section, x, y, z)
  {
    CellIndexInverse(x, y, z);
  }

  lemma NonAirByIndex(section: Section, item: Item)
    requires item.x < 16 && item.y < 16 && item.z < 16
    ensures ItemOf(section, item, BLOCKS_PER_SECTION) <==> IsNonAir(section, item)
  {
    hide GetBlock, BlockAt;
    BlockAtCell(section, item.x, item.y, item.z);
    assert IndexOf(item) < BLOCKS_PER_SECTION;
  }

  /** No two cells have the same index. */
  lemma SameCell(x: nat, y: nat, z: nat, x': nat, y': nat, z': nat)
    requires x < 16 && y < 16 && z < 16 && x' < 16 && y' < 16 && z' < 16
    requires CellIndex(x, y, z) == CellIndex(x', y', z')
    ensures x == x' && y == y' && z == z'
  {
    CellIndexInverse(x, y, z);
    CellIndexInverse(x', y', z');
  }

  lemma ListedByCoordinates(section: Section, items: seq<Item>)
    requires AllSolidBelow(section, items, BLOCKS_PER_SECTION)
    ensures ListsNonAir(section, items)
  {
    hide Solid, BlockAt, GetBlock, CellIndex;
    forall k | 0 <= k < |items|
      ensures IsNonAir(section, items[k])
    {
      assert ItemOf(section, items[k], BLOCKS_PER_SECTION);
      NonAirByIndex(section, items[k]);
    }
    forall item: Item | IsNonAir(section, item)
      ensures item in items
    {
      NonAirByIndex(section, item);
      var i := IndexOf(item);
      assert Solid(section, i);
      var k :| 0 <= k < |items| && IndexOf(items[k]) == i;
      var other := items[k];
      assert ItemOf(section, other, BLOCKS_PER_SECTION);
      SameCell(item.x, item.y, item.z, other.x, other.y, other.z);
    }
  }

  lemma PanicsByCoordinates(section: Section)
    ensures (exists i: nat :: i < BLOCKS_PER_SECTION && BlockAt(section, i).None?)
       <==> (exists x: nat, y: nat, z: nat :: x < 16 && y < 16 && z < 16 && GetBlock(section, x, y, z).None?)
  {
    hide GetBlock;
    if x: nat, y: nat, z: nat :| x < 16 && y < 16 && z < 16 && GetBlock(section, x, y, z).None? {
      BlockAtCell(section, x, y, z);
      CellIndexInverse(x, y, z);
      assert BlockAt(section, CellIndex(x, y, z)).None?;
    }
    if i: nat :| i < BLOCKS_PER_SECTION && BlockAt(section, i).None? {
      assert GetBlock(section, i % 16, i / 256 % 16, i / 16 % 16).None?;
    }
  }

  /** Draining the iterator, as a `for` loop over `iter_non_air` does. */
  method CollectNonAir(section: Section) returns (items: seq<Item>, panicked: bool)
    ensures panicked
       <==> exists x: nat, y: nat, z: nat :: x < 16 && y < 16 && z < 16 && GetBlock(section, x, y, z).None?
    ensures !panicked ==> ListsNonAir(section, items)
  {
    hide BlockAt, CellIndex, GetBlock, ListsNonAir;
    PanicsByCoordinates(section);
    var iter := new BlockIter(section);
    items := [];
    while true
      invariant iter.section == section && iter.index <= BLOCKS_PER_SECTION
      invariant AllSolidBelow(section, items, iter.index)
      invariant forall i :: 0 <= i < iter.index ==> BlockAt(section, i).Some?
      decreases BLOCKS_PER_SECTION - iter.index
    {
      ghost var before, begun := items, iter.index;
      var step := iter.Next();
      match step
      case Done =>
        ListedByCoordinates(section, items);
        return items, false;
      case Panicked =>
        return items, true;
      case Yield(item) =>
        items := items + [item];
        ExtendSolid(section, before, begun, item, iter.index);
    }
  }

  lemma ExtendSolid(section: Section, items: seq<Item>, begun: nat, item: Item, end: nat)
    requires AllSolidBelow(section, items, begun) && begun < end
    requires forall i :: begun <= i < end - 1 ==> !Solid(section, i)
    requires ItemOf(section, item, end) && IndexOf(item) == end - 1
    ensures AllSolidBelow(section, items + [item], end)
  {
    hide Solid, IndexOf;
    var all := items + [item];
    forall i: nat | i < end && Solid(section, i)
      ensures exists k :: 0 <= k < |all| && IndexOf(all[k]) == i
    {
      if i < begun {
        var k :| 0 <= k < |items| && IndexOf(items[k]) == i;
        assert all[k] == items[k];
      } else {
        assert all[|items|] == item;
      }
    }
    forall k | 0 <= k < |all|
      ensures ItemOf(section, all[k], end)
    {
      if k < |items| { assert ItemOf(section, items[k], begun); }
    }
  }

  /** A cell that can be read: its entry begins in a word that is there. */
  predicate Readable(section: Section, i: nat) {
    || section.bitsPerBlock == 0 || |section.palette| <= 1
    || (section.bitsPerBlock <= 63 && BitOffset(section.bitsPerBlock, i) / 64 < |section.blockData|)
  }

  /** The palette entry that the words store for a cell. */
  function StoredIndex(section: Section, i: nat): nat {
    if section.bitsPerBlock == 0 || |section.palette| <= 1 then 0 else Digit(Words(section.blockData), section.bitsPerBlock, i)
  }

  /** On any section, whatever its words: what each cell reads as. */
  lemma BlockAtExactly(section: Section, i: nat)
    requires section.bitsPerBlock < 256 && i < BLOCKS_PER_SECTION
    ensures BlockAt(section, i)
         == if !Readable(section, i) then None
            else Some(if StoredIndex(section, i) < |section.palette| then section.palette[StoredIndex(section, i)] else AIR)
  {
    var bits := section.bitsPerBlock;
    assert CellIndex(i % 16, i / 256 % 16, i / 16 % 16) == i by { MaskedCoordinates(i); }
    if bits != 0 && |section.palette| > 1 {
      Scale(i, 4095, bits);
      hide CellIndex, ExtractPacked, Digit, Words;
      ExtractExactly(section.blockData, bits, i);
    }
  }

  /**
   * The iterator takes the nameless fallback for a block: it never yields one exactly if every index that the words
   * store lies inside the palette.
   */
  lemma FallbackNeverYieldedExactly(section: Section)
    requires AIR !in section.palette && section.bitsPerBlock < 256
    ensures (forall i: nat | i < BLOCKS_PER_SECTION && Solid(section, i) :: BlockAt(section, i).value != AIR)
       <==> (forall i: nat | i < BLOCKS_PER_SECTION && Readable(section, i) :: StoredIndex(section, i) < |section.palette|)
  {
    hide BlockAt, StoredIndex, Readable;
    forall i: nat | i < BLOCKS_PER_SECTION
      ensures Solid(section, i) && BlockAt(section, i).value == AIR
         <==> Readable(section, i) && StoredIndex(section, i) >= |section.palette|
    {
      BlockAtExactly(section, i);
    }
  }

  /** A section without block states is yielded whole, every cell with the nameless fallback. */
  lemma EmptySectionYieldsEveryCell(section: Section, items: seq<Item>)
    requires section.palette == [] && ListsNonAir(section, items)
    ensures forall x: nat, y: nat, z: nat :: x < 16 && y < 16 && z < 16 ==> Item(x, y, z, AIR) in items
  {
    forall x: nat, y: nat, z: nat | x < 16 && y < 16 && z < 16
      ensures Item(x, y, z, AIR) in items
    {
      assert IsNonAir(section, Item(x, y, z, AIR));
    }
  }
}
