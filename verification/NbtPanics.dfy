// The inputs on which the NBT reader panics: well-spelled values up to a list or an array of negative length.

module NbtPanics {
  import opened Common
  import opened Nbt
  import opened NbtGrammar

  /** A value of this type begins here and comes to a negative length. */
  ghost predicate Poisoned(ty: TagType, s: seq<byte>)
    decreases |s|, 1, 0
  {
    match ty
    case TIntArray => |s| >= 4 && FromSigned(s[..4]) < 0
    case TLongArray => |s| >= 4 && FromSigned(s[..4]) < 0
    case TCompound => PoisonedFields(s)
    case TList =>
      && |s| >= 5
      && (|| FromSigned(s[1..5]) < 0
          || (s[0] != 0 && TypeOf(s[0]).Some? && PoisonedItems(TypeOf(s[0]).value, FromSigned(s[1..5]), s[5..])))
    case _ => false
  }

  /** One of the next `count` values of this type is poisoned, and those before it are spelled. */
  ghost predicate PoisonedItems(ty: TagType, count: nat, s: seq<byte>)
    decreases |s|, 2, count
  {
    count > 0 && (Poisoned(ty, s) || exists k, v :: 0 <= k <= |s| && IsItem(ty, s, k, v) && PoisonedItems(ty, count - 1, s[k..]))
  }

  /** The first `k` bytes spell `v`, which is of this type. */
  ghost predicate IsItem(ty: TagType, s: seq<byte>, k: nat, v: Value)
    requires k <= |s|
  {
    Tag(v) == ty && Spells(s[..k], v)
  }

  /** One of the next fields is poisoned, and those before it are spelled. */
  ghost predicate PoisonedFields(s: seq<byte>)
    decreases |s|, 0, 0
  {
    && s != [] && s[0] != 0 && TypeOf(s[0]).Some?
    && exists h :: 0 < h <= |s| && IsName(s[1..h]) && PoisonedFrom(TypeOf(s[0]).value, s[h..])
  }

  ghost predicate PoisonedFrom(ty: TagType, s: seq<byte>)
    decreases |s|, 3, 0
  {
    Poisoned(ty, s) || exists k, v :: 0 <= k <= |s| && IsItem(ty, s, k, v) && PoisonedFields(s[k..])
  }

  /** The bytes of some name. */
  ghost predicate IsName(s: seq<byte>) {
    exists name :: Text(name) && s == TextBytes(name)
  }

  // ---- exactly these make the reader panic ----

  lemma NameExactly(s: seq<byte>, n: nat)
    requires n <= |s|
    ensures IsName(s[..n]) <==> ParseName(s).Ok? && ParseName(s).used == n
    ensures ParseName(s) != Err(Panic)
  {
    if ParseName(s).Ok? { SoundName(s); }
    hide ParseName, Text, TextBytes;
    if name :| Text(name) && s[..n] == TextBytes(name) {
      CompleteName(name, s[n..]);
      assert s == s[..n] + s[n..];
    }
  }

  lemma ItemExactly(ty: TagType, s: seq<byte>, k: nat, v: Value)
    requires ty != TEnd && |s| <= MAX_SLICE && k <= |s|
    ensures IsItem(ty, s, k, v) <==> ParsePayload(ty, s) == Ok(v, k)
  {
    hide ParsePayload, Spells, Tag;
    ParseExactly(ty, s, v, k);
  }

  /** A negative array length is what makes the byte count overflow. */
  lemma ArrayPanics(ty: TagType, s: seq<byte>)
    requires ElementSize(ty) > 0
    ensures ParseArray(ty, s) == Err(Panic) <==> ty != TByteArray && |s| >= 4 && FromSigned(s[..4]) < 0
  {
    if |s| >= 4 {
      LengthOfBytes(s[..4]);
      FromSignedBack(s[..4]);
      Pow256Values();
      hide FromSigned, Elements;
    }
  }

  /** On every input and for every type: the reader panics exactly on a poisoned value. */
  lemma {:induction false} PanicsExactly(ty: TagType, s: seq<byte>)
    requires ty != TEnd && |s| <= MAX_SLICE
    ensures ParsePayload(ty, s) == Err(Panic) <==> Poisoned(ty, s)
    decreases |s|, 1, 0
  {
    hide ParseArray, ParseName, ParseFields, ParseItems, PoisonedItems, PoisonedFields, FromSigned;
    if ElementSize(ty) > 0 {
      ArrayPanics(ty, s);
    } else if ty == TString {
      NameExactly(s, 0);
    } else if ty == TCompound {
      FieldsPanicExactly(s);
    } else if ty == TList && |s| >= 5 {
      ListPanicsExactly(s);
    }
  }

  lemma {:induction false} ListPanicsExactly(s: seq<byte>)
    requires 5 <= |s| <= MAX_SLICE
    ensures ParsePayload(TList, s) == Err(Panic) <==> Poisoned(TList, s)
    decreases |s|, 0, 1
  {
    hide ParseItems, PoisonedItems, FromSigned;
    var len := FromSigned(s[1..5]);
    if len >= 0 && s[0] != 0 && TypeOf(s[0]).Some? {
      assert TypeOf(s[0]).value != TEnd by { IdOfType(s[0]); }
      ItemsPanicExactly(TypeOf(s[0]).value, len, s[5..]);
    }
  }

  lemma {:induction false} ItemsPanicExactly(ty: TagType, count: nat, s: seq<byte>)
    requires ty != TEnd && |s| <= MAX_SLICE
    ensures ParseItems(ty, count, s) == Err(Panic) <==> PoisonedItems(ty, count, s)
    decreases |s|, 2, count
  {
    hide ParsePayload, Poisoned, IsItem;
    if count > 0 {
      PanicsExactly(ty, s);
      match ParsePayload(ty, s)
      case Ok(v, n) =>
        ItemExactly(ty, s, n, v);
        ItemsPanicExactly(ty, count - 1, s[n..]);
        OnlyItem(ty, s, n, v);
      case Err(_) => NoItem(ty, s);
    }
  }

  lemma OnlyItem(ty: TagType, s: seq<byte>, n: nat, v: Value)
    requires ty != TEnd && |s| <= MAX_SLICE && ParsePayload(ty, s) == Ok(v, n)
    ensures forall k, u | 0 <= k <= |s| && IsItem(ty, s, k, u) :: k == n && u == v
  {
    hide ParsePayload, IsItem;
    forall k, u | 0 <= k <= |s| && IsItem(ty, s, k, u)
      ensures k == n && u == v
    {
      ItemExactly(ty, s, k, u);
    }
  }

  lemma NoItem(ty: TagType, s: seq<byte>)
    requires ty != TEnd && |s| <= MAX_SLICE && ParsePayload(ty, s).Err?
    ensures forall k, u | 0 <= k <= |s| :: !IsItem(ty, s, k, u)
  {
    hide ParsePayload, IsItem;
    forall k, u | 0 <= k <= |s|
      ensures !IsItem(ty, s, k, u)
    {
      ItemExactly(ty, s, k, u);
    }
  }

  lemma {:induction false} FieldsPanicExactly(s: seq<byte>)
    requires |s| <= MAX_SLICE
    ensures ParseFields(s) == Err(Panic) <==> PoisonedFields(s)
    decreases |s|, 0, 0
  {
    hide ParseField, ParsePayload, ParseName, PoisonedFrom, TypeOf, IsName;
    if s != [] && s[0] != 0 && TypeOf(s[0]).Some? {
      var ty := TypeOf(s[0]).value;
      assert ty != TEnd by { IdOfType(s[0]); }
      NameEnds(s);
      match ParseName(s[1..])
      case Ok(_, n) =>
        FieldPanicsExactly(ty, s[1 + n..]);
        FieldsUnfold(s, ty, n);
      case Err(e) => FieldFails(s, e);
    } else if s != [] && s[0] != 0 {
      FieldFails(s, UnknownTag(s[0]));
    }
  }

  lemma FieldFails(s: seq<byte>, e: NbtError)
    requires s != [] && s[0] != 0
    requires if TypeOf(s[0]).None? then e == UnknownTag(s[0]) else ParseName(s[1..]) == Err(e)
    ensures ParseFields(s) == Err(e)
  {
    hide ParsePayload, ParseName, TypeOf;
    assert ParseField(s) == Err(e);
    hide ParseField;
  }

  /** A name ends at one place. */
  lemma NameEnds(s: seq<byte>)
    requires s != []
    ensures ParseName(s[1..]) != Err(Panic)
    ensures forall h | 0 < h <= |s| :: IsName(s[1..h]) <==> ParseName(s[1..]).Ok? && h == 1 + ParseName(s[1..]).used
  {
    hide ParseName, IsName;
    NameExactly(s[1..], 0);
    forall h | 0 < h <= |s|
      ensures IsName(s[1..h]) <==> ParseName(s[1..]).Ok? && h == 1 + ParseName(s[1..]).used
    {
      NameExactly(s[1..], h - 1);
      assert s[1..][..h - 1] == s[1..h];
    }
  }

  /** What is left of reading fields after a name: a value, then more fields. */
  function ParseFrom(ty: TagType, s: seq<byte>): Parsed<seq<Field>> {
    match ParsePayload(ty, s)
    case Err(e) => Err(e)
    case Ok(_, m) => ParseFields(s[m..])
  }

  lemma FieldsUnfold(s: seq<byte>, ty: TagType, n: nat)
    requires s != [] && s[0] != 0 && TypeOf(s[0]) == Some(ty)
    requires ParseName(s[1..]).Ok? && ParseName(s[1..]).used == n
    ensures ParseFields(s) == Err(Panic) <==> ParseFrom(ty, s[1 + n..]) == Err(Panic)
  {
    hide ParsePayload, ParseName, TypeOf, ParseFields;
    match ParsePayload(ty, s[1 + n..])
    case Err(e) =>
      assert ParseField(s) == Err(e);
      FieldEnds(s, e);
    case Ok(v, m) =>
      DropTwice(s, 1 + n, m);
      assert ParseField(s) == Ok(Field(ParseName(s[1..]).value, v), 1 + n + m);
      FieldFirst(s, Field(ParseName(s[1..]).value, v), 1 + n + m);
  }

  lemma FieldEnds(s: seq<byte>, e: NbtError)
    requires s != [] && s[0] != 0 && ParseField(s) == Err(e)
    ensures ParseFields(s) == Err(e)
  {
    hide ParseField;
  }

  lemma {:induction false} FieldPanicsExactly(ty: TagType, s: seq<byte>)
    requires ty != TEnd && |s| <= MAX_SLICE
    ensures ParseFrom(ty, s) == Err(Panic) <==> PoisonedFrom(ty, s)
    decreases |s|, 3, 0
  {
    hide ParsePayload, ParseFields, Poisoned, PoisonedFields, IsItem;
    PanicsExactly(ty, s);
    match ParsePayload(ty, s)
    case Ok(v, n) =>
      ItemExactly(ty, s, n, v);
      FieldsPanicExactly(s[n..]);
      OnlyItem(ty, s, n, v);
    case Err(_) => NoItem(ty, s);
  }

  /** A whole file that makes the reader panic: nothing at all, or a root compound that is poisoned. */
  ghost predicate PoisonedRoot(s: seq<byte>) {
    s == [] || (s[0] == 10 && exists h :: 0 < h <= |s| && IsName(s[1..h]) && PoisonedFields(s[h..]))
  }

  lemma RootPanicsExactly(s: seq<byte>)
    requires |s| <= MAX_SLICE
    ensures ParseRoot(s) == Err(Panic) <==> PoisonedRoot(s)
  {
    hide ParseName, ParseFields, PoisonedFields, IsName;
    if s != [] && s[0] == 10 {
      NameEnds(s);
      if ParseName(s[1..]).Ok? { FieldsPanicExactly(s[1 + ParseName(s[1..]).used..]); }
    }
  }

  /** The shortest poison: a nameless root with a nameless list of length -1. */
  const NEGATIVE_LIST: seq<byte> := [10, 0, 0, 9, 0, 0, 1, 255, 255, 255, 255]

  lemma NegativeListPanics()
    ensures PoisonedRoot(NEGATIVE_LIST) && ParseRoot(NEGATIVE_LIST) == Err(Panic)
  {
    var s := NEGATIVE_LIST;
    var body, list := s[3..], s[6..];
    NoName();
    MinusOne();
    hide IsName, PoisonedItems, FromSigned;
    assert list[1..5] == [255, 255, 255, 255];
    assert Poisoned(TList, list);
    assert PoisonedFrom(TList, list);
    hide Poisoned, PoisonedFrom;
    assert s[1..3] == [0, 0] && body[1..3] == [0, 0] && body[3..] == list && TypeOf(body[0]) == Some(TList);
    assert PoisonedFields(body);
    hide PoisonedFields;
    assert PoisonedRoot(s);
    RootPanicsExactly(s);
  }

  lemma NoName()
    ensures IsName([0, 0])
  {
    assert ToBigEndian(0, 1) == [0] && ToBigEndian(0, 2) == [0, 0];
    assert TextBytes([]) == [0, 0] && Text([]);
  }

  lemma MinusOne()
    ensures FromSigned([255, 255, 255, 255]) == -1
  {
    var s: seq<byte> := [255, 255, 255, 255];
    assert s[..3] == [255, 255, 255] && [255, 255, 255][..2] == [255, 255] && [255, 255][..1] == [255] && [255][..0] == [];
    assert BigEndian([255]) == 255 && BigEndian([255, 255]) == 0xFFFF && BigEndian([255, 255, 255]) == 0xFF_FFFF;
    assert BigEndian(s) == 0xFFFF_FFFF;
    Pow256Values();
  }
}
