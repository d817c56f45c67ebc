// The NBT parser: a consuming recursive-descent parser over twelve kinds of tag, and the grammar it recognises.

module Nbt {
  import opened Common
  import opened Utf8

  datatype TagType =
    | TEnd | TByte | TShort | TInt | TLong | TFloat | TDouble
    | TByteArray | TString | TList | TCompound | TIntArray | TLongArray

  /** A parsed value. Floating-point numbers are their bit patterns, strings their bytes. */
  datatype Value =
    | Byte(i8: int) | Short(i16: int) | Int(i32: int) | Long(i64: int) | Float(f32: nat) | Double(f64: nat)
    | ByteArray(i8s: seq<int>) | String(text: seq<byte>)
    | List(items: seq<Value>) | Compound(fields: seq<Field>)
    | IntArray(i32s: seq<int>) | LongArray(i64s: seq<int>)

  datatype Field = Field(name: seq<byte>, value: Value)

  /** `Panic` stands for a Rust panic. */
  datatype NbtError =
    | UnknownTag(tag: byte) | Incomplete(expected: nat, got: nat) | InvalidUtf8
    | ExpectedCompound(found: TagType) | Panic

  datatype Parsed<+T> = Ok(value: T, used: nat) | Err(error: NbtError)

  function Id(ty: TagType): byte {
    match ty
    case TEnd => 0 case TByte => 1 case TShort => 2 case TInt => 3 case TLong => 4 case TFloat => 5 case TDouble => 6
    case TByteArray => 7 case TString => 8 case TList => 9 case TCompound => 10 case TIntArray => 11 case TLongArray => 12
  }

  /** `TagType::try_from` */
  function TypeOf(id: byte): Option<TagType> {
    match id
    case 0 => Some(TEnd) case 1 => Some(TByte) case 2 => Some(TShort) case 3 => Some(TInt) case 4 => Some(TLong)
    case 5 => Some(TFloat) case 6 => Some(TDouble) case 7 => Some(TByteArray) case 8 => Some(TString) case 9 => Some(TList)
    case 10 => Some(TCompound) case 11 => Some(TIntArray) case 12 => Some(TLongArray) case _ => None
  }

  function Tag(v: Value): TagType {
    match v
    case Byte(_) => TByte case Short(_) => TShort case Int(_) => TInt case Long(_) => TLong
    case Float(_) => TFloat case Double(_) => TDouble case ByteArray(_) => TByteArray case String(_) => TString
    case List(_) => TList case Compound(_) => TCompound case IntArray(_) => TIntArray case LongArray(_) => TLongArray
  }

  // ---- numbers and arrays of numbers ----

  /** The size of a number's payload; 0 for every other tag. */
  function ScalarSize(ty: TagType): nat {
    match ty
    case TByte => 1 case TShort => 2 case TInt => 4 case TLong => 8 case TFloat => 4 case TDouble => 8 case _ => 0
  }

  function Scalar(ty: TagType, s: seq<byte>): Value {
    match ty
    case TByte => Byte(FromSigned(s)) case TShort => Short(FromSigned(s)) case TInt => Int(FromSigned(s))
    case TLong => Long(FromSigned(s)) case TFloat => Float(BigEndian(s)) case _ => Double(BigEndian(s))
  }

  predicate ScalarFits(v: Value) {
    match v
    case Byte(n) => FitsBytes(n, 1) case Short(n) => FitsBytes(n, 2) case Int(n) => FitsBytes(n, 4)
    case Long(n) => FitsBytes(n, 8) case Float(n) => n < Pow256(4) case Double(n) => n < Pow256(8) case _ => false
  }

  function ScalarBytes(v: Value): seq<byte> {
    match v
    case Byte(n) => SignedBytes(n, 1) case Short(n) => SignedBytes(n, 2) case Int(n) => SignedBytes(n, 4)
    case Long(n) => SignedBytes(n, 8) case Float(n) => ToBigEndian(n, 4) case Double(n) => ToBigEndian(n, 8) case _ => []
  }

  lemma ScalarOfBytes(ty: TagType, s: seq<byte>)
    requires ScalarSize(ty) > 0 && |s| == ScalarSize(ty)
    ensures Tag(Scalar(ty, s)) == ty && ScalarFits(Scalar(ty, s)) && ScalarBytes(Scalar(ty, s)) == s
  {
    hide FitsBytes, BigEndian, ToBigEndian, SignedBytes, FromSigned, Pow256;
    FromSignedBack(s);
    DigitsOfBigEndian(s);
  }

  lemma BytesOfScalar(v: Value)
    requires ScalarFits(v)
    ensures ScalarSize(Tag(v)) == |ScalarBytes(v)| > 0 && Scalar(Tag(v), ScalarBytes(v)) == v
  {
    hide FitsBytes, BigEndian, ToBigEndian, SignedBytes, FromSigned, Pow256;
    match v
    case Byte(n) => SignedBytesBack(n, 1);
    case Short(n) => SignedBytesBack(n, 2);
    case Int(n) => SignedBytesBack(n, 4);
    case Long(n) => SignedBytesBack(n, 8);
    case Float(n) => BigEndianOfDigits(n, 4);
    case Double(n) => BigEndianOfDigits(n, 8);
  }

  /** The size of one element of an array of numbers; 0 for every other tag. */
  function ElementSize(ty: TagType): nat {
    match ty
    case TByteArray => 1 case TIntArray => 4 case TLongArray => 8 case _ => 0
  }

  function ArrayOf(ty: TagType, xs: seq<int>): Value {
    match ty
    case TByteArray => ByteArray(xs) case TIntArray => IntArray(xs) case _ => LongArray(xs)
  }

  function ArrayItems(v: Value): seq<int> {
    match v
    case ByteArray(xs) => xs case IntArray(xs) => xs case LongArray(xs) => xs case _ => []
  }

  function Elements(s: seq<byte>, count: nat, size: nat): seq<int>
    requires |s| == count * size
  {
    if count == 0 then []
    else
      FirstElement(count, size);
      [FromSigned(s[..size])] + Elements(s[size..], count - 1, size)
  }

  lemma FirstElement(count: nat, size: nat)
    requires count > 0
    ensures count * size == size + (count - 1) * size
    ensures count * size >= size
  {
  }

  function Flatten(xs: seq<int>, size: nat): seq<byte> {
    if xs == [] then [] else SignedBytes(xs[0], size) + Flatten(xs[1..], size)
  }

  predicate AllFit(xs: seq<int>, size: nat) {
    forall i :: 0 <= i < |xs| ==> FitsBytes(xs[i], size)
  }

  lemma {:induction false} ElementsOfBytes(s: seq<byte>, count: nat, size: nat)
    requires |s| == count * size
    ensures var xs := Elements(s, count, size);
            |xs| == count && AllFit(xs, size) && Flatten(xs, size) == s
  {
    hide FitsBytes, SignedBytes, FromSigned;
    if count > 0 {
      FirstElement(count, size);
      FromSignedBack(s[..size]);
      ElementsOfBytes(s[size..], count - 1, size);
      assert s == s[..size] + s[size..];
    }
  }

  lemma {:induction false} BytesOfElements(xs: seq<int>, size: nat)
    requires AllFit(xs, size)
    ensures |Flatten(xs, size)| == |xs| * size && Elements(Flatten(xs, size), |xs|, size) == xs
  {
    hide FitsBytes, SignedBytes, FromSigned;
    if xs != [] {
      FirstElement(|xs|, size);
      SignedBytesBack(xs[0], size);
      BytesOfElements(xs[1..], size);
      var head := SignedBytes(xs[0], size);
      assert Flatten(xs, size)[..size] == head && Flatten(xs, size)[size..] == Flatten(xs[1..], size);
    }
  }

  // ---- the parser ----

  function ParseName(s: seq<byte>): (p: Parsed<seq<byte>>)
    ensures p.Ok? ==> p.used <= |s|
  {
    if |s| < 2 then Err(Incomplete(2, |s|))
    else
      var len := BigEndian(s[..2]);
      if |s| - 2 < len then Err(Incomplete(len, |s| - 2))
      else if !ValidUtf8(s[2..2 + len]) then Err(InvalidUtf8)
      else Ok(s[2..2 + len], 2 + len)
  }

  function ParseScalar(ty: TagType, s: seq<byte>): (p: Parsed<Value>)
    ensures p.Ok? ==> p.used <= |s|
  {
    if |s| < ScalarSize(ty) then Err(Incomplete(ScalarSize(ty), |s|))
    else Ok(Scalar(ty, s[..ScalarSize(ty)]), ScalarSize(ty))
  }

  /** A negative length is a huge `usize`, whose byte count overflows unless an element is one byte. */
  function ParseArray(ty: TagType, s: seq<byte>): (p: Parsed<Value>)
    ensures p.Ok? ==> p.used <= |s|
  {
    if |s| < 4 then Err(Incomplete(4, |s|))
    else
      var len := AsUsize(FromSigned(s[..4]));
      var total := len * ElementSize(ty);
      if total >= 0x1_0000_0000_0000_0000 then Err(Panic)
      else if |s| - 4 < total then Err(Incomplete(total, |s| - 4))
      else Ok(ArrayOf(ty, Elements(s[4..4 + total], len, ElementSize(ty))), 4 + total)
  }

  /** `read_payload` */
  function ParsePayload(ty: TagType, s: seq<byte>): (p: Parsed<Value>)
    ensures p.Ok? ==> p.used <= |s|
    decreases |s|, 1, 0
  {
    if ty == TEnd then Ok(Byte(0), 0)
    else if ScalarSize(ty) > 0 then ParseScalar(ty, s)
    else if ElementSize(ty) > 0 then ParseArray(ty, s)
    else if ty == TString then
      match ParseName(s)
      case Err(e) => Err(e)
      case Ok(text, n) => Ok(String(text), n)
    else if ty == TCompound then
      match ParseFields(s)
      case Err(e) => Err(e)
      case Ok(fields, n) => Ok(Compound(fields), n)
    else if |s| < 5 then Err(Incomplete(5, |s|))
    else
      var len := FromSigned(s[1..5]);
      if len < 0 then Err(Panic)
      else if s[0] == 0 then Ok(List([]), 5)
      else if TypeOf(s[0]) == None then Err(UnknownTag(s[0]))
      else
        match ParseItems(TypeOf(s[0]).value, len, s[5..])
        case Err(e) => Err(e)
        case Ok(items, n) => Ok(List(items), 5 + n)
  }

  /** The loop over the elements of a list. */
  function ParseItems(ty: TagType, count: nat, s: seq<byte>): (p: Parsed<seq<Value>>)
    ensures p.Ok? ==> p.used <= |s|
    decreases |s|, 2, count
  {
    if count == 0 then Ok([], 0)
    else
      match ParsePayload(ty, s)
      case Err(e) => Err(e)
      case Ok(v, n) =>
        match ParseItems(ty, count - 1, s[n..])
        case Err(e) => Err(e)
        case Ok(vs, m) => Ok([v] + vs, n + m)
  }

  /** `read_compound_body` */
  function ParseFields(s: seq<byte>): (p: Parsed<seq<Field>>)
    ensures p.Ok? ==> 0 < p.used <= |s|
    decreases |s|, 0, 0
  {
    if s == [] then Err(Incomplete(1, 0))
    else if s[0] == 0 then Ok([], 1)
    else
      match ParseField(s)
      case Err(e) => Err(e)
      case Ok(f, n) =>
        match ParseFields(s[n..])
        case Err(e) => Err(e)
        case Ok(fields, k) => Ok([f] + fields, n + k)
  }

  /** One turn of its loop: a tag, a name and a payload. */
  function ParseField(s: seq<byte>): (p: Parsed<Field>)
    requires s != []
    ensures p.Ok? ==> 0 < p.used <= |s|
    decreases |s|, -1, 0
  {
    if TypeOf(s[0]) == None then Err(UnknownTag(s[0]))
    else
      match ParseName(s[1..])
      case Err(e) => Err(e)
      case Ok(name, n) =>
        match ParsePayload(TypeOf(s[0]).value, s[1 + n..])
        case Err(e) => Err(e)
        case Ok(v, m) => Ok(Field(name, v), 1 + n + m)
  }

  /** `read_compound` */
  function ParseRoot(s: seq<byte>): (p: Parsed<Value>)
    ensures p.Ok? ==> p.used <= |s|
  {
    if s == [] then Err(Panic)
    else if TypeOf(s[0]) == None then Err(UnknownTag(s[0]))
    else if TypeOf(s[0]) != Some(TCompound) then Err(ExpectedCompound(TypeOf(s[0]).value))
    else
      match ParseName(s[1..])
      case Err(e) => Err(e)
      case Ok(_, n) =>
        match ParseFields(s[1 + n..])
        case Err(e) => Err(e)
        case Ok(fields, m) => Ok(Compound(fields), 1 + n + m)
  }

  // ---- the grammar ----

  predicate Text(t: seq<byte>) {
    |t| < 0x1_0000 && ValidUtf8(t)
  }

  function TextBytes(t: seq<byte>): seq<byte> {
    ToBigEndian(|t|, 2) + t
  }

  /** `bs` is a spelling of `v`. Only an empty list has more than one. */
  ghost predicate Spells(bs: seq<byte>, v: Value)
    decreases v, 1
  {
    match v
    case String(t) => Text(t) && bs == TextBytes(t)
    case List(items) =>
      && |bs| >= 5
      && (if bs[0] == 0 then items == [] && |bs| == 5 && FromSigned(bs[1..5]) >= 0
          else
            && TypeOf(bs[0]).Some? && |items| < 0x8000_0000
            && bs[1..5] == SignedBytes(|items|, 4)
            && (forall i :: 0 <= i < |items| ==> Tag(items[i]) == TypeOf(bs[0]).value)
            && SpellsItems(bs[5..], items))
    case Compound(fields) => SpellsFields(bs, fields)
    case _ =>
      if ElementSize(Tag(v)) > 0 then
        && |ArrayItems(v)| < 0x8000_0000 && AllFit(ArrayItems(v), ElementSize(Tag(v)))
        && bs == SignedBytes(|ArrayItems(v)|, 4) + Flatten(ArrayItems(v), ElementSize(Tag(v)))
      else ScalarFits(v) && bs == ScalarBytes(v)
  }

  ghost predicate SpellsItems(bs: seq<byte>, items: seq<Value>)
    decreases items, 0
  {
    if items == [] then bs == []
    else exists k :: 0 <= k <= |bs| && SpellsHead(bs, k, items)
  }

  ghost predicate SpellsHead(bs: seq<byte>, k: nat, items: seq<Value>)
    requires items != [] && k <= |bs|
    decreases items, -1
  {
    Spells(bs[..k], items[0]) && SpellsItems(bs[k..], items[1..])
  }

  ghost predicate SpellsFields(bs: seq<byte>, fields: seq<Field>)
    decreases fields, 0
  {
    if fields == [] then bs == [0]
    else exists k :: |FieldHead(fields[0])| <= k <= |bs| && SpellsField(bs, k, fields)
  }

  function FieldHead(f: Field): seq<byte> {
    [Id(Tag(f.value))] + TextBytes(f.name)
  }

  ghost predicate SpellsField(bs: seq<byte>, k: nat, fields: seq<Field>)
    requires fields != [] && |FieldHead(fields[0])| <= k <= |bs|
    decreases fields, -1
  {
    && Text(fields[0].name)
    && FieldHead(fields[0]) <= bs
    && Spells(bs[|FieldHead(fields[0])|..k], fields[0].value)
    && SpellsFields(bs[k..], fields[1..])
  }
}
