// The NBT reader as it runs: it consumes a buffer and grows vectors in loops. Each method is the parser of module Nbt.

module NbtReader {
  import opened Common
  import opened Buffers
  import opened Utf8
  import opened Nbt
  import opened NbtGrammar

  /** On success exactly the parsed bytes are gone from the buffer. */
  ghost predicate Agrees<T>(p: Parsed<T>, before: seq<byte>, r: Result<T, NbtError>, after: seq<byte>) {
    match p
    case Ok(v, n) => r == Success(v) && n <= |before| && after == before[n..]
    case Err(e) => r == Failure(e)
  }

  method ReadTagName(buf: Bytes) returns (r: Result<seq<byte>, NbtError>)
    modifies buf
    ensures Agrees(ParseName(old(buf.data)), old(buf.data), r, buf.data)
  {
    if |buf.data| < 2 {
      return Failure(Incomplete(2, |buf.data|));
    }
    var head := buf.SplitTo(2);
    var len := BigEndian(head);
    if |buf.data| < len {
      return Failure(Incomplete(len, |buf.data|));
    }
    var name := buf.SplitTo(len);
    assert name == old(buf.data)[2..2 + len];
    if !ValidUtf8(name) {
      return Failure(InvalidUtf8);
    }
    return Success(name);
  }

  method ReadElements(buf: Bytes, len: nat, size: nat) returns (xs: seq<int>)
    requires size > 0 && len * size <= |buf.data|
    modifies buf
    ensures xs == Elements(old(buf.data)[..len * size], len, size)
    ensures buf.data == old(buf.data)[len * size..]
  {
    ghost var left, tail := buf.data[..len * size], buf.data[len * size..];
    ghost var all := Elements(left, len, size);
    xs := [];
    var todo := len;
    assert xs + all == all;
    while todo > 0
      invariant buf.data == left + tail && |left| == todo * size
      invariant xs + Elements(left, todo, size) == all
    {
      hide FromSigned, Elements;
      ElementsStep(xs, left, todo, size);
      var bytes := buf.SplitTo(size);
      assert bytes == left[..size] && buf.data == left[size..] + tail;
      left := left[size..];
      xs := xs + [FromSigned(bytes)];
      todo := todo - 1;
    }
    assert xs == all && left == [];
  }

  lemma ElementsStep(xs: seq<int>, s: seq<byte>, count: nat, size: nat)
    requires count > 0 && |s| == count * size
    ensures size <= |s| && |s[size..]| == (count - 1) * size
    ensures xs + Elements(s, count, size) == xs + [FromSigned(s[..size])] + Elements(s[size..], count - 1, size)
  {
    hide FromSigned;
    FirstElement(count, size);
  }

  method ReadArray(buf: Bytes, ty: TagType) returns (r: Result<Value, NbtError>)
    requires ElementSize(ty) > 0
    modifies buf
    ensures Agrees(ParseArray(ty, old(buf.data)), old(buf.data), r, buf.data)
  {
    hide Elements, FromSigned;
    ghost var s := buf.data;
    if |buf.data| < 4 {
      return Failure(Incomplete(4, |buf.data|));
    }
    var head := buf.SplitTo(4);
    var len := AsUsize(FromSigned(head));
    var total := len * ElementSize(ty);
    if total >= 0x1_0000_0000_0000_0000 {
      return Failure(Panic);
    }
    if |buf.data| < total {
      return Failure(Incomplete(total, |buf.data|));
    }
    assert buf.data[..total] == s[4..4 + total];
    var xs := ReadElements(buf, len, ElementSize(ty));
    return Success(ArrayOf(ty, xs));
  }

  method ReadPayload(buf: Bytes, ty: TagType) returns (r: Result<Value, NbtError>)
    modifies buf
    ensures Agrees(ParsePayload(ty, old(buf.data)), old(buf.data), r, buf.data)
    decreases |buf.data|, 1
  {
    hide ParseName, ParseArray, ParseFields, ParseItems, FromSigned;
    if ScalarSize(ty) > 0 {
      if |buf.data| < ScalarSize(ty) {
        return Failure(Incomplete(ScalarSize(ty), |buf.data|));
      }
      var s := buf.SplitTo(ScalarSize(ty));
      return Success(Scalar(ty, s));
    } else if ElementSize(ty) > 0 {
      r := ReadArray(buf, ty);
    } else if ty == TString {
      var text := ReadTagName(buf);
      match text
      case Success(t) => return Success(String(t));
      case Failure(e) => return Failure(e);
    } else if ty == TCompound {
      var fields := ReadCompoundBody(buf);
      match fields
      case Success(fs) => return Success(Compound(fs));
      case Failure(e) => return Failure(e);
    } else if ty == TList {
      r := ReadList(buf);
    } else {
      return Success(Byte(0));
    }
  }

  /** The list case of `read_payload`. */
  method ReadList(buf: Bytes) returns (r: Result<Value, NbtError>)
    modifies buf
    ensures Agrees(ParsePayload(TList, old(buf.data)), old(buf.data), r, buf.data)
    decreases |buf.data|, 0
  {
    hide ParseItems, FromSigned;
    ghost var s := buf.data;
    if |buf.data| < 5 {
      return Failure(Incomplete(5, |buf.data|));
    }
    var elemType := buf.GetU8();
    var lenBytes := buf.SplitTo(4);
    assert lenBytes == s[1..5];
    var len := FromSigned(lenBytes);
    if len < 0 {
      return Failure(Panic);
    }
    if elemType == 0 {
      return Success(List([]));
    }
    var elemTy := TypeOf(elemType);
    if elemTy.None? {
      return Failure(UnknownTag(elemType));
    }
    var items := ReadItems(buf, elemTy.value, len);
    match items
    case Success(vs) => return Success(List(vs));
    case Failure(e) => return Failure(e);
  }

  ghost function After<T>(done: seq<T>, used: nat, p: Parsed<seq<T>>): Parsed<seq<T>> {
    match p
    case Err(e) => Err(e)
    case Ok(vs, n) => Ok(done + vs, used + n)
  }

  lemma AfterStep<T>(done: seq<T>, used: nat, one: seq<T>, n: nat, p: Parsed<seq<T>>)
    ensures After(done, used, After(one, n, p)) == After(done + one, used + n, p)
    ensures After([], 0, p) == p
  {
    if p.Ok? { assert done + (one + p.value) == done + one + p.value && [] + p.value == p.value; }
  }

  lemma AfterAll<T>(done: seq<T>, used: nat)
    ensures After(done, used, Ok([], 0)) == Ok(done, used)
  {
    assert done + [] == done;
  }

  method ReadItems(buf: Bytes, ty: TagType, len: nat) returns (r: Result<seq<Value>, NbtError>)
    modifies buf
    ensures Agrees(ParseItems(ty, len, old(buf.data)), old(buf.data), r, buf.data)
    decreases |buf.data|, 2
  {
    hide ParsePayload, After;
    ghost var s := buf.data;
    ghost var k := 0;
    var list := [];
    var i := 0;
    AfterStep([], 0, [], 0, ParseItems(ty, len, s));
    while i < len
      invariant 0 <= i <= len && 0 <= k <= |s| && buf.data == s[k..]
      invariant ParseItems(ty, len, s) == After(list, k, ParseItems(ty, len - i, s[k..]))
    {
      ghost var p := ParsePayload(ty, s[k..]);
      ItemsStep(ty, len - i, s, k, list);
      hide ParseItems, After;
      var v := ReadPayload(buf, ty);
      if v.Failure? {
        return Failure(v.error);
      }
      list := list + [v.value];
      assert buf.data == s[k + p.used..];
      k := k + p.used;
      i := i + 1;
    }
    AfterAll(list, k);
    return Success(list);
  }

  lemma ItemsStep(ty: TagType, count: nat, s: seq<byte>, k: nat, list: seq<Value>)
    requires count > 0 && k <= |s|
    ensures match ParsePayload(ty, s[k..])
            case Err(e) => After(list, k, ParseItems(ty, count, s[k..])) == Err(e)
            case Ok(v, n) =>
              && k + n <= |s| && s[k..][n..] == s[k + n..]
              && After(list, k, ParseItems(ty, count, s[k..]))
                 == After(list + [v], k + n, ParseItems(ty, count - 1, s[k + n..]))
  {
    hide ParsePayload;
    match ParsePayload(ty, s[k..])
    case Err(_) =>
    case Ok(v, n) =>
      DropTwice(s, k, n);
      ItemFirst(ty, count, s[k..], v, n);
      hide ParseItems;
      AfterStep(list, k, [v], n, ParseItems(ty, count - 1, s[k + n..]));
  }

  method ReadCompoundBody(buf: Bytes) returns (r: Result<seq<Field>, NbtError>)
    modifies buf
    ensures Agrees(ParseFields(old(buf.data)), old(buf.data), r, buf.data)
    decreases |buf.data|, 0
  {
    hide ParseField;
    ghost var s := buf.data;
    ghost var k := 0;
    var entries := [];
    AfterStep([], 0, [], 0, ParseFields(s));
    while true
      invariant 0 <= k <= |s| && buf.data == s[k..]
      invariant ParseFields(s) == After(entries, k, ParseFields(s[k..]))
      decreases |s| - k
    {
      if buf.data == [] {
        return Failure(Incomplete(1, 0));
      }
      if buf.data[0] == 0 {
        var end := buf.GetU8();
        assert entries + [] == entries;
        return Success(entries);
      }
      ghost var here := s[k..];
      var field := ReadField(buf);
      if field.Failure? {
        return Failure(field.error);
      }
      ghost var m := ParseField(here).used;
      assert buf.data == here[m..] == s[k + m..];
      FieldsStep(s, k, entries);
      hide ParseFields, After;
      entries := entries + [field.value];
      k := k + m;
    }
  }

  /** A field that does not end the compound: its tag, its name and its payload. */
  method ReadField(buf: Bytes) returns (r: Result<Field, NbtError>)
    requires buf.data != [] && buf.data[0] != 0
    modifies buf
    ensures Agrees(ParseField(old(buf.data)), old(buf.data), r, buf.data)
    decreases |buf.data|, -1
  {
    hide ParsePayload, ParseName, TypeOf;
    ghost var s := buf.data;
    var tyByte := buf.GetU8();
    var ty := TypeOf(tyByte);
    if ty.None? {
      return Failure(UnknownTag(tyByte));
    }
    var name := ReadTagName(buf);
    if name.Failure? {
      return Failure(name.error);
    }
    ghost var h := 1 + ParseName(s[1..]).used;
    assert buf.data == s[h..];
    var value := ReadPayload(buf, ty.value);
    if value.Failure? {
      return Failure(value.error);
    }
    DropTwice(s, h, ParsePayload(ty.value, s[h..]).used);
    return Success(Field(name.value, value.value));
  }

  lemma FieldsStep(s: seq<byte>, k: nat, entries: seq<Field>)
    requires k < |s| && s[k..][0] != 0 && ParseField(s[k..]).Ok?
    ensures var Ok(f, m) := ParseField(s[k..]);
            && k + m <= |s| && s[k..][m..] == s[k + m..]
            && After(entries, k, ParseFields(s[k..])) == After(entries + [f], k + m, ParseFields(s[k + m..]))
  {
    hide ParseField;
    var Ok(f, m) := ParseField(s[k..]);
    DropTwice(s, k, m);
    AfterStep(entries, k, [f], m, ParseFields(s[k + m..]));
  }

  /** `read_compound` */
  method ReadCompound(src: seq<byte>) returns (r: Parsed<Value>)
    ensures r == ParseRoot(src)
  {
    hide ParseFields, ParseName, TypeOf;
    var buf := new Bytes(src);
    var total := |buf.data|;
    if buf.data == [] {
      return Err(Panic);
    }
    var tyByte := buf.GetU8();
    var ty := TypeOf(tyByte);
    if ty.None? {
      return Err(UnknownTag(tyByte));
    }
    if ty.value != TCompound {
      return Err(ExpectedCompound(ty.value));
    }
    var name := ReadTagName(buf);
    if name.Failure? {
      return Err(name.error);
    }
    ghost var h := 1 + ParseName(src[1..]).used;
    assert buf.data == src[h..];
    var compound := ReadCompoundBody(buf);
    if compound.Failure? {
      return Err(compound.error);
    }
    var consumed := total - |buf.data|;
    return Ok(Compound(compound.value), consumed);
  }
}
