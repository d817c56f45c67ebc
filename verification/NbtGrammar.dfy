// The parser accepts exactly the spellings of the grammar, and nothing of what follows them.

module NbtGrammar {
  import opened Common
  import opened Utf8
  import opened Nbt

  // ---- names, numbers and arrays ----

  lemma SoundName(s: seq<byte>)
    requires ParseName(s).Ok?
    ensures var Ok(t, n) := ParseName(s);
            n <= |s| && Text(t) && s[..n] == TextBytes(t)
  {
    hide ValidUtf8, BigEndian, ToBigEndian;
    DigitsOfBigEndian(s[..2]);
    Pow256Values();
  }

  lemma CompleteName(t: seq<byte>, rest: seq<byte>)
    requires Text(t)
    ensures ParseName(TextBytes(t) + rest) == Ok(t, |TextBytes(t)|)
  {
    hide ValidUtf8, BigEndian, ToBigEndian;
    BigEndianOfDigits(|t|, 2) by { Pow256Values(); }
    var s := TextBytes(t) + rest;
    assert s[..2] == ToBigEndian(|t|, 2) && s[2..2 + |t|] == t;
  }

  lemma SoundArray(ty: TagType, s: seq<byte>)
    requires ElementSize(ty) > 0 && |s| <= MAX_SLICE && ParseArray(ty, s).Ok?
    ensures var Ok(v, n) := ParseArray(ty, s);
            n <= |s| && Tag(v) == ty && Spells(s[..n], v)
  {
    hide FromSigned, SignedBytes, Elements, Flatten, FitsBytes;
    var Ok(v, n) := ParseArray(ty, s);
    var len := AsUsize(FromSigned(s[..4]));
    LengthOfBytes(s[..4]);
    assert len < 0x8000_0000;
    ElementsOfBytes(s[4..n], len, ElementSize(ty));
    assert s[..n] == s[..4] + s[4..n];
  }

  /** Four bytes as a length: what they say, and what `as usize` makes of it. */
  lemma LengthOfBytes(s: seq<byte>)
    requires |s| == 4
    ensures -0x8000_0000 <= FromSigned(s) < 0x8000_0000 && SignedBytes(FromSigned(s), 4) == s
    ensures AsUsize(FromSigned(s)) == if FromSigned(s) >= 0 then FromSigned(s) else FromSigned(s) + 0x1_0000_0000_0000_0000
  {
    hide FromSigned, SignedBytes;
    FromSignedBack(s);
    Pow256Values();
  }

  lemma BytesOfLength(n: nat)
    requires n < 0x8000_0000
    ensures FromSigned(SignedBytes(n, 4)) == n && AsUsize(n) == n
  {
    hide FromSigned, SignedBytes;
    Pow256Values();
    SignedBytesBack(n, 4);
  }

  lemma CompleteArray(v: Value, rest: seq<byte>)
    requires ElementSize(Tag(v)) > 0
    requires |ArrayItems(v)| < 0x8000_0000 && AllFit(ArrayItems(v), ElementSize(Tag(v)))
    ensures var bs := SignedBytes(|ArrayItems(v)|, 4) + Flatten(ArrayItems(v), ElementSize(Tag(v)));
            ParseArray(Tag(v), bs + rest) == Ok(v, |bs|)
  {
    var xs, size := ArrayItems(v), ElementSize(Tag(v));
    hide FromSigned, SignedBytes, Elements, Flatten, FitsBytes, AsUsize, AllFit;
    var head, body := SignedBytes(|xs|, 4), Flatten(xs, size);
    BytesOfLength(|xs|);
    BytesOfElements(xs, size);
    var s := head + body + rest;
    assert s[..4] == head && s[4..4 + |body|] == body;
  }

  // ---- soundness: what is parsed is spelled by the bytes consumed ----

  lemma {:induction false} SoundPayload(ty: TagType, s: seq<byte>)
    requires ty != TEnd && |s| <= MAX_SLICE && ParsePayload(ty, s).Ok?
    ensures var Ok(v, n) := ParsePayload(ty, s);
            n <= |s| && Tag(v) == ty && Spells(s[..n], v)
    decreases |s|, 1, 0
  {
    hide ParseArray, ParseName, ParseFields, ParseItems, ValidUtf8, FromSigned, SignedBytes, BigEndian, ToBigEndian;
    if ScalarSize(ty) > 0 {
      ScalarOfBytes(ty, s[..ScalarSize(ty)]);
    } else if ElementSize(ty) > 0 {
      SoundArray(ty, s);
    } else if ty == TString {
      SoundName(s);
    } else if ty == TCompound {
      SoundFields(s);
    } else {
      SoundList(s);
    }
  }

  lemma {:induction false} SoundList(s: seq<byte>)
    requires |s| <= MAX_SLICE && ParsePayload(TList, s).Ok?
    ensures var Ok(v, n) := ParsePayload(TList, s);
            n <= |s| && Tag(v) == TList && Spells(s[..n], v)
    decreases |s|, 0, 0
  {
    hide ParseItems, FromSigned, SignedBytes, SpellsItems;
    var n := ParsePayload(TList, s).used;
    LengthOfBytes(s[1..5]);
    assert s[..n][1..5] == s[1..5];
    if s[0] != 0 {
      var ty := TypeOf(s[0]).value;
      SoundItems(ty, FromSigned(s[1..5]), s[5..]);
      assert s[..n][5..] == s[5..][..n - 5];
    }
  }

  lemma {:induction false} SoundItems(ty: TagType, count: nat, s: seq<byte>)
    requires ty != TEnd && |s| <= MAX_SLICE && ParseItems(ty, count, s).Ok?
    ensures var Ok(vs, n) := ParseItems(ty, count, s);
            n <= |s| && |vs| == count && (forall i :: 0 <= i < count ==> Tag(vs[i]) == ty) && SpellsItems(s[..n], vs)
    decreases |s|, 2, count
  {
    hide ParsePayload, Spells;
    if count > 0 {
      var Ok(vs, n) := ParseItems(ty, count, s);
      var k := ParsePayload(ty, s).used;
      SoundPayload(ty, s);
      SoundItems(ty, count - 1, s[k..]);
      assert vs[1..] == ParseItems(ty, count - 1, s[k..]).value;
      assert s[..n][..k] == s[..k] && s[..n][k..] == s[k..][..n - k];
      assert SpellsHead(s[..n], k, vs);
    }
  }

  lemma {:induction false} SoundFields(s: seq<byte>)
    requires |s| <= MAX_SLICE && ParseFields(s).Ok?
    ensures var Ok(fields, n) := ParseFields(s);
            n <= |s| && SpellsFields(s[..n], fields)
    decreases |s|, 0, 0
  {
    hide ParseField, Spells, Text, FieldHead;
    if s[0] != 0 {
      var h := SoundField(s);
      var Ok(f, k) := ParseField(s);
      var Ok(rest, m) := ParseFields(s[k..]);
      SoundFields(s[k..]);
      var fields := [f] + rest;
      assert ParseFields(s) == Ok(fields, k + m) && fields[1..] == rest;
      hide ParseFields, SpellsFields;
      SliceOfPrefix(s, k + m, 0, h);
      SliceOfPrefix(s, k + m, h, k);
      CutThenDrop(s, k + m, k);
      SpellsFieldFrom(s[..k + m], h, k, fields);
    }
  }

  lemma {:induction false} SoundField(s: seq<byte>) returns (h: nat)
    requires s != [] && s[0] != 0 && |s| <= MAX_SLICE && ParseField(s).Ok?
    ensures var Ok(f, k) := ParseField(s);
            && h == |FieldHead(f)| <= k <= |s|
            && s[0..h] == FieldHead(f) && Text(f.name) && Spells(s[h..k], f.value)
    decreases |s|, -1, 0
  {
    hide ParsePayload, ParseName, Spells, Text, TextBytes, Tag, Id, TypeOf;
    var ty, n := TypeOf(s[0]).value, ParseName(s[1..]).used;
    h := 1 + n;
    assert ty != TEnd && Id(ty) == s[0] by { IdOfType(s[0]); }
    SoundName(s[1..]);
    SoundPayload(ty, s[h..]);
    SliceOfSuffix(s, 1, h);
    SliceOfSuffix(s, h, ParseField(s).used);
    assert s[0..h] == [s[0]] + s[1..h];
  }

  lemma CutThenDrop(s: seq<byte>, m: nat, k: nat)
    requires k <= m <= |s|
    ensures s[..m][k..] == s[k..][..m - k]
  {
    SliceOfPrefix(s, m, k, m);
    SliceOfSuffix(s, k, m);
    assert s[..m][k..] == s[..m][k..m];
  }

  lemma IdOfType(id: byte)
    ensures match TypeOf(id) case Some(ty) => Id(ty) == id && (ty == TEnd <==> id == 0) case None => true
  {
  }

  lemma TypeOfTag(v: Value)
    ensures TypeOf(Id(Tag(v))) == Some(Tag(v)) && Id(Tag(v)) != 0
  {
  }

  lemma SpellsFieldFrom(bs: seq<byte>, h: nat, k: nat, fields: seq<Field>)
    requires fields != [] && h <= k <= |bs| && bs[0..h] == FieldHead(fields[0]) && Text(fields[0].name)
    requires Spells(bs[h..k], fields[0].value) && SpellsFields(bs[k..], fields[1..])
    ensures SpellsFields(bs, fields)
  {
    hide FieldHead, Spells, Text;
    assert SpellsField(bs, k, fields);
  }

  // ---- completeness: every spelling is parsed, whatever follows it ----

  lemma {:induction false} CompletePayload(bs: seq<byte>, v: Value, rest: seq<byte>)
    requires Spells(bs, v)
    ensures ParsePayload(Tag(v), bs + rest) == Ok(v, |bs|)
    decreases v, 1
  {
    hide ParseArray, ParseName, ParseFields, ParseItems, ValidUtf8, FromSigned, SignedBytes, BigEndian, ToBigEndian, Flatten;
    if ElementSize(Tag(v)) > 0 {
      CompleteArray(v, rest);
    } else if v.String? {
      CompleteName(v.text, rest);
    } else if v.List? {
      CompleteList(bs, v.items, rest);
    } else if v.Compound? {
      CompleteFields(bs, v.fields, rest);
    } else {
      BytesOfScalar(v);
      assert (bs + rest)[..|bs|] == bs;
    }
  }

  lemma {:induction false} CompleteList(bs: seq<byte>, items: seq<Value>, rest: seq<byte>)
    requires Spells(bs, List(items))
    ensures ParsePayload(TList, bs + rest) == Ok(List(items), |bs|)
    decreases items, 1
  {
    hide ParseItems, FromSigned, SignedBytes, SpellsItems;
    var s := bs + rest;
    assert s[1..5] == bs[1..5];
    if bs[0] != 0 {
      BytesOfLength(|items|);
      CompleteItems(TypeOf(bs[0]).value, bs[5..], items, rest);
      assert s[5..] == bs[5..] + rest;
    }
  }

  lemma {:induction false} CompleteItems(ty: TagType, bs: seq<byte>, items: seq<Value>, rest: seq<byte>)
    requires SpellsItems(bs, items) && forall i :: 0 <= i < |items| ==> Tag(items[i]) == ty
    ensures ParseItems(ty, |items|, bs + rest) == Ok(items, |bs|)
    decreases items, 0
  {
    hide ParsePayload, Spells, Tag;
    if items != [] {
      var k :| 0 <= k <= |bs| && SpellsHead(bs, k, items);
      var s, more := bs + rest, bs[k..] + rest;
      assert Spells(bs[..k], items[0]) && SpellsItems(bs[k..], items[1..]);
      hide SpellsItems, SpellsHead, ParseItems;
      CompletePayload(bs[..k], items[0], more);
      assert s == bs[..k] + more && s[k..] == more;
      CompleteItems(ty, bs[k..], items[1..], rest);
      assert [items[0]] + items[1..] == items;
      ItemFirst(ty, |items|, s, items[0], k);
    }
  }

  /** The first value of several. */
  lemma ItemFirst(ty: TagType, count: nat, s: seq<byte>, v: Value, k: nat)
    requires count > 0 && ParsePayload(ty, s) == Ok(v, k)
    ensures k <= |s|
    ensures ParseItems(ty, count, s)
         == match ParseItems(ty, count - 1, s[k..])
            case Err(e) => Err(e)
            case Ok(vs, n) => Ok([v] + vs, k + n)
  {
    hide ParsePayload;
  }

  lemma {:induction false} CompleteFields(bs: seq<byte>, fields: seq<Field>, rest: seq<byte>)
    requires SpellsFields(bs, fields)
    ensures ParseFields(bs + rest) == Ok(fields, |bs|)
    decreases fields, 0
  {
    hide ParseField, Spells, Text, FieldHead;
    if fields != [] {
      var f := fields[0];
      var k :| |FieldHead(f)| <= k <= |bs| && SpellsField(bs, k, fields);
      var s, more := bs + rest, bs[k..] + rest;
      assert s == bs[..k] + more && s[k..] == more && [f] + fields[1..] == fields;
      SliceOfPrefix(bs, k, |FieldHead(f)|, k);
      HeadOfPrefix(bs, k, f);
      hide SpellsFields, ParseFields, SpellsField;
      CompleteField(bs[..k], f, more);
      CompleteFields(bs[k..], fields[1..], rest);
      FieldFirst(s, f, k);
    }
  }

  lemma HeadOfPrefix(bs: seq<byte>, k: nat, f: Field)
    requires FieldHead(f) <= bs && |FieldHead(f)| <= k <= |bs|
    ensures FieldHead(f) <= bs[..k]
  {
    hide FieldHead;
  }

  lemma {:induction false} CompleteField(bs: seq<byte>, f: Field, rest: seq<byte>)
    requires FieldHead(f) <= bs && Text(f.name) && Spells(bs[|FieldHead(f)|..], f.value)
    ensures bs != [] && bs[0] != 0 && ParseField(bs + rest) == Ok(f, |bs|)
    decreases f, 0
  {
    hide ParsePayload, ParseName, Spells, Text, TextBytes, Tag, Id, TypeOf;
    var s, h := bs + rest, |FieldHead(f)|;
    var value := bs[h..];
    TypeOfTag(f.value);
    assert bs == FieldHead(f) + value;
    assert s[0] == Id(Tag(f.value)) && s[1..] == TextBytes(f.name) + (value + rest) && s[h..] == value + rest;
    CompleteName(f.name, value + rest);
    CompletePayload(value, f.value, rest);
  }

  /** The first field of several. */
  lemma FieldFirst(s: seq<byte>, f: Field, k: nat)
    requires s != [] && s[0] != 0 && ParseField(s) == Ok(f, k)
    ensures k <= |s|
    ensures ParseFields(s)
         == match ParseFields(s[k..])
            case Err(e) => Err(e)
            case Ok(fields, n) => Ok([f] + fields, k + n)
  {
    hide ParseField;
  }

  /** For every tag but End, on every input: the parser answers v after n bytes exactly if those n bytes spell v. */
  lemma ParseExactly(ty: TagType, s: seq<byte>, v: Value, n: nat)
    requires ty != TEnd && |s| <= MAX_SLICE
    ensures ParsePayload(ty, s) == Ok(v, n) <==> n <= |s| && Tag(v) == ty && Spells(s[..n], v)
  {
    hide ParsePayload, Spells, Tag;
    if ParsePayload(ty, s) == Ok(v, n) { SoundPayload(ty, s); }
    if n <= |s| && Tag(v) == ty && Spells(s[..n], v) {
      CompletePayload(s[..n], v, s[n..]);
      assert s[..n] + s[n..] == s;
    }
  }
}
