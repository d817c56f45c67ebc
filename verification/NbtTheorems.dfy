// What follows from the grammar: round trips, unique reading, prefixes, sizes.

module NbtTheorems {
  import opened Common
  import opened Utf8
  import opened Nbt
  import opened NbtGrammar

  // ---- printing ----

  /** The values that have a spelling: lists of one kind, lengths and numbers that fit, names and strings in UTF-8. */
  predicate Printable(v: Value)
    decreases v, 1
  {
    match v
    case String(t) => Text(t)
    case List(items) =>
      && |items| < 0x8000_0000
      && (forall i :: 0 <= i < |items| ==> Tag(items[i]) == Tag(items[0]))
      && PrintableItems(items)
    case Compound(fields) => PrintableFields(fields)
    case _ =>
      if ElementSize(Tag(v)) > 0 then |ArrayItems(v)| < 0x8000_0000 && AllFit(ArrayItems(v), ElementSize(Tag(v)))
      else ScalarFits(v)
  }

  predicate PrintableItems(items: seq<Value>)
    decreases items, 0
  {
    items != [] ==> Printable(items[0]) && PrintableItems(items[1..])
  }

  predicate PrintableFields(fields: seq<Field>)
    decreases fields, 0
  {
    fields != [] ==> Text(fields[0].name) && Printable(fields[0].value) && PrintableFields(fields[1..])
  }

  /** One spelling of each value; an empty list is given the element type End. */
  function Print(v: Value): seq<byte>
    decreases v, 1
  {
    match v
    case String(t) => TextBytes(t)
    case List(items) =>
      [if items == [] then 0 else Id(Tag(items[0]))] + SignedBytes(|items|, 4) + PrintItems(items)
    case Compound(fields) => PrintFields(fields)
    case _ =>
      if ElementSize(Tag(v)) > 0 then SignedBytes(|ArrayItems(v)|, 4) + Flatten(ArrayItems(v), ElementSize(Tag(v)))
      else ScalarBytes(v)
  }

  function PrintItems(items: seq<Value>): seq<byte>
    decreases items, 0
  {
    if items == [] then [] else Print(items[0]) + PrintItems(items[1..])
  }

  function PrintFields(fields: seq<Field>): seq<byte>
    decreases fields, 0
  {
    if fields == [] then [0] else FieldHead(fields[0]) + Print(fields[0].value) + PrintFields(fields[1..])
  }

  lemma {:induction false} PrintSpells(v: Value)
    requires Printable(v)
    ensures Spells(Print(v), v)
    decreases v, 1
  {
    hide Tag, Id, TypeOf, SignedBytes, FromSigned, Flatten, Text;
    if v.List? {
      var items := v.items;
      PrintItemsSpells(items);
      BytesOfLength(|items|);
      var bs := Print(v);
      assert bs[1..5] == SignedBytes(|items|, 4) && bs[5..] == PrintItems(items);
      if items != [] { TypeOfTag(items[0]); }
    } else if v.Compound? {
      PrintFieldsSpells(v.fields);
    }
  }

  lemma {:induction false} PrintItemsSpells(items: seq<Value>)
    requires PrintableItems(items)
    ensures SpellsItems(PrintItems(items), items)
    decreases items, 0
  {
    hide Print, Printable, Spells;
    if items != [] {
      PrintSpells(items[0]);
      PrintItemsSpells(items[1..]);
      var bs, k := PrintItems(items), |Print(items[0])|;
      assert bs[..k] == Print(items[0]) && bs[k..] == PrintItems(items[1..]);
      assert SpellsHead(bs, k, items);
    }
  }

  lemma {:induction false} PrintFieldsSpells(fields: seq<Field>)
    requires PrintableFields(fields)
    ensures SpellsFields(PrintFields(fields), fields)
    decreases fields, 0
  {
    hide Print, Printable, Spells, FieldHead, Text;
    if fields != [] {
      var v := fields[0].value;
      PrintSpells(v);
      PrintFieldsSpells(fields[1..]);
      var bs, h := PrintFields(fields), |FieldHead(fields[0])|;
      var k := h + |Print(v)|;
      assert bs[..h] == FieldHead(fields[0]) && bs[h..k] == Print(v) && bs[k..] == PrintFields(fields[1..]);
      SpellsFieldFrom(bs, h, k, fields);
    }
  }

  lemma {:induction false} SpelledIsPrintable(bs: seq<byte>, v: Value)
    requires Spells(bs, v)
    ensures Printable(v)
    decreases v, 1
  {
    hide Tag, Id, TypeOf, SignedBytes, FromSigned, Flatten, Text;
    if v.List? {
      if bs[0] != 0 { SpelledItemsPrintable(bs[5..], v.items); }
    } else if v.Compound? {
      SpelledFieldsPrintable(bs, v.fields);
    }
  }

  lemma {:induction false} SpelledItemsPrintable(bs: seq<byte>, items: seq<Value>)
    requires SpellsItems(bs, items)
    ensures PrintableItems(items)
    decreases items, 0
  {
    hide Spells, Printable;
    if items != [] {
      var k :| 0 <= k <= |bs| && SpellsHead(bs, k, items);
      SpelledIsPrintable(bs[..k], items[0]);
      SpelledItemsPrintable(bs[k..], items[1..]);
    }
  }

  lemma {:induction false} SpelledFieldsPrintable(bs: seq<byte>, fields: seq<Field>)
    requires SpellsFields(bs, fields)
    ensures PrintableFields(fields)
    decreases fields, 0
  {
    hide Spells, Printable, FieldHead, Text;
    if fields != [] {
      var k :| |FieldHead(fields[0])| <= k <= |bs| && SpellsField(bs, k, fields);
      SpelledIsPrintable(bs[|FieldHead(fields[0])|..k], fields[0].value);
      SpelledFieldsPrintable(bs[k..], fields[1..]);
    }
  }

  /** The values the parser can ever answer are exactly the printable ones. */
  lemma SpellableExactly(v: Value)
    ensures (exists bs :: Spells(bs, v)) <==> Printable(v)
  {
    if Printable(v) { PrintSpells(v); }
    if bs :| Spells(bs, v) { SpelledIsPrintable(bs, v); }
  }

  /** Parsing what was printed gives the value back and stops at its end. */
  lemma RoundTrip(v: Value, rest: seq<byte>)
    requires Printable(v)
    ensures ParsePayload(Tag(v), Print(v) + rest) == Ok(v, |Print(v)|)
  {
    PrintSpells(v);
    CompletePayload(Print(v), v, rest);
  }

  /** The bytes determine the value and where it ends: no spelling is the beginning of another. */
  lemma SpellingsPrefixFree(bs: seq<byte>, v: Value, more: seq<byte>, u: Value)
    requires Spells(bs, v) && Spells(bs + more, u) && Tag(u) == Tag(v)
    ensures u == v && more == []
  {
    hide ParsePayload, Spells, Tag;
    CompletePayload(bs, v, more);
    CompletePayload(bs + more, u, []);
    assert bs + more + [] == bs + more;
  }

  // ---- only the bytes consumed matter ----

  /** Changing or cutting what follows the value changes nothing. */
  lemma LocalPayload(ty: TagType, s: seq<byte>, t: seq<byte>)
    requires ty != TEnd && |s| <= MAX_SLICE && ParsePayload(ty, s).Ok?
    ensures var n := ParsePayload(ty, s).used;
            ParsePayload(ty, s[..n] + t) == ParsePayload(ty, s)
  {
    var Ok(v, n) := ParsePayload(ty, s);
    SoundPayload(ty, s);
    CompletePayload(s[..n], v, t);
  }

  lemma NameCut(s: seq<byte>, m: nat)
    requires ParseName(s).Ok? && m <= |s|
    ensures if m < ParseName(s).used then IsIncomplete(ParseName(s[..m]))
            else ParseName(s[..m]) == ParseName(s)
  {
    hide ValidUtf8, BigEndian;
    if m >= 2 {
      assert s[..m][..2] == s[..2];
      var n := ParseName(s).used;
      if n <= m { assert s[..m][2..n] == s[2..n]; }
    }
  }

  predicate IsIncomplete<T>(p: Parsed<T>) {
    p.Err? && p.error.Incomplete?
  }

  lemma ArrayCut(ty: TagType, s: seq<byte>, m: nat)
    requires ParseArray(ty, s).Ok? && m < ParseArray(ty, s).used
    ensures IsIncomplete(ParseArray(ty, s[..m]))
  {
    hide FromSigned, Elements;
    if m >= 4 { assert s[..m][..4] == s[..4]; }
  }

  /** A value that is cut short is reported as incomplete, wherever the cut falls. */
  lemma {:induction false} PayloadCut(ty: TagType, s: seq<byte>, m: nat)
    requires ty != TEnd && |s| <= MAX_SLICE && ParsePayload(ty, s).Ok? && m < ParsePayload(ty, s).used
    ensures IsIncomplete(ParsePayload(ty, s[..m]))
    decreases |s|, 1, 0
  {
    hide ParseArray, ParseName, ParseFields, ParseItems, FromSigned;
    if ScalarSize(ty) > 0 {
    } else if ElementSize(ty) > 0 {
      ArrayCut(ty, s, m);
    } else if ty == TString {
      NameCut(s, m);
    } else if ty == TCompound {
      FieldsCut(s, m);
    } else if m >= 5 {
      SliceOfPrefix(s, m, 1, 5);
      CutThenDrop(s, m, 5);
      ListCut(s, m);
    }
  }

  lemma {:induction false} ListCut(s: seq<byte>, m: nat)
    requires |s| <= MAX_SLICE && ParsePayload(TList, s).Ok? && 5 <= m < ParsePayload(TList, s).used
    requires s[..m][1..5] == s[1..5] && s[..m][5..] == s[5..][..m - 5]
    ensures IsIncomplete(ParsePayload(TList, s[..m]))
    decreases |s|, 0, 1
  {
    hide ParseItems, FromSigned, TypeOf;
    assert s[..m][0] == s[0];
    IdOfType(s[0]);
    ItemsCut(TypeOf(s[0]).value, FromSigned(s[1..5]), s[5..], m - 5);
  }

  lemma {:induction false} ItemsCut(ty: TagType, count: nat, s: seq<byte>, m: nat)
    requires ty != TEnd && |s| <= MAX_SLICE && ParseItems(ty, count, s).Ok? && m < ParseItems(ty, count, s).used
    ensures IsIncomplete(ParseItems(ty, count, s[..m]))
    decreases |s|, 2, count
  {
    hide ParsePayload;
    var k := ParsePayload(ty, s).used;
    if m < k {
      PayloadCut(ty, s, m);
    } else {
      PayloadKept(ty, s, m);
      ItemsCut(ty, count - 1, s[k..], m - k);
      CutThenDrop(s, m, k);
    }
  }

  lemma PayloadKept(ty: TagType, s: seq<byte>, m: nat)
    requires ty != TEnd && |s| <= MAX_SLICE && ParsePayload(ty, s).Ok? && ParsePayload(ty, s).used <= m <= |s|
    ensures ParsePayload(ty, s[..m]) == ParsePayload(ty, s)
  {
    hide ParsePayload;
    var k := ParsePayload(ty, s).used;
    LocalPayload(ty, s, s[k..m]);
    assert s[..k] + s[k..m] == s[..m];
  }

  lemma {:induction false} FieldsCut(s: seq<byte>, m: nat)
    requires |s| <= MAX_SLICE && ParseFields(s).Ok? && m < ParseFields(s).used
    ensures IsIncomplete(ParseFields(s[..m]))
    decreases |s|, 0, 0
  {
    hide ParseField;
    if m > 0 && s[0] != 0 {
      var k := ParseField(s).used;
      assert ParseFields(s[k..]).Ok? && ParseFields(s).used == k + ParseFields(s[k..]).used;
      FieldCut(s, m);
      if m >= k {
        FieldsCut(s[k..], m - k);
        CutThenDrop(s, m, k);
        hide ParseFields;
        FieldFirst(s[..m], ParseField(s).value, k);
      }
    }
  }

  lemma {:induction false} FieldCut(s: seq<byte>, m: nat)
    requires s != [] && s[0] != 0 && |s| <= MAX_SLICE && ParseField(s).Ok? && 0 < m <= |s|
    ensures if m < ParseField(s).used then IsIncomplete(ParseField(s[..m])) else ParseField(s[..m]) == ParseField(s)
    decreases |s|, -1, 0
  {
    hide ParsePayload, ParseName, TypeOf;
    var ty, h := TypeOf(s[0]).value, 1 + ParseName(s[1..]).used;
    assert ty != TEnd by { IdOfType(s[0]); }
    assert s[..m][0] == s[0];
    NameCut(s[1..], m - 1);
    CutThenDrop(s, m, 1);
    if h <= m {
      CutThenDrop(s, m, h);
      if m < ParseField(s).used {
        PayloadCut(ty, s[h..], m - h);
      } else {
        PayloadKept(ty, s[h..], m - h);
      }
    }
  }

  // ---- sizes ----

  function Nodes(v: Value): nat
    decreases v, 1
  {
    match v
    case List(items) => 1 + NodesOfItems(items)
    case Compound(fields) => 1 + NodesOfFields(fields)
    case _ => 1 + |ArrayItems(v)|
  }

  function NodesOfItems(items: seq<Value>): nat
    decreases items, 0
  {
    if items == [] then 0 else Nodes(items[0]) + NodesOfItems(items[1..])
  }

  function NodesOfFields(fields: seq<Field>): nat
    decreases fields, 0
  {
    if fields == [] then 0 else Nodes(fields[0].value) + NodesOfFields(fields[1..])
  }

  function Max(a: nat, b: nat): nat {
    if a < b then b else a
  }

  function Depth(v: Value): nat
    decreases v, 1
  {
    match v
    case List(items) => 1 + DepthOfItems(items)
    case Compound(fields) => 1 + DepthOfFields(fields)
    case _ => 1
  }

  function DepthOfItems(items: seq<Value>): nat
    decreases items, 0
  {
    if items == [] then 0 else Max(Depth(items[0]), DepthOfItems(items[1..]))
  }

  function DepthOfFields(fields: seq<Field>): nat
    decreases fields, 0
  {
    if fields == [] then 0 else Max(Depth(fields[0].value), DepthOfFields(fields[1..]))
  }

  lemma {:induction false} SizeBound(bs: seq<byte>, v: Value)
    requires Spells(bs, v)
    ensures Nodes(v) <= |bs| && Depth(v) <= |bs|
    decreases v, 1
  {
    hide FromSigned, SignedBytes, TypeOf, Text;
    if v.List? {
      if bs[0] != 0 { ItemsSizeBound(bs[5..], v.items); }
    } else if v.Compound? {
      FieldsSizeBound(bs, v.fields);
    } else if ElementSize(Tag(v)) > 0 {
      BytesOfElements(ArrayItems(v), ElementSize(Tag(v)));
    } else if !v.String? {
      BytesOfScalar(v);
    }
  }

  lemma {:induction false} ItemsSizeBound(bs: seq<byte>, items: seq<Value>)
    requires SpellsItems(bs, items)
    ensures NodesOfItems(items) <= |bs| && DepthOfItems(items) <= |bs|
    decreases items, 0
  {
    hide Spells, Nodes, Depth;
    if items != [] {
      var k :| 0 <= k <= |bs| && SpellsHead(bs, k, items);
      SizeBound(bs[..k], items[0]);
      ItemsSizeBound(bs[k..], items[1..]);
    }
  }

  lemma {:induction false} FieldsSizeBound(bs: seq<byte>, fields: seq<Field>)
    requires SpellsFields(bs, fields)
    ensures 1 + NodesOfFields(fields) <= |bs| && 1 + DepthOfFields(fields) <= |bs|
    decreases fields, 0
  {
    hide Spells, Nodes, Depth, TextBytes, Text;
    if fields != [] {
      var k :| |FieldHead(fields[0])| <= k <= |bs| && SpellsField(bs, k, fields);
      SizeBound(bs[|FieldHead(fields[0])|..k], fields[0].value);
      FieldsSizeBound(bs[k..], fields[1..]);
    }
  }

  /** Parsing consumes at least one byte and builds no more nodes, nor a deeper value, than it consumes bytes. */
  lemma ParsedSize(ty: TagType, s: seq<byte>)
    requires ty != TEnd && |s| <= MAX_SLICE && ParsePayload(ty, s).Ok?
    ensures var Ok(v, n) := ParsePayload(ty, s);
            0 < Depth(v) && Depth(v) <= n && 0 < Nodes(v) <= n
  {
    SoundPayload(ty, s);
    SizeBound(s[..ParsePayload(ty, s).used], ParsePayload(ty, s).value);
  }

  // ---- whole files ----

  /** The bytes of a root compound with this name. */
  function RootBytes(name: seq<byte>, body: seq<byte>): seq<byte> {
    [10] + TextBytes(name) + body
  }

  /** A whole file is read exactly if it begins with a root compound; the root's name is dropped. */
  lemma RootExactly(s: seq<byte>, v: Value, n: nat)
    requires |s| <= MAX_SLICE
    ensures ParseRoot(s) == Ok(v, n)
       <==> n <= |s| && v.Compound? && exists name, body :: Text(name) && SpellsFields(body, v.fields) && s[..n] == RootBytes(name, body)
  {
    hide ParseName, ParseFields, SpellsFields, Text, TextBytes;
    if ParseRoot(s) == Ok(v, n) {
      var h := 1 + ParseName(s[1..]).used;
      SoundName(s[1..]);
      SoundFields(s[h..]);
      var body := s[h..][..n - h];
      SliceOfPrefix(s, n, 0, h);
      SliceOfSuffix(s, 1, h);
      CutThenDrop(s, n, h);
      assert s[..n][..h] == s[..n][0..h] == [s[0]] + s[1..h];
      assert s[0] == 10;
      assert s[..n] == s[..n][..h] + s[..n][h..];
      assert s[..n] == RootBytes(ParseName(s[1..]).value, body);
    }
    if n <= |s| && v.Compound? {
      if name, body :| Text(name) && SpellsFields(body, v.fields) && s[..n] == RootBytes(name, body) {
        RootAccepted(name, body, v.fields, s[n..]);
        assert s[..n] + s[n..] == s;
      }
    }
  }

  lemma RootAccepted(name: seq<byte>, body: seq<byte>, fields: seq<Field>, rest: seq<byte>)
    requires Text(name) && SpellsFields(body, fields)
    ensures ParseRoot(RootBytes(name, body) + rest) == Ok(Compound(fields), |RootBytes(name, body)|)
  {
    hide ParseName, ParseFields, SpellsFields, Text, TextBytes;
    var s := RootBytes(name, body) + rest;
    var h := 1 + |TextBytes(name)|;
    CompleteName(name, body + rest);
    CompleteFields(body, fields, rest);
    assert s[1..] == TextBytes(name) + (body + rest) && s[h..] == body + rest;
  }

  /** Every nonempty part of a file that stops inside the root is reported as incomplete. */
  lemma RootCut(s: seq<byte>, m: nat)
    requires |s| <= MAX_SLICE && ParseRoot(s).Ok? && 0 < m < ParseRoot(s).used
    ensures IsIncomplete(ParseRoot(s[..m]))
  {
    hide ParseName, ParseFields, TypeOf;
    var h := 1 + ParseName(s[1..]).used;
    NameCut(s[1..], m - 1);
    CutThenDrop(s, m, 1);
    if h <= m {
      FieldsCut(s[h..], m - h);
      CutThenDrop(s, m, h);
    }
  }
}
