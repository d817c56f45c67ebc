// VarInt and VarLong: base-128 numbers, least significant group first, the top bit of a byte announcing another one.
// The two differ only in the width of the integer and in how many bytes the reader accepts.

module VarInts {
  import opened Common
  import opened Bits
  import opened Buffers

  function MaxBytes(w: Width): nat {
    if w.W32? then 5 else 10
  }

  /** The shortest form of an unsigned number. */
  function Encode(u: nat): seq<byte> {
    if u < 128 then [u] else [128 + u % 128] + Encode(u / 128)
  }

  /** How many leading bytes announce another one. */
  function Continued(s: seq<byte>): (n: nat)
    ensures n <= |s|
    ensures n < |s| ==> s[n] < 128
    ensures forall i :: 0 <= i < n ==> s[i] >= 128
  {
    if s == [] || s[0] < 128 then 0 else 1 + Continued(s[1..])
  }

  /** The number spelled by the low seven bits of each byte. */
  function Groups(s: seq<byte>): nat {
    if s == [] then 0 else s[0] % 128 + 128 * Groups(s[1..])
  }

  datatype VarIntError = Incomplete | TooLarge

  /** A value and the number of bytes it took, or why there is none. */
  datatype Decoded = Ok(value: int, used: nat) | Bad(error: VarIntError)

  /** What every reader of this format answers, on any input. */
  function Decode(w: Width, s: seq<byte>): Decoded {
    var n := Continued(s);
    if n >= MaxBytes(w) then Bad(TooLarge)
    else if n == |s| then Bad(Incomplete)
    else Ok(Signed(w, Groups(s[..n + 1])), n + 1)
  }

  // ---- the operations ----

  method Write(w: Width, v: int, buf: Bytes)
    requires InRange(w, v)
    modifies buf
    ensures buf.data == old(buf.data) + Encode(Unsigned(w, v))
  {
    hide And, Or, Pow2;
    Pow2Values();
    var u: nat := Unsigned(w, v);
    while true
      invariant buf.data + Encode(u) == old(buf.data) + Encode(Unsigned(w, v))
      decreases u
    {
      ghost var before := buf.data;
      ghost var u0 := u;
      AndMask(u, 7);
      var b := And(u, 0x7F);
      u := Shr(u, 7);
      if u != 0 {
        OrDisjoint(b, 1, 7);
        b := Or(b, 0x80);
      }
      buf.PutU8(b);
      if u == 0 {
        break;
      }
      assert before + Encode(u0) == before + [b] + Encode(u);
    }
  }

  method Read(w: Width, buf: Bytes) returns (r: Result<int, VarIntError>)
    modifies buf
    ensures match Decode(w, old(buf.data))
            case Ok(v, n) => r == Success(v) && buf.data == old(buf.data)[n..]
            case Bad(Incomplete) => r == Failure(Incomplete) && buf.data == []
            case Bad(TooLarge) => r == Failure(TooLarge) && buf.data == old(buf.data)[MaxBytes(w)..]
  {
    assert Groups([]) == 0;
    hide And, Or, Shl, Signed, Groups, Continued, Pow2, Decode;
    ghost var s := buf.data;
    ghost var i := 0;
    var value, shift := 0, 0;
    while true
      invariant 0 <= i <= |s| && buf.data == s[i..]
      invariant i <= Continued(s) && i < MaxBytes(w) && shift == 7 * i
      invariant value == Groups(s[..i])
      decreases |s| - i
    {
      ReadTurn(w, s, i);
      if buf.data == [] {
        return Failure(Incomplete);
      }
      var b := buf.GetU8();
      value := Or(value, Shl(And(b, 0x7F), shift, w.BitCount()));
      if And(b, 0x80) == 0 {
        return Success(Signed(w, value));
      }
      shift := shift + 7;
      i := i + 1;
      if shift >= 7 * MaxBytes(w) {
        return Failure(TooLarge);
      }
    }
  }

  /** `from_bytes`: decode from a slice and count what was consumed. */
  method FromBytes(w: Width, src: seq<byte>) returns (r: Decoded)
    ensures r == Decode(w, src)
  {
    var cursor := new Bytes(src);
    var value := Read(w, cursor);
    match value
    case Success(v) => r := Ok(v, |src| - |cursor.data|);
    case Failure(e) => r := Bad(e);
  }

  /** `encoded_len` of a VarInt: a chain of thresholds. */
  function EncodedLen(v: int): nat {
    LengthOf(Unsigned(W32, v))
  }

  function LengthOf(u: nat): nat {
    if u < 0x80 then 1
    else if u < 0x4000 then 2
    else if u < 0x20_0000 then 3
    else if u < 0x1000_0000 then 4
    else 5
  }

  /** `encoded_len` of a VarLong: a loop that shifts the value away. */
  method EncodedLenLong(v: int) returns (len: nat)
    requires InRange(W64, v)
    ensures len == |Encode(Unsigned(W64, v))|
  {
    Pow2Values();
    len := 0;
    var val: nat := Unsigned(W64, v);
    while true
      invariant len + |Encode(val)| == |Encode(Unsigned(W64, v))|
      decreases val
    {
      len := len + 1;
      val := Shr(val, 7);
      if val == 0 {
        break;
      }
    }
  }

  /** The second VarInt reader of the repository, which indexes a slice. */
  method ReadVarIntFromSlice(data: seq<byte>) returns (r: Option<(int, nat)>)
    ensures r == match Decode(W32, data)
                 case Ok(v, n) => Some((v, n))
                 case Bad(_) => None
  {
    assert Groups([]) == 0;
    hide And, Or, Shl, Signed, Groups, Continued, Pow2, Decode;
    var value, pos := 0, 0;
    while true
      invariant 0 <= pos <= Continued(data) && pos < 5
      invariant value == Groups(data[..pos])
      decreases |data| - pos
    {
      ReadTurn(W32, data, pos);
      if pos >= |data| {
        return None;
      }
      var b := data[pos];
      value := Or(value, Shl(And(b, 0x7F), pos * 7, 32));
      pos := pos + 1;
      if And(b, 0x80) == 0 {
        break;
      }
      if pos >= 5 {
        return None;
      }
    }
    return Some((Signed(W32, value), pos));
  }

  // ---- what the format promises ----

  lemma {:induction false} EncodeShape(u: nat, rest: seq<byte>)
    ensures Continued(Encode(u) + rest) == |Encode(u)| - 1
    ensures Groups(Encode(u)) == u
  {
    if u >= 128 {
      EncodeShape(u / 128, rest);
      EncodeTail(u, rest);
    } else {
      assert Encode(u) == [u] && [u][1..] == [];
    }
  }

  lemma EncodeTail(u: nat, rest: seq<byte>)
    requires u >= 128
    ensures Encode(u)[1..] == Encode(u / 128) && (Encode(u) + rest)[1..] == Encode(u / 128) + rest
    ensures Encode(u)[0] == 128 + u % 128 && (Encode(u) + rest)[0] == 128 + u % 128 && |Encode(u)| == 1 + |Encode(u / 128)|
  {
    var more := Encode(u / 128);
    assert Encode(u) == [128 + u % 128] + more;
    assert [128 + u % 128] + more + rest == [128 + u % 128] + (more + rest);
  }

  lemma {:induction false} EncodeLength(u: nat)
    ensures |Encode(u)| > 0 && u < Pow2(7 * |Encode(u)|)
    ensures |Encode(u)| > 1 ==> Pow2(7 * (|Encode(u)| - 1)) <= u
  {
    if u >= 128 {
      EncodeTail(u, []);
      hide Encode, Pow2;
      EncodeLength(u / 128);
      var n := |Encode(u / 128)|;
      GroupAbove(n);
      if n > 1 { GroupAbove(n - 1); }
    } else {
      Pow2Values();
      hide Pow2;
    }
  }

  lemma GroupAbove(n: nat)
    requires n > 0
    ensures Pow2(7 * n) > 0 && Pow2(7 * (n + 1)) == 128 * Pow2(7 * n) && Pow2(7 * 1) == 128
  {
    assert Pow2(7) == 128 by { Pow2Values(); }
    hide Pow2;
    Pow2Add(7, 7 * n);
  }

  /** A number below `2^(7 n)` needs at most `n` bytes. */
  lemma EncodeFits(u: nat, n: nat)
    requires n > 0 && u < Pow2(7 * n)
    ensures |Encode(u)| <= n
  {
    EncodeLength(u);
    if |Encode(u)| > n { Pow2Monotone(7 * n, 7 * (|Encode(u)| - 1)); }
  }

  lemma UnsignedFits(w: Width, v: int)
    ensures |Encode(Unsigned(w, v))| <= MaxBytes(w)
  {
    Pow2Values();
    Pow2Monotone(w.BitCount(), 7 * MaxBytes(w));
    EncodeFits(Unsigned(w, v), MaxBytes(w));
  }

  /** Reading back what was written yields the value and stops at its end. */
  lemma RoundTrip(w: Width, v: int, rest: seq<byte>)
    requires InRange(w, v)
    ensures Decode(w, Encode(Unsigned(w, v)) + rest) == Ok(v, |Encode(Unsigned(w, v))|)
  {
    var code := Encode(Unsigned(w, v));
    EncodeShape(Unsigned(w, v), rest);
    UnsignedFits(w, v);
    assert (code + rest)[..|code|] == code;
    SignedUnsigned(w, v);
  }

  /** No accepted spelling of a value is shorter than the written one. */
  lemma Shortest(w: Width, s: seq<byte>)
    requires Decode(w, s).Ok?
    ensures var Ok(v, n) := Decode(w, s);
            InRange(w, v) && |Encode(Unsigned(w, v))| <= n <= |s| && n <= MaxBytes(w)
  {
    var Ok(v, n) := Decode(w, s);
    var g := Groups(s[..n]);
    GroupsBound(s[..n]);
    SignedResidue(w, g);
    assert Unsigned(w, v) <= g by { ResidueBelow(g, w.Modulus()); }
    EncodeFits(Unsigned(w, v), n);
  }

  lemma ResidueBelow(g: nat, m: nat)
    requires m > 0
    ensures g % m <= g
  {
  }

  lemma EncodeCons(d: nat, g: nat)
    requires d < 128 && g > 0
    ensures Encode(d + 128 * g) == [128 + d] + Encode(g)
  {
    assert (d + 128 * g) / 128 == g && (d + 128 * g) % 128 == d;
  }

  /** A spelling is the shortest one just when its last byte is not idle. */
  lemma {:induction false} ShortestSpelling(t: seq<byte>)
    requires t != [] && Continued(t) == |t| - 1
    ensures t == Encode(Groups(t)) <==> |t| == 1 || t[|t| - 1] != 0
  {
    hide Encode, Groups, Continued;
    if |t| == 1 {
      LastGroup(t);
      SingleGroup(t);
    } else {
      var d, tail, g := t[0] - 128, t[1..], Groups(t[1..]);
      FirstGroup(t);
      ShortestSpelling(tail);
      if g == 0 { ZeroGroups(tail); }
      if |tail| == 1 {
        LastGroup(tail);
        SingleGroup(tail);
      }
      SpellingStep(d, tail, g);
      assert t == [128 + d] + tail && t[|t| - 1] == tail[|tail| - 1];
    }
  }

  lemma FirstGroup(t: seq<byte>)
    requires |t| > 1 && Continued(t) == |t| - 1
    ensures t[0] >= 128 && Groups(t) == t[0] - 128 + 128 * Groups(t[1..]) && Continued(t[1..]) == |t| - 2
  {
  }

  lemma LastGroup(t: seq<byte>)
    requires |t| == 1 && Continued(t) == 0
    ensures t[0] < 128
  {
  }

  lemma SpellingStep(d: nat, tail: seq<byte>, g: nat)
    requires d < 128 && tail != []
    requires tail == Encode(g) <==> |tail| == 1 || tail[|tail| - 1] != 0
    requires g == 0 ==> tail[|tail| - 1] == 0
    requires |tail| == 1 ==> g == tail[0]
    ensures [128 + d] + tail == Encode(d + 128 * g) <==> tail[|tail| - 1] != 0
  {
    if g > 0 {
      EncodeCons(d, g);
      hide Encode;
      SameTail(128 + d, tail, Encode(g));
    } else {
      assert |Encode(d)| == 1;
    }
  }

  lemma SameTail(b: byte, s: seq<byte>, t: seq<byte>)
    ensures [b] + s == [b] + t <==> s == t
  {
    assert ([b] + s)[1..] == s && ([b] + t)[1..] == t;
  }

  lemma SingleGroup(t: seq<byte>)
    requires |t| == 1 && t[0] < 128
    ensures Groups(t) == t[0] && Encode(t[0]) == t
  {
  }

  lemma {:induction false} ZeroGroups(t: seq<byte>)
    requires t != [] && Groups(t) == 0 && Continued(t) == |t| - 1
    ensures t[|t| - 1] == 0
  {
    if |t| > 1 {
      ZeroGroups(t[1..]);
      assert t[|t| - 1] == t[1..][|t| - 2];
    }
  }

  /** Exactly which accepted spellings are the written one: nothing lost above the word, no idle last byte. */
  lemma CanonicalExactly(w: Width, s: seq<byte>)
    requires Decode(w, s).Ok?
    ensures var Ok(v, n) := Decode(w, s);
            n <= |s| &&
            (s[..n] == Encode(Unsigned(w, v)) <==> Groups(s[..n]) < w.Modulus() && (n == 1 || s[n - 1] != 0))
  {
    var Ok(v, n) := Decode(w, s);
    var t := s[..n];
    assert n == Continued(s) + 1 && n <= |s| && v == Signed(w, Groups(t));
    hide Decode, Encode, Groups, Continued, Signed, Unsigned;
    assert Continued(t) == n - 1 by { ContinuedOfPrefix(s, n); }
    var u := Unsigned(w, v);
    assert u == Groups(t) % w.Modulus() by { SignedResidue(w, Groups(t)); }
    assert t == Encode(Groups(t)) <==> n == 1 || s[n - 1] != 0 by { ShortestSpelling(t); }
    assert Groups(Encode(u)) == u by { EncodeShape(u, []); }
    if Groups(t) < w.Modulus() { SmallMod(Groups(t), w.Modulus()); }
    assert u < w.Modulus();
  }

  lemma {:induction false} ContinuedOfPrefix(s: seq<byte>, n: nat)
    requires n <= |s|
    ensures Continued(s[..n]) == if n <= Continued(s) then n else Continued(s)
  {
    if n > 0 && s[0] >= 128 {
      ContinuedOfPrefix(s[1..], n - 1);
      assert s[..n][1..] == s[1..][..n - 1];
    }
  }

  /** An answer is final: more input changes neither a value nor a refusal. */
  lemma DecodeStable(w: Width, s: seq<byte>, t: seq<byte>)
    requires Decode(w, s) != Bad(Incomplete)
    ensures Decode(w, s + t) == Decode(w, s)
  {
    ContinuedOfPrefix(s + t, |s|);
    assert (s + t)[..|s|] == s;
    var n := Continued(s);
    if n < |s| { assert (s + t)[..n + 1] == s[..n + 1]; }
  }

  /** Every part of an accepted spelling that stops short is recognised as incomplete. */
  lemma DecodePrefix(w: Width, s: seq<byte>, m: nat)
    requires Decode(w, s).Ok? && m < Decode(w, s).used
    ensures m <= |s| && Decode(w, s[..m]) == Bad(Incomplete)
  {
    ContinuedOfPrefix(s, m);
  }

  /** No written value is the beginning of another one. */
  lemma PrefixFree(u: nat, v: nat, rest: seq<byte>)
    requires Encode(u) + rest == Encode(v)
    ensures u == v && rest == []
  {
    EncodeShape(u, rest);
    EncodeShape(v, []);
    assert Encode(v) + [] == Encode(v);
    EncodeShape(u, []);
    assert Encode(u) + [] == Encode(u);
  }

  /** The thresholds of `encoded_len` count the bytes that are written. */
  lemma EncodedLenIsLength(v: int)
    ensures EncodedLen(v) == |Encode(Unsigned(W32, v))|
  {
    var u := Unsigned(W32, v);
    assert u >= 128 ==> |Encode(u)| == 1 + |Encode(u / 128)|;
    assert u / 128 >= 128 ==> |Encode(u / 128)| == 1 + |Encode(u / 128 / 128)|;
    assert u / 128 / 128 >= 128 ==> |Encode(u / 128 / 128)| == 1 + |Encode(u / 128 / 128 / 128)|;
    assert |Encode(u / 128 / 128 / 128)| == if u < 0x1000_0000 then 1 else 2;
  }

  // ---- arithmetic of the groups ----

  lemma TopBit(b: byte)
    ensures And(b, 0x80) == if b < 128 then 0 else 128
  {
    var b1 := b / 2;
    var b2 := b1 / 2;
    var b3 := b2 / 2;
    var b4 := b3 / 2;
    var b5 := b4 / 2;
    var b6 := b5 / 2;
    assert b6 / 2 == if b < 128 then 0 else 1;
    AndOne(b6 / 2);
    hide And;
    AndEven(b6, 1);
    AndEven(b5, 2);
    AndEven(b4, 4);
    AndEven(b3, 8);
    AndEven(b2, 16);
    AndEven(b1, 32);
    AndEven(b, 64);
  }

  lemma AndOne(bit: nat)
    requires bit <= 1
    ensures And(bit, 1) == bit
  {
  }

  lemma AndEven(a: nat, m: nat)
    ensures And(a, 2 * m) == 2 * And(a / 2, m)
  {
    assert 2 * m / 2 == m && 2 * m % 2 == 0;
  }

  /** One turn of the reading loop: the new group is joined by `|` after a shift that may lose its top bits. */
  lemma JoinGroup(w: Width, s: seq<byte>, b: byte)
    requires |s| < MaxBytes(w)
    ensures Or(Groups(s), Shl(b % 128, 7 * |s|, w.BitCount())) == Groups(s + [b]) % w.Modulus()
  {
    hide Or, Shl, Groups, Pow2;
    var low, group, k := Groups(s), b % 128, 7 * |s|;
    var room := w.BitCount() - k;
    var p, m := Pow2(k), Pow2(room);
    var kept := group % m;
    assert low < p by { GroupsBound(s); }
    assert m * p == w.Modulus() == Pow2(w.BitCount()) by { Pow2Add(room, k); Pow2Values(); }
    assert Shl(group, k, w.BitCount()) == kept * p by { ShlAsProduct(group, k, w.BitCount()); }
    assert Or(low, kept * p) == low + kept * p by { OrDisjoint(low, kept, k); }
    assert Groups(s + [b]) == low + p * group by { GroupsAppend(s, b); }
    JoinedResidue(low, group, p, m);
  }

  lemma ReadStep(w: Width, s: seq<byte>, b: byte)
    requires |s| < MaxBytes(w)
    ensures And(b, 0x80) == if b < 128 then 0 else 128
    ensures var joined := Or(Groups(s), Shl(And(b, 0x7F), 7 * |s|, w.BitCount()));
            && Signed(w, joined) == Signed(w, Groups(s + [b]))
            && (|s| + 1 < MaxBytes(w) ==> joined == Groups(s + [b]))
  {
    hide Or, Shl, Groups, Signed;
    TopBit(b);
    assert And(b, 0x7F) == b % 128 by { AndMask(b, 7); Pow2Values(); }
    JoinGroup(w, s, b);
    SignedResidue(w, Groups(s + [b]));
    if |s| + 1 < MaxBytes(w) { GroupsFit(w, s + [b]); }
  }

  /** What one turn of a reading loop finds out about the whole input. */
  lemma ReadTurn(w: Width, s: seq<byte>, i: nat)
    requires i <= |s| && i <= Continued(s) && i < MaxBytes(w)
    ensures i == |s| ==> Decode(w, s) == Bad(Incomplete)
    ensures i < |s| ==>
              var joined := Or(Groups(s[..i]), Shl(And(s[i], 0x7F), 7 * i, w.BitCount()));
              && (And(s[i], 0x80) == 0 ==> Decode(w, s) == Ok(Signed(w, joined), i + 1))
              && (And(s[i], 0x80) != 0 ==> i + 1 <= Continued(s) && (i + 1 == MaxBytes(w) ==> Decode(w, s) == Bad(TooLarge)))
              && (i + 1 < MaxBytes(w) ==> joined == Groups(s[..i + 1]))
  {
    hide Or, Shl, And, Signed, Groups, Decode, Continued;
    DecodeTurn(w, s, i);
    if i < |s| {
      assert s[..i + 1] == s[..i] + [s[i]];
      ReadStep(w, s[..i], s[i]);
    }
  }

  lemma DecodeTurn(w: Width, s: seq<byte>, i: nat)
    requires i <= |s| && i <= Continued(s) && i < MaxBytes(w)
    ensures i == |s| ==> Decode(w, s) == Bad(Incomplete)
    ensures i < |s| && s[i] < 128 ==> Decode(w, s) == Ok(Signed(w, Groups(s[..i + 1])), i + 1)
    ensures i < |s| && s[i] >= 128 ==> i + 1 <= Continued(s) && (i + 1 == MaxBytes(w) ==> Decode(w, s) == Bad(TooLarge))
  {
    hide Signed, Groups, Decode, MaxBytes;
    if i < |s| && s[i] < 128 {
      StopsAt(s, i);
      DecodeStops(w, s);
    } else if i == |s| {
      DecodeEnds(w, s);
    } else if i + 1 == MaxBytes(w) {
      GoesOn(s, i);
      DecodeGoesOn(w, s);
    } else {
      GoesOn(s, i);
    }
  }

  lemma StopsAt(s: seq<byte>, i: nat)
    requires i < |s| && i <= Continued(s) && s[i] < 128
    ensures Continued(s) == i
  {
  }

  lemma GoesOn(s: seq<byte>, i: nat)
    requires i < |s| && i <= Continued(s) && s[i] >= 128
    ensures i < Continued(s)
  {
    assert Continued(s) < |s| ==> s[Continued(s)] < 128;
  }

  lemma DecodeStops(w: Width, s: seq<byte>)
    requires Continued(s) < |s| && Continued(s) < MaxBytes(w)
    ensures Decode(w, s) == Ok(Signed(w, Groups(s[..Continued(s) + 1])), Continued(s) + 1)
  {
    hide Signed, Groups, Continued, MaxBytes;
  }

  lemma DecodeEnds(w: Width, s: seq<byte>)
    requires Continued(s) == |s| && |s| < MaxBytes(w)
    ensures Decode(w, s) == Bad(Incomplete)
  {
    hide Signed, Groups, Continued, MaxBytes;
  }

  lemma DecodeGoesOn(w: Width, s: seq<byte>)
    requires Continued(s) >= MaxBytes(w)
    ensures Decode(w, s) == Bad(TooLarge)
  {
    hide Signed, Groups, Continued, MaxBytes;
  }

  lemma {:induction false} GroupsBound(s: seq<byte>)
    ensures Groups(s) < Pow2(7 * |s|)
  {
    if s != [] {
      GroupsBound(s[1..]);
      Pow2Add(7, 7 * |s| - 7);
      Pow2Values();
    }
  }

  /** Until the last byte a reader accepts, the groups still fit the word. */
  lemma GroupsFit(w: Width, s: seq<byte>)
    requires |s| < MaxBytes(w)
    ensures Groups(s) % w.Modulus() == Groups(s)
  {
    GroupsBound(s);
    Pow2Monotone(7 * |s|, w.BitCount());
    assert Pow2(w.BitCount()) == w.Modulus() by { Pow2Values(); }
    hide Groups, Pow2;
    SmallMod(Groups(s), w.Modulus());
  }

  lemma JoinedResidue(low: nat, group: nat, p: nat, m: nat)
    requires low < p && m > 0
    ensures m * p > 0
    ensures low + (group % m) * p == (low + p * group) % (m * p)
  {
    var q, r := group / m, group % m;
    Scale(1, m, p);
    Scale(r, m - 1, p);
    Scale(0, r, p);
    assert (m - 1) * p == m * p - p;
    assert p * group == m * p * q + r * p by {
      assert p * (m * q + r) == p * (m * q) + p * r by { Distribute(p, m * q, r); }
      assert p * (m * q) == m * p * q;
    }
    DivMod(low + p * group, m * p, q, low + r * p);
  }

  lemma {:induction false} GroupsAppend(s: seq<byte>, b: byte)
    ensures Groups(s + [b]) == Groups(s) + Pow2(7 * |s|) * (b % 128)
  {
    if s != [] {
      GroupsAppend(s[1..], b);
      assert (s + [b])[1..] == s[1..] + [b];
      Pow2Add(7, 7 * |s| - 7);
      Pow2Values();
      Associate(128, Pow2(7 * |s| - 7), b % 128);
    } else {
      assert (s + [b])[1..] == [];
    }
  }
}
