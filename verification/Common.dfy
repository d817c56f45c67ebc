// Shared vocabulary: bytes, options and big-endian numbers.

module Common {
  import Bits

  type byte = b: int | 0 <= b < 256

  datatype Option<+T> = None | Some(value: T)

  datatype Result<+T, +E> = Success(value: T) | Failure(error: E)

  /** The number written by `s` in base 256, most significant byte first. */
  function BigEndian(s: seq<byte>): nat {
    if s == [] then 0 else 256 * BigEndian(s[..|s| - 1]) + s[|s| - 1]
  }

  /** The low `n` base-256 digits of `v`, most significant first. */
  function ToBigEndian(v: nat, n: nat): (s: seq<byte>)
    ensures |s| == n
  {
    if n == 0 then [] else ToBigEndian(v / 256, n - 1) + [v % 256]
  }

  lemma {:induction false} BigEndianOfDigits(v: nat, n: nat)
    requires v < Pow256(n)
    ensures BigEndian(ToBigEndian(v, n)) == v
  {
    if n > 0 {
      BigEndianOfDigits(v / 256, n - 1);
      var s := ToBigEndian(v, n);
      assert s[..n - 1] == ToBigEndian(v / 256, n - 1);
    }
  }

  lemma {:induction false} DigitsOfBigEndian(s: seq<byte>)
    ensures BigEndian(s) < Pow256(|s|)
    ensures ToBigEndian(BigEndian(s), |s|) == s
  {
    if s != [] {
      DigitsOfBigEndian(s[..|s| - 1]);
      assert s == s[..|s| - 1] + [s[|s| - 1]];
    }
  }

  function Pow256(n: nat): nat {
    if n == 0 then 1 else 256 * Pow256(n - 1)
  }

  lemma Pow256Values()
    ensures Pow256(1) == 0x100 && Pow256(2) == 0x1_0000 && Pow256(4) == 0x1_0000_0000
    ensures Pow256(8) == 0x1_0000_0000_0000_0000
    ensures Pow256(16) == 0x1_0000_0000_0000_0000_0000_0000_0000_0000
  {
  }

  /** Two's complement in `n` bytes, most significant first. */
  function SignedBytes(v: int, n: nat): (s: seq<byte>)
    ensures |s| == n
  {
    Pow256Positive(n);
    ToBigEndian(v % Pow256(n), n)
  }

  function FromSigned(s: seq<byte>): int {
    var u := BigEndian(s);
    if 2 * u < Pow256(|s|) then u else u - Pow256(|s|)
  }

  predicate FitsBytes(v: int, n: nat) {
    0 - Pow256(n) <= 2 * v < Pow256(n)
  }

  lemma {:induction false} Pow256Positive(n: nat)
    ensures Pow256(n) > 0
  {
    if n > 0 { Pow256Positive(n - 1); }
  }

  lemma SignedBytesBack(v: int, n: nat)
    requires FitsBytes(v, n)
    ensures FromSigned(SignedBytes(v, n)) == v
  {
    Pow256Positive(n);
    BigEndianOfDigits(v % Pow256(n), n);
    hide Pow256, BigEndian;
    if v >= 0 { ModSmall(v, Pow256(n)); } else { ModSmall(v + Pow256(n), Pow256(n)); }
  }

  lemma ModSmall(v: int, m: nat)
    requires 0 <= v < m
    ensures v % m == v && (v - m) % m == v
  {
    Bits.DivMod(v, m, 0, v);
    Bits.DivMod(v - m, m, -1, v);
  }

  lemma FromSignedBack(s: seq<byte>)
    ensures FitsBytes(FromSigned(s), |s|) && SignedBytes(FromSigned(s), |s|) == s
  {
    Pow256Positive(|s|);
    DigitsOfBigEndian(s);
    hide Pow256, BigEndian, ToBigEndian;
    ModSmall(BigEndian(s), Pow256(|s|));
  }

  /** A machine integer: 32 or 64 bits. */
  datatype Width = W32 | W64 {
    function BitCount(): nat { if W32? then 32 else 64 }
    function Modulus(): nat { if W32? then 0x1_0000_0000 else 0x1_0000_0000_0000_0000 }
  }

  const I32_MIN := -0x8000_0000
  const I32_MAX := 0x7FFF_FFFF

  /** Rust's `as i32` / `as i64` of an unsigned number: keep the low bits and read them as two's complement. */
  function Signed(w: Width, u: int): int {
    var m := u % w.Modulus();
    if m < w.Modulus() / 2 then m else m - w.Modulus()
  }

  /** Rust's `as u32` / `as u64`. */
  function Unsigned(w: Width, v: int): nat {
    v % w.Modulus()
  }

  predicate InRange(w: Width, v: int) {
    0 - w.Modulus() <= 2 * v < w.Modulus()
  }

  lemma SignedUnsigned(w: Width, v: int)
    requires InRange(w, v)
    ensures Signed(w, Unsigned(w, v)) == v
  {
    if v < 0 { assert v % w.Modulus() == v + w.Modulus(); }
  }

  lemma SignedResidue(w: Width, u: int)
    ensures Signed(w, u % w.Modulus()) == Signed(w, u)
    ensures Unsigned(w, Signed(w, u)) == u % w.Modulus()
    ensures InRange(w, Signed(w, u))
  {
    var m := u % w.Modulus();
    assert m % w.Modulus() == m;
    if m >= w.Modulus() / 2 { assert (m - w.Modulus()) % w.Modulus() == m; }
  }

  /** No slice is longer than `isize::MAX` bytes. */
  const MAX_SLICE := 0x7FFF_FFFF_FFFF_FFFF

  /** Rust's `as usize` on a 64-bit target. */
  function AsUsize(v: int): nat {
    v % 0x1_0000_0000_0000_0000
  }

  // ---- sequences ----

  predicate Distinct<T(==)>(s: seq<T>) {
    forall i, j :: 0 <= i < j < |s| ==> s[i] != s[j]
  }

  /** Slicing a beginning is slicing the whole. */
  lemma SliceOfPrefix<T>(s: seq<T>, n: nat, a: nat, b: nat)
    requires a <= b <= n <= |s|
    ensures s[..n][a..b] == s[a..b]
  {
    forall i | 0 <= i < b - a
      ensures s[..n][a..b][i] == s[a..b][i]
    {
    }
  }

  /** So is dropping first and then taking. */
  lemma SliceOfSuffix<T>(s: seq<T>, a: nat, b: nat)
    requires a <= b <= |s|
    ensures s[a..][..b - a] == s[a..b]
  {
    forall i | 0 <= i < b - a
      ensures s[a..][..b - a][i] == s[a..b][i]
    {
    }
  }

  lemma DropTwice<T>(s: seq<T>, a: nat, b: nat)
    requires a + b <= |s|
    ensures s[a..][b..] == s[a + b..]
  {
    forall i | 0 <= i < |s| - a - b
      ensures s[a..][b..][i] == s[a + b..][i]
    {
    }
  }
}
