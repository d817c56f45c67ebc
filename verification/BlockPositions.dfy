// Block positions packed into one i64: 26 bits of x, 26 of z, 12 of y.

module BlockPositions {
  import opened Common
  import opened Bits

  /** `(x & 0x3FFFFFF) << 38 | (z & 0x3FFFFFF) << 12 | (y & 0xFFF)` on i64. */
  function Pack(x: int, y: int, z: int): int {
    Signed(W64,
      Or(Or(Shl(And(Unsigned(W64, x), 0x3FF_FFFF), 38, 64), Shl(And(Unsigned(W64, z), 0x3FF_FFFF), 12, 64)),
         And(Unsigned(W64, y), 0xFFF)))
  }

  /** `(pos >> 38) as i32` */
  function UnpackX(pos: int): int {
    Signed(W32, Shr(pos, 38))
  }

  /** `(pos << 52 >> 52) as i32` */
  function UnpackY(pos: int): int {
    Signed(W32, Shr(Signed(W64, Shl(Unsigned(W64, pos), 52, 64)), 52))
  }

  /** `((pos >> 12) & 0x3FFFFFF) as i32`: not sign-extended. */
  function UnpackZ(pos: int): int {
    Signed(W32, And(Unsigned(W64, Shr(pos, 12)), 0x3FF_FFFF))
  }

  /** The positions that fit: 26 signed bits for x and z, 12 for y. */
  predicate Fits(x: int, y: int, z: int) {
    -0x200_0000 <= x < 0x200_0000 && -0x800 <= y < 0x800 && -0x200_0000 <= z < 0x200_0000
  }

  const XZ_SIZE := 0x400_0000
  const Y_SIZE := 0x1000

  /** The packed position as a sum of its fields. */
  lemma PackAsSum(x: int, y: int, z: int)
    requires Fits(x, y, z)
    ensures Pack(x, y, z) == x * 0x40_0000_0000 + (z % XZ_SIZE) * Y_SIZE + y % Y_SIZE
  {
    hide And, Or, Shl, Pow2;
    Pow2Values();
    var ux, uz, uy := x % XZ_SIZE, z % XZ_SIZE, y % Y_SIZE;
    Masked(x, 26);
    Masked(z, 26);
    Masked(y, 12);
    var hi, mid := ux * 0x40_0000_0000, uz * Y_SIZE;
    assert Shl(ux, 38, 64) == hi by { ShlAsProduct(ux, 38, 64); SmallMod(ux, XZ_SIZE); }
    assert Shl(uz, 12, 64) == mid by { ShlAsProduct(uz, 12, 64); SmallMod(uz, Pow2(52)); }
    assert Or(hi, mid) == hi + mid by { OrDisjoint(mid, ux, 38); OrSwap(mid, hi); }
    var upper := ux * 0x400_0000 + uz;
    assert hi + mid == upper * Y_SIZE;
    assert Or(hi + mid, uy) == hi + mid + uy by { OrDisjoint(uy, upper, 12); OrSwap(uy, hi + mid); }
    SignedSum(x, mid + uy);
  }

  lemma {:induction false} OrSwap(a: nat, b: nat)
    ensures Or(a, b) == Or(b, a)
  {
    if a > 0 && b > 0 { OrSwap(a / 2, b / 2); }
  }

  /** Masking an i64 with `2^k - 1` reduces it modulo `2^k`, whatever its sign. */
  lemma Masked(v: int, k: nat)
    requires k <= 64
    ensures And(Unsigned(W64, v), Pow2(k) - 1) == v % Pow2(k)
  {
    AndMask(Unsigned(W64, v), k);
    Pow2Add(k, 64 - k);
    Pow2Values();
    var p, q := Pow2(k), Pow2(64 - k);
    hide Pow2, And;
    ModMod(v, p, q);
  }

  lemma ModMod(v: int, p: nat, q: nat)
    requires p > 0 && q > 0
    ensures p * q > 0 && (v % (p * q)) % p == v % p
  {
    Scale(1, q, p);
    var m := p * q;
    assert v == m * (v / m) + v % m;
    Associate(p, q, v / m);
    DivAddMultiple(v % m, p, q * (v / m));
  }

  lemma SignedSum(x: int, low: nat)
    requires -0x200_0000 <= x < 0x200_0000 && low < 0x40_0000_0000
    ensures Signed(W64, (x % XZ_SIZE) * 0x40_0000_0000 + low) == x * 0x40_0000_0000 + low
  {
  }

  /** Unpacking a packed position gives x and y back, and z without its sign. */
  lemma UnpackPacked(x: int, y: int, z: int)
    requires Fits(x, y, z)
    ensures UnpackX(Pack(x, y, z)) == x && UnpackY(Pack(x, y, z)) == y
    ensures UnpackZ(Pack(x, y, z)) == if z >= 0 then z else z + XZ_SIZE
  {
    hide Pack, And, Pow2, Shr, UnpackY, Unsigned;
    PackAsSum(x, y, z);
    var uz, uy, pos := z % XZ_SIZE, y % Y_SIZE, Pack(x, y, z);
    var high := x * XZ_SIZE + uz;
    assert pos == Y_SIZE * high + uy;
    Pow2Values();
    assert Shr(pos, 38) == x by { ShrIs(pos, 38, x, uz * Y_SIZE + uy); }
    assert Shr(pos, 12) == high by { ShrIs(pos, 12, high, uy); }
    assert And(Unsigned(W64, high), 0x3FF_FFFF) == uz by { Masked(high, 26); DivMod(high, XZ_SIZE, x, uz); }
    assert pos % Y_SIZE == uy by { DivMod(pos, Y_SIZE, high, uy); }
    UnpackYOf(pos, y);
  }

  lemma ShrIs(a: int, k: nat, q: int, r: nat)
    requires r < Pow2(k) && a == Pow2(k) * q + r
    ensures Shr(a, k) == q
  {
    DivMod(a, Pow2(k), q, r);
  }

  lemma SignedHigh(y: int)
    requires -0x800 <= y < 0x800
    ensures Signed(W64, (y % Y_SIZE) * 0x10_0000_0000_0000) == y * 0x10_0000_0000_0000
  {
  }

  lemma UnpackYOf(pos: int, y: int)
    requires -0x800 <= y < 0x800 && pos % Y_SIZE == y % Y_SIZE
    ensures UnpackY(pos) == y
  {
    Pow2Values();
    var u := Unsigned(W64, pos);
    assert u % Y_SIZE == pos % Y_SIZE by { ModMod(pos, Y_SIZE, Pow2(52)); }
    var uy := y % Y_SIZE;
    assert Shl(u, 52, 64) == uy * 0x10_0000_0000_0000 by { ShlAsProduct(u, 52, 64); }
    hide Shl, Pow2, Signed;
    SignedHigh(y);
    assert Shr(y * 0x10_0000_0000_0000, 52) == y by { DivMod(y * 0x10_0000_0000_0000, 0x10_0000_0000_0000, y, 0); }
  }

  /** Two positions that fit are packed alike only if they are the same. */
  lemma PackInjective(x: int, y: int, z: int, x': int, y': int, z': int)
    requires Fits(x, y, z) && Fits(x', y', z') && Pack(x, y, z) == Pack(x', y', z')
    ensures x == x' && y == y' && z == z'
  {
    hide Pack, UnpackX, UnpackY, UnpackZ;
    UnpackPacked(x, y, z);
    UnpackPacked(x', y', z');
  }

  /** Unpacking undoes packing exactly where z is not negative. */
  lemma UnpackExactly(x: int, y: int, z: int)
    requires Fits(x, y, z)
    ensures var pos := Pack(x, y, z);
            UnpackX(pos) == x && UnpackY(pos) == y && UnpackZ(pos) == z <==> z >= 0
  {
    hide Pack, UnpackX, UnpackY, UnpackZ;
    UnpackPacked(x, y, z);
  }
}
