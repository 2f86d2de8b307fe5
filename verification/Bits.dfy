/** Unsigned machine words as natural numbers: powers of two, the C `|` operator and the
    narrowing casts that nanopb relies on. */
module Bits {

  const TWO_31: int := 0x8000_0000
  const TWO_32: int := 0x1_0000_0000
  const TWO_63: int := 0x8000_0000_0000_0000
  const TWO_64: int := 0x1_0000_0000_0000_0000

  /** `x << k`, without truncation. */
  function Shl(x: int, k: nat): (r: int)
    ensures x >= 0 ==> r >= x
  {
    if k == 0 then x else 2 * Shl(x, k - 1)
  }

  lemma {:induction false} ShlAdd(x: int, y: int, k: nat)
    ensures Shl(x + y, k) == Shl(x, k) + Shl(y, k)
  {
    if k > 0 { ShlAdd(x, y, k - 1); }
  }

  lemma {:induction false} ShlShl(x: int, a: nat, b: nat)
    ensures Shl(Shl(x, a), b) == Shl(x, a + b)
  {
    if b > 0 { ShlShl(x, a, b - 1); }
  }

  lemma {:induction false} ShlMono(x: int, y: int, k: nat)
    requires x <= y
    ensures Shl(x, k) <= Shl(y, k)
    ensures x < y ==> Shl(x, k) < Shl(y, k)
  {
    if k > 0 { ShlMono(x, y, k - 1); }
  }

  lemma {:induction false} ShlGrows(x: nat, a: nat, b: nat)
    requires a <= b
    ensures Shl(x, a) <= Shl(x, b)
  {
    if a < b { ShlGrows(x, a, b - 1); }
  }

  /** The shifts by a varint group and by a byte. */
  lemma {:induction false} ShlSmall(x: int)
    ensures Shl(x, 0) == x && Shl(x, 4) == 16 * x && Shl(x, 7) == 128 * x && Shl(x, 8) == 256 * x
  {
    assert Shl(x, 1) == 2 * x;
    assert Shl(x, 2) == 4 * x;
    assert Shl(x, 3) == 8 * x;
    assert Shl(x, 5) == 2 * Shl(x, 4);
    assert Shl(x, 6) == 2 * Shl(x, 5);
  }

  lemma {:induction false} ShlWords()
    ensures Shl(1, 28) == 0x1000_0000 && Shl(1, 32) == TWO_32
    ensures Shl(1, 56) == 0x100_0000_0000_0000 && Shl(1, 63) == TWO_63 && Shl(1, 64) == TWO_64
  {
    ShlSmall(1);
    ShlSmall(0x100);
    ShlSmall(0x1_0000);
    ShlSmall(0x100_0000);
    ShlSmall(TWO_32);
    ShlSmall(0x100_0000_0000);
    ShlSmall(0x1_0000_0000_0000);
    ShlSmall(0x100_0000_0000_0000);
    ShlShl(1, 8, 8);
    ShlShl(1, 16, 8);
    ShlShl(1, 24, 4);
    ShlShl(1, 24, 8);
    ShlShl(1, 32, 8);
    ShlShl(1, 40, 8);
    ShlShl(1, 48, 8);
    ShlShl(1, 56, 7);
    ShlShl(1, 56, 8);
  }

  /** Bitwise inclusive or. */
  function BitOr(a: nat, b: nat): nat
    decreases a + b
  {
    if a == 0 then b
    else if b == 0 then a
    else 2 * BitOr(a / 2, b / 2) + (if a % 2 == 1 || b % 2 == 1 then 1 else 0)
  }

  /** Or-ing in a value shifted past every set bit of the accumulator is addition. */
  lemma {:induction false} BitOrDisjoint(a: nat, b: nat, k: nat)
    requires a < Shl(1, k)
    ensures BitOr(a, Shl(b, k)) == a + Shl(b, k)
    decreases k
  {
    if b == 0 {
      ShlAdd(0, 0, k);
    } else if k > 0 && a > 0 {
      BitOrDisjoint(a / 2, b, k - 1);
    }
  }

  lemma {:induction false} BitOrBound(a: nat, b: nat, k: nat)
    requires a < Shl(1, k) && b < Shl(1, k)
    ensures BitOr(a, b) < Shl(1, k)
    decreases k
  {
    if k > 0 && a > 0 && b > 0 { BitOrBound(a / 2, b / 2, k - 1); }
  }

  // ---------------------------------------------------------------- casts

  /** The widths of C integers that a field's data_size may name. */
  predicate IsWidth(size: nat) {
    size == 1 || size == 2 || size == 4 || size == 8
  }

  /** Number of values of an integer that is `size` bytes wide. */
  function Modulus(size: nat): (m: int)
    ensures m >= 256 && m % 2 == 0
  {
    if size == 1 then 0x100 else if size == 2 then 0x1_0000 else if size == 4 then TWO_32 else TWO_64
  }

  function U32(x: int): (u: nat)
    ensures u < TWO_32
  {
    x % 0x1_0000_0000
  }

  function U64(x: int): (u: nat)
    ensures u < TWO_64
  {
    x % 0x1_0000_0000_0000_0000
  }

  /** The C cast of `x` to the unsigned integer type of `size` bytes. */
  function Unsigned(size: nat, x: int): (u: nat)
    ensures u < Modulus(size)
  {
    if size == 1 then x % 0x100 else if size == 2 then x % 0x1_0000 else if size == 4 then U32(x) else U64(x)
  }

  /** The C cast of `x` to the signed integer type of `size` bytes (two's complement). */
  function Signed(size: nat, x: int): (n: int)
    ensures FitsSigned(size, n)
  {
    var u := Unsigned(size, x);
    if u < Modulus(size) / 2 then u else u - Modulus(size)
  }

  predicate FitsSigned(size: nat, n: int) {
    -(Modulus(size) / 2) <= n < Modulus(size) / 2
  }

  predicate FitsUnsigned(size: nat, n: int) {
    0 <= n < Modulus(size)
  }

  /** A value that fits is unchanged by the cast, directly or by way of any wider word. */
  lemma {:induction false} SignedExact(size: nat, wide: nat, n: int)
    requires IsWidth(size) && IsWidth(wide) && size <= wide && FitsSigned(size, n)
    ensures Signed(size, n) == n && Signed(size, Unsigned(wide, n)) == n
    ensures Unsigned(wide, n) == if n >= 0 then n else n + Modulus(wide)
  {
    var m, w := Modulus(size), Modulus(wide);
    var borrow := if n >= 0 then 0 else 1;
    ModUnique(n, -borrow, n + borrow * m, m);
    ModUnique(n, -borrow, n + borrow * w, w);
    var q := ModulusDivides(size, wide);
    ModUnique(n + borrow * w, borrow * (q - 1), n + borrow * m, m);
  }

  lemma {:induction false} ModulusDivides(size: nat, wide: nat) returns (q: nat)
    requires IsWidth(size) && IsWidth(wide) && size <= wide
    ensures q >= 1 && Modulus(wide) == q * Modulus(size)
  {
    q := Modulus(wide) / Modulus(size);
  }

  lemma {:induction false} MulAtLeast(d: int, m: int)
    requires d >= 1 && m > 0
    ensures d * m >= m
  {
  }

  lemma {:induction false} SmallMod(x: int, m: int)
    requires 0 <= x < m
    ensures x % m == x
  {
  }

  lemma {:induction false} ModUnique(x: int, q: int, r: int, m: int)
    requires m > 0 && 0 <= r < m && x == q * m + r
    ensures x % m == r
  {
    var q', r' := x / m, x % m;
    var d := q - q';
    assert d * m == r' - r by { assert x == q' * m + r'; assert d * m == q * m - q' * m; }
    if d > 0 {
      MulAtLeast(d, m);
    } else if d < 0 {
      MulAtLeast(-d, m);
    }
  }
}
