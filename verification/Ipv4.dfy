/** IPv4 addresses as numbers and networks as prefixes. */
module Ipv4 {
  type Addr = a: int | 0 <= a < 0x1_0000_0000

  function Pow2(n: nat): (p: nat)
    ensures p > 0
  {
    if n == 0 then 1 else 2 * Pow2(n - 1)
  }

  datatype Cidr = Cidr(base: Addr, len: nat) {
    /** Two addresses are in one /len network when they agree above the host bits. */
    predicate Contains(a: Addr) {
      len <= 32 && a / Pow2(32 - len) == base / Pow2(32 - len)
    }
  }

  function Quad(a: nat, b: nat, c: nat, d: nat): Addr
    requires a < 256 && b < 256 && c < 256 && d < 256
  {
    a * 0x100_0000 + b * 0x1_0000 + c * 0x100 + d
  }

  // Section 3 of RFC 1918 and section 7 of RFC 6598.
  const NET10: Cidr := Cidr(Quad(10, 0, 0, 0), 8)
  const NET172: Cidr := Cidr(Quad(172, 16, 0, 0), 12)
  const NET192: Cidr := Cidr(Quad(192, 168, 0, 0), 16)
  const NET100: Cidr := Cidr(Quad(100, 64, 0, 0), 10)

  predicate InRfc1918(a: Addr) { NET10.Contains(a) || NET172.Contains(a) || NET192.Contains(a) }

  predicate InCgnat(a: Addr) { NET100.Contains(a) }

  type Byte = b: nat | b < 256

  /** Four bytes in network order. */
  datatype Bytes = Bytes(b0: Byte, b1: Byte, b2: Byte, b3: Byte)

  // Bitwise operations on non-negative numbers.

  function BitAnd(a: nat, b: nat): nat {
    if a == 0 || b == 0 then 0 else 2 * BitAnd(a / 2, b / 2) + (if a % 2 == 1 && b % 2 == 1 then 1 else 0)
  }

  function BitOr(a: nat, b: nat): nat
    decreases a + b
  {
    if a == 0 && b == 0 then 0 else 2 * BitOr(a / 2, b / 2) + (if a % 2 == 1 || b % 2 == 1 then 1 else 0)
  }

  function ShiftLeft(a: nat, n: nat): nat { a * Pow2(n) }

  lemma QuotientNonNegative(a: nat, m: nat)
    requires m > 0
    ensures a / m >= 0
  {
  }

  function ShiftRight(a: nat, n: nat): nat {
    QuotientNonNegative(a, Pow2(n));
    a / Pow2(n)
  }

  lemma {:induction false} OrZero(a: nat)
    ensures BitOr(a, 0) == a
  {
    if a > 0 { OrZero(a / 2); }
  }

  lemma HalfOfEven(a: nat, m: nat)
    ensures (a * (2 * m)) / 2 == a * m && (a * (2 * m)) % 2 == 0
  {
    assert a * (2 * m) == 2 * (a * m);
  }

  /** Numbers without a common bit: or is addition. */
  lemma {:induction false} OrDisjoint(a: nat, n: nat, low: nat)
    requires low < Pow2(n)
    ensures BitOr(ShiftLeft(a, n), low) == ShiftLeft(a, n) + low
  {
    if n == 0 {
      OrZero(a);
    } else {
      HalfOfEven(a, Pow2(n - 1));
      OrDisjoint(a, n - 1, low / 2);
    }
  }

  /** Four bytes as one 32-bit number, by shifting and or-ing. */
  function ToUint32(b: Bytes): nat {
    BitOr(BitOr(BitOr(ShiftLeft(b.b0, 24), ShiftLeft(b.b1, 16)), ShiftLeft(b.b2, 8)), b.b3)
  }

  /** A 32-bit number as four bytes: shift right, keep the low byte. */
  function FromUint32(n: Addr): Bytes {
    Bytes(ShiftRight(n, 24) % 256, ShiftRight(n, 16) % 256, ShiftRight(n, 8) % 256, n % 256)
  }

  lemma Pow2Values()
    ensures Pow2(0) == 1 && Pow2(8) == 0x100 && Pow2(16) == 0x1_0000 && Pow2(20) == 0x10_0000
    ensures Pow2(22) == 0x40_0000 && Pow2(24) == 0x100_0000 && Pow2(32) == 0x1_0000_0000
  {
  }

  lemma ToUint32IsQuad(b: Bytes)
    ensures ToUint32(b) == Quad(b.b0, b.b1, b.b2, b.b3)
  {
    Pow2Values();
    OrDisjoint(b.b0, 24, ShiftLeft(b.b1, 16));
    var hi := b.b0 * 256 + b.b1;
    assert ShiftLeft(b.b0, 24) + ShiftLeft(b.b1, 16) == ShiftLeft(hi, 16);
    OrDisjoint(hi, 16, ShiftLeft(b.b2, 8));
    var top := hi * 256 + b.b2;
    assert ShiftLeft(hi, 16) + ShiftLeft(b.b2, 8) == ShiftLeft(top, 8);
    OrDisjoint(top, 8, b.b3);
  }

  lemma FromUint32IsDigits(n: Addr)
    ensures FromUint32(n) == Bytes(n / 0x100_0000, n / 0x1_0000 % 256, n / 0x100 % 256, n % 256)
  {
    Pow2Values();
    assert n / 0x100_0000 < 256;
  }

  /** The two conversions are inverse to each other. */
  lemma Uint32RoundTrip(b: Bytes, n: Addr)
    ensures 0 <= ToUint32(b) < 0x1_0000_0000 && FromUint32(ToUint32(b)) == b
    ensures ToUint32(FromUint32(n)) == n
  {
    ToUint32IsQuad(b);
    QuadDigits(b.b0, b.b1, b.b2, b.b3);
    FromUint32IsDigits(Quad(b.b0, b.b1, b.b2, b.b3));
    ToUint32IsQuad(FromUint32(n));
    FromUint32IsDigits(n);
    DigitsQuad(n);
  }

  lemma QuadDigits(x: nat, y: nat, z: nat, w: nat)
    requires x < 256 && y < 256 && z < 256 && w < 256
    ensures var a := Quad(x, y, z, w);
      a / 0x100_0000 == x && a / 0x1_0000 % 256 == y && a / 0x100 % 256 == z && a % 256 == w
  {
    var a := Quad(x, y, z, w);
    assert a / 0x1_0000 == x * 256 + y;
    assert a / 0x100 == (x * 256 + y) * 256 + z;
  }

  lemma DigitsQuad(a: Addr)
    ensures Quad(a / 0x100_0000, a / 0x1_0000 % 256, a / 0x100 % 256, a % 256) == a
  {
    var x, y, z, w := a / 0x100_0000, a / 0x1_0000 % 256, a / 0x100 % 256, a % 256;
    assert a / 0x1_0000 == x * 256 + y;
    assert a / 0x100 == (x * 256 + y) * 256 + z;
    assert a == ((x * 256 + y) * 256 + z) * 256 + w;
  }

  lemma {:induction false} Pow2Add(m: nat, n: nat)
    ensures Pow2(m + n) == Pow2(m) * Pow2(n)
  {
    if m > 0 { Pow2Add(m - 1, n); }
  }

  // ---------------------------------------------------------------- masks

  lemma SmallMultiple(k: int, m: int)
    requires 0 < m && -m < k * m < m
    ensures k == 0
  {
  }

  lemma QuotientUnique(x: nat, q: nat, r: nat, m: nat)
    requires 0 < m && x == q * m + r && r < m
    ensures x % m == r && x / m == q
  {
    var q', r' := x / m, x % m;
    assert x == q' * m + r';
    assert (q - q') * m == q * m - q' * m == r' - r;
    SmallMultiple(q - q', m);
  }

  lemma HalfMod(x: nat, m: nat)
    requires m > 0
    ensures x % (2 * m) == 2 * (x / 2 % m) + x % 2
  {
    var q, r := x / 2 / m, x / 2 % m;
    assert x / 2 == q * m + r;
    assert x == q * (2 * m) + (2 * r + x % 2);
    QuotientUnique(x, q, 2 * r + x % 2, 2 * m);
  }

  lemma {:induction false} AndAll(x: nat, w: nat)
    requires x < Pow2(w)
    ensures BitAnd(x, Pow2(w) - 1) == x
  {
    if x > 0 { AndAll(x / 2, w - 1); }
  }

  lemma {:induction false} Pow2Grows(n: nat, w: nat)
    requires n <= w
    ensures Pow2(n) <= Pow2(w)
  {
    if n < w { Pow2Grows(n, w - 1); }
  }

  lemma AndEven(x: nat, m: nat)
    ensures BitAnd(x, 2 * m) == 2 * BitAnd(x / 2, m)
  {
    assert (2 * m) / 2 == m && (2 * m) % 2 == 0;
  }

  lemma OrOdd(x: nat, m: nat)
    ensures BitOr(x, 2 * m + 1) == 2 * BitOr(x / 2, m) + 1
  {
    assert (2 * m + 1) / 2 == m && (2 * m + 1) % 2 == 1;
  }

  lemma RoundedHalf(x: nat, m: nat)
    requires m > 0
    ensures 2 * (x / 2 - x / 2 % m) == x - x % (2 * m)
  {
    HalfMod(x, m);
  }

  /** Clears the `n` lowest bits. */
  function Cleared(x: nat, n: nat): nat { if n == 0 then x else 2 * Cleared(x / 2, n - 1) }

  lemma {:induction false} ClearedRounds(x: nat, n: nat)
    ensures Cleared(x, n) == x - x % Pow2(n)
    decreases n
  {
    if n > 0 {
      ClearedRounds(x / 2, n - 1);
      RoundedHalf(x, Pow2(n - 1));
    }
  }

  lemma {:induction false} AndClears(x: nat, w: nat, n: nat)
    requires x < Pow2(w) && n <= w
    ensures Pow2(w) - Pow2(n) >= 0
    ensures BitAnd(x, Pow2(w) - Pow2(n)) == Cleared(x, n)
    decreases n
  {
    Pow2Grows(n, w);
    if n == 0 {
      AndAll(x, w);
    } else {
      var big, small := Pow2(w - 1), Pow2(n - 1);
      AndClears(x / 2, w - 1, n - 1);
      AndEven(x, big - small);
      assert Pow2(w) - Pow2(n) == 2 * (big - small);
    }
  }

  lemma {:induction false} OrFills(x: nat, n: nat)
    ensures BitOr(x, Pow2(n) - 1) == Cleared(x, n) + Pow2(n) - 1
    decreases n
  {
    if n == 0 {
      OrZero(x);
    } else {
      var low := Pow2(n - 1) - 1;
      OrFills(x / 2, n - 1);
      OrOdd(x, low);
      assert Pow2(n) - 1 == 2 * low + 1;
    }
  }

  /** And with a mask of high ones rounds down. */
  lemma AndMask(x: nat, w: nat, n: nat)
    requires x < Pow2(w) && n <= w
    ensures Pow2(w) - Pow2(n) >= 0
    ensures BitAnd(x, Pow2(w) - Pow2(n)) == x - x % Pow2(n)
  {
    AndClears(x, w, n);
    ClearedRounds(x, n);
  }

  /** Or with low ones rounds down and then fills up. */
  lemma OrMask(x: nat, n: nat)
    ensures BitOr(x, Pow2(n) - 1) == x - x % Pow2(n) + Pow2(n) - 1
  {
    OrFills(x, n);
    ClearedRounds(x, n);
  }

  lemma {:induction false} OrBound(a: nat, b: nat, w: nat)
    requires a < Pow2(w) && b < Pow2(w)
    ensures BitOr(a, b) < Pow2(w)
    decreases w
  {
    if a + b > 0 { OrBound(a / 2, b / 2, w - 1); }
  }
}
