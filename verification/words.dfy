/** Unsigned 64-bit words as bounded naturals, with the C operators the ESIL
    interpreter applies to them (`ut64` arithmetic wraps modulo 2^64) and the
    bit-level facts the flag helpers rely on. */
module Words {

  const WORD: nat := 0x1_0000_0000_0000_0000

  /** A C `ut64`. */
  type U64 = x: nat | x < 0x1_0000_0000_0000_0000

  /** A C `ut8`. */
  type Byte = x: nat | x < 256

  function Pow2(n: nat): (r: nat)
    ensures r >= 1
  {
    if n == 0 then 1 else 2 * Pow2(n - 1)
  }

  lemma {:induction false} Pow2Add(a: nat, b: nat)
    ensures Pow2(a + b) == Pow2(a) * Pow2(b)
  {
    if a > 0 {
      Pow2Add(a - 1, b);
    }
  }

  lemma {:induction false} Pow2Mono(a: nat, b: nat)
    requires a <= b
    ensures Pow2(a) <= Pow2(b)
  {
    if a < b {
      Pow2Mono(a, b - 1);
    }
  }

  lemma Pow2Of8()
    ensures Pow2(8) == 256
  {
    assert Pow2(4) == 16;
    Pow2Add(4, 4);
  }

  lemma Pow2Of16()
    ensures Pow2(16) == 0x1_0000
  {
    Pow2Of8();
    Pow2Add(8, 8);
  }

  lemma Pow2Of32()
    ensures Pow2(32) == 0x1_0000_0000 && Pow2(31) == 0x8000_0000
  {
    Pow2Of16();
    Pow2Add(16, 16);
  }

  lemma Pow2Of64()
    ensures Pow2(64) == WORD && Pow2(63) == 0x8000_0000_0000_0000
  {
    Pow2Of32();
    Pow2Add(32, 32);
  }

  lemma Pow2Values()
    ensures Pow2(8) == 256 && Pow2(16) == 0x1_0000
    ensures Pow2(31) == 0x8000_0000 && Pow2(32) == 0x1_0000_0000
    ensures Pow2(63) == 0x8000_0000_0000_0000 && Pow2(64) == WORD
  {
    Pow2Of8();
    Pow2Of16();
    Pow2Of32();
    Pow2Of64();
  }

  lemma WordIsPow2()
    ensures Pow2(64) == WORD
  {
    Pow2Of64();
  }

  /** Every power below 2^64 fits in a word. */
  lemma Pow2BelowWord(i: nat)
    requires i < 64
    ensures Pow2(i) < WORD
  {
    Pow2Of64();
    Pow2Mono(i, 63);
  }

  /** `x < Pow2(n)` for every n from 64 on. */
  lemma BelowWord(x: U64, n: nat)
    requires n >= 64
    ensures x < Pow2(n)
  {
    Pow2Values();
    Pow2Mono(64, n);
  }

  // ---------------------------------------------------------------------------
  // Division facts (Dafny's / and % on naturals are the C ones)

  lemma ModUnique(x: int, m: int, q: int, r: int)
    requires m > 0 && 0 <= r < m && x == m * q + r
    ensures x % m == r && x / m == q
  {
    var q0 := x / m;
    var r0 := x % m;
    assert x == m * q0 + r0;
    if q0 > q {
      MulMono(m, q + 1, q0);
      assert false;
    } else if q0 < q {
      MulMono(m, q0 + 1, q);
      assert false;
    }
  }

  lemma MulMono(m: int, a: int, b: int)
    requires m >= 0 && a <= b
    ensures m * a <= m * b
  {}

  /** Splitting off the lowest bit of a remainder by an even modulus. */
  lemma DivMod2(x: nat, p: nat)
    requires p >= 1
    ensures x % (2 * p) == x % 2 + 2 * ((x / 2) % p)
    ensures x / (2 * p) == (x / 2) / p
  {
    var q := x / 2;
    var r := x % 2;
    var q2 := q / p;
    var r2 := q % p;
    assert q == p * q2 + r2;
    assert x == (2 * p) * q2 + (2 * r2 + r);
    ModUnique(x, 2 * p, q2, 2 * r2 + r);
  }

  /** Reducing modulo a multiple of `p` first does not change the remainder by `p`. */
  lemma ModMod(x: nat, p: nat, k: nat)
    requires p >= 1 && k >= 1
    ensures (x % (p * k)) % p == x % p
  {
    var q := x / (p * k);
    var r := x % (p * k);
    assert x == (p * k) * q + r;
    var r1 := r % p;
    var q1 := r / p;
    assert r == p * q1 + r1;
    assert x == p * (k * q + q1) + r1;
    ModUnique(x, p, k * q + q1, r1);
  }

  lemma IntModMod(x: int, p: nat, k: nat)
    requires p >= 1 && k >= 1
    ensures (x % (p * k)) % p == x % p
  {
    var q := x / (p * k);
    var r := x % (p * k);
    assert x == (p * k) * q + r;
    var r1 := r % p;
    var q1 := r / p;
    assert r == p * q1 + r1;
    assert x == p * (k * q + q1) + r1;
    ModUnique(x, p, k * q + q1, r1);
  }

  /** The remainder of a sum, from the remainders of its terms. */
  lemma ModOfSum(a: nat, b: nat, p: nat)
    requires p >= 1
    ensures a % p + b % p < p ==> (a + b) % p == a % p + b % p
    ensures a % p + b % p >= p ==> (a + b) % p == a % p + b % p - p
  {
    var qa := a / p;
    var qb := b / p;
    var a1 := a % p;
    var b1 := b % p;
    assert a == p * qa + a1;
    assert b == p * qb + b1;
    assert a + b == p * (qa + qb) + (a1 + b1);
    if a1 + b1 < p {
      ModUnique(a + b, p, qa + qb, a1 + b1);
    } else {
      assert a + b == p * (qa + qb + 1) + (a1 + b1 - p);
      ModUnique(a + b, p, qa + qb + 1, a1 + b1 - p);
    }
  }

  /** The remainder of a difference, from the remainders of its terms. */
  lemma ModOfDiff(a: nat, b: nat, p: nat)
    requires p >= 1
    ensures a % p >= b % p ==> (a - b) % p == a % p - b % p
    ensures a % p < b % p ==> (a - b) % p == a % p - b % p + p
  {
    var qa := a / p;
    var qb := b / p;
    var a1 := a % p;
    var b1 := b % p;
    assert a == p * qa + a1;
    assert b == p * qb + b1;
    assert a - b == p * (qa - qb) + (a1 - b1);
    if a1 >= b1 {
      ModUnique(a - b, p, qa - qb, a1 - b1);
    } else {
      assert a - b == p * (qa - qb - 1) + (a1 - b1 + p);
      ModUnique(a - b, p, qa - qb - 1, a1 - b1 + p);
    }
  }

  /** Reducing modulo 2^64 first does not change the low k bits. */
  lemma LowBitsOfWrapped(x: int, k: nat)
    requires k <= 64
    ensures (x % WORD) % Pow2(k) == x % Pow2(k)
  {
    WordIsPow2();
    Pow2Add(k, 64 - k);
    IntModMod(x, Pow2(k), Pow2(64 - k));
  }

  lemma ModPow2Wide(x: nat, k: nat, n: nat)
    requires k <= n
    ensures (x % Pow2(n)) % Pow2(k) == x % Pow2(k)
  {
    Pow2Add(k, n - k);
    ModMod(x, Pow2(k), Pow2(n - k));
  }

  // ---------------------------------------------------------------------------
  // The arithmetic operators of C on ut64

  function Add(a: U64, b: U64): U64 { (a + b) % WORD }
  function Sub(a: U64, b: U64): U64 { (a - b) % WORD }
  function Mul(a: U64, b: U64): U64 { (a * b) % WORD }
  function Div(a: U64, b: U64): U64 requires b != 0 { a / b }
  function Mod(a: U64, b: U64): U64 requires b != 0 { a % b }

  /** `a << n`; C leaves shifts by 64 or more undefined. */
  function Shl(a: U64, n: nat): U64
    requires n < 64
  {
    (a * Pow2(n)) % WORD
  }

  /** `a >> n`, one halving per position; C leaves shifts by 64 or more
      undefined. */
  function Shr(a: U64, n: nat): U64
    requires n < 64
  {
    if n == 0 then a else Shr(a / 2, n - 1)
  }

  lemma {:induction false} ShrIsDiv(a: U64, n: nat)
    requires n < 64
    ensures Shr(a, n) == a / Pow2(n)
  {
    if n > 0 {
      ShrIsDiv(a / 2, n - 1);
      DivMod2(a, Pow2(n - 1));
    }
  }

  /** A wrapped difference is zero exactly for equal operands. */
  lemma SubZeroIff(a: U64, b: U64)
    ensures Sub(a, b) == 0 <==> a == b
  {
    if a < b {
      ModUnique(a - b, WORD, -1, a - b + WORD);
    } else {
      ModUnique(a - b, WORD, 0, a - b);
    }
  }

  /** C's logical negation `!a`. */
  function LogicalNot(a: U64): U64 { if a == 0 then 1 else 0 }

  /** The `int` a `ut64` converts to: its low 32 bits read as two's complement. */
  function ToInt32(v: U64): (r: int)
    ensures -0x8000_0000 <= r < 0x8000_0000
    ensures (r - v) % 0x1_0000_0000 == 0
  {
    var low := v % 0x1_0000_0000;
    if low >= 0x8000_0000 then low - 0x1_0000_0000 else low
  }

  /** A C `ut32`. */
  type U32 = x: nat | x < 0x1_0000_0000

  /** The `ut32` a `ut64` converts to: the value modulo 2^32. */
  function ToUint32(v: U64): (r: U32)
    ensures (v - r) % 0x1_0000_0000 == 0
    ensures v < 0x1_0000_0000 ==> r == v
  {
    v % 0x1_0000_0000
  }

  // ---------------------------------------------------------------------------
  // Bitwise operators, defined one bit at a time over the low n bits

  /** Bit i of x. */
  function Bit(x: nat, i: nat): nat
  {
    (x / Pow2(i)) % 2
  }

  function AndN(a: nat, b: nat, n: nat): (r: nat)
    ensures r < Pow2(n)
  {
    if n == 0 then 0
    else (if a % 2 == 1 && b % 2 == 1 then 1 else 0) + 2 * AndN(a / 2, b / 2, n - 1)
  }

  function OrN(a: nat, b: nat, n: nat): (r: nat)
    ensures r < Pow2(n)
  {
    if n == 0 then 0
    else (if a % 2 == 1 || b % 2 == 1 then 1 else 0) + 2 * OrN(a / 2, b / 2, n - 1)
  }

  function XorN(a: nat, b: nat, n: nat): (r: nat)
    ensures r < Pow2(n)
  {
    if n == 0 then 0
    else (if a % 2 != b % 2 then 1 else 0) + 2 * XorN(a / 2, b / 2, n - 1)
  }

  function And(a: U64, b: U64): U64 { WordIsPow2(); AndN(a, b, 64) }
  function Or(a: U64, b: U64): U64 { WordIsPow2(); OrN(a, b, 64) }
  function Xor(a: U64, b: U64): U64 { WordIsPow2(); XorN(a, b, 64) }

  /** Bit i + 1 of x is bit i of x / 2. */
  lemma BitHalf(x: nat, i: nat)
    ensures Bit(x, i + 1) == Bit(x / 2, i)
  {
    DivMod2(x, Pow2(i));
  }

  lemma {:induction false} BitOfAnd(a: nat, b: nat, n: nat, i: nat)
    requires i < n
    ensures Bit(AndN(a, b, n), i) == if Bit(a, i) == 1 && Bit(b, i) == 1 then 1 else 0
  {
    if i > 0 {
      var r := AndN(a, b, n);
      assert r / 2 == AndN(a / 2, b / 2, n - 1);
      BitHalf(r, i - 1);
      BitHalf(a, i - 1);
      BitHalf(b, i - 1);
      BitOfAnd(a / 2, b / 2, n - 1, i - 1);
    }
  }

  lemma {:induction false} BitOfOr(a: nat, b: nat, n: nat, i: nat)
    requires i < n
    ensures Bit(OrN(a, b, n), i) == if Bit(a, i) == 1 || Bit(b, i) == 1 then 1 else 0
  {
    if i > 0 {
      var r := OrN(a, b, n);
      assert r / 2 == OrN(a / 2, b / 2, n - 1);
      BitHalf(r, i - 1);
      BitHalf(a, i - 1);
      BitHalf(b, i - 1);
      BitOfOr(a / 2, b / 2, n - 1, i - 1);
    }
  }

  lemma {:induction false} BitOfXor(a: nat, b: nat, n: nat, i: nat)
    requires i < n
    ensures Bit(XorN(a, b, n), i) == if Bit(a, i) != Bit(b, i) then 1 else 0
  {
    if i > 0 {
      var r := XorN(a, b, n);
      assert r / 2 == XorN(a / 2, b / 2, n - 1);
      BitHalf(r, i - 1);
      BitHalf(a, i - 1);
      BitHalf(b, i - 1);
      BitOfXor(a / 2, b / 2, n - 1, i - 1);
    }
  }

  lemma {:induction false} AndZero(x: nat, n: nat)
    ensures AndN(x, 0, n) == 0
  {
    if n > 0 {
      AndZero(x / 2, n - 1);
    }
  }

  /** Masking with k low ones keeps the remainder modulo 2^k. */
  lemma {:induction false} AndLowMask(x: nat, k: nat, n: nat)
    requires k <= n
    ensures AndN(x, Pow2(k) - 1, n) == x % Pow2(k)
    decreases n, 1
  {
    if n == 0 {
    } else if k == 0 {
      AndZero(x, n);
    } else {
      AndLowMaskStep(x, k, n);
    }
  }

  lemma {:induction false} AndLowMaskStep(x: nat, k: nat, n: nat)
    requires 0 < k <= n
    ensures AndN(x, Pow2(k) - 1, n) == x % Pow2(k)
    decreases n, 0
  {
    var p := Pow2(k - 1);
    LowMaskStep(x, k, n);
    AndLowMask(x / 2, k - 1, n - 1);
    LowMaskJoin(AndN(x, Pow2(k) - 1, n), AndN(x / 2, p - 1, n - 1), x, p, Pow2(k));
  }

  lemma LowMaskJoin(r: nat, r1: nat, x: nat, p: nat, q: nat)
    requires p >= 1 && q == 2 * p
    requires r == x % 2 + 2 * r1 && r1 == (x / 2) % p
    ensures r == x % q
  {
    DivMod2(x, p);
  }

  lemma LowMaskStep(x: nat, k: nat, n: nat)
    requires 0 < k <= n
    ensures AndN(x, Pow2(k) - 1, n) == x % 2 + 2 * AndN(x / 2, Pow2(k - 1) - 1, n - 1)
    ensures Pow2(k) == 2 * Pow2(k - 1)
  {
    var m := Pow2(k) - 1;
    assert m % 2 == 1 && m / 2 == Pow2(k - 1) - 1;
  }

  /** Masking with the bits from k up to n - 1 drops the low k bits. */
  lemma {:induction false} AndHighMask(x: nat, k: nat, n: nat)
    requires k <= n
    ensures Pow2(k) <= Pow2(n)
    ensures AndN(x, Pow2(n) - Pow2(k), n) == x % Pow2(n) - x % Pow2(k)
    decreases n, 1
  {
    Pow2Mono(k, n);
    if k == 0 {
      AndLowMask(x, n, n);
    } else {
      AndHighMaskStep(x, k, n);
    }
  }

  lemma {:induction false} AndHighMaskStep(x: nat, k: nat, n: nat)
    requires 0 < k <= n
    ensures Pow2(k) <= Pow2(n)
    ensures AndN(x, Pow2(n) - Pow2(k), n) == x % Pow2(n) - x % Pow2(k)
    decreases n, 0
  {
    AndHighMask(x / 2, k - 1, n - 1);
    HighMaskStep(x, k, n);
    HighMaskJoin(x, k, n);
  }

  lemma HighMaskStep(x: nat, k: nat, n: nat)
    requires 0 < k <= n
    ensures Pow2(k) <= Pow2(n) && Pow2(k - 1) <= Pow2(n - 1)
    ensures AndN(x, Pow2(n) - Pow2(k), n) == 2 * AndN(x / 2, Pow2(n - 1) - Pow2(k - 1), n - 1)
  {
    Pow2Mono(k, n);
    Pow2Mono(k - 1, n - 1);
    var m := Pow2(n) - Pow2(k);
    assert m % 2 == 0 && m / 2 == Pow2(n - 1) - Pow2(k - 1);
  }

  lemma HighMaskJoin(x: nat, k: nat, n: nat)
    requires 0 < k <= n
    ensures 2 * ((x / 2) % Pow2(n - 1) - (x / 2) % Pow2(k - 1)) == x % Pow2(n) - x % Pow2(k)
  {
    DivMod2(x, Pow2(n - 1));
    DivMod2(x, Pow2(k - 1));
  }

  /** Masking with the single bit 2^i isolates bit i. */
  lemma {:induction false} AndPow2(x: nat, i: nat, n: nat)
    requires i < n
    ensures AndN(x, Pow2(i), n) == if Bit(x, i) == 1 then Pow2(i) else 0
  {
    if i == 0 {
      AndZero(x / 2, n - 1);
    } else {
      AndPow2Step(x, i, n);
      AndPow2(x / 2, i - 1, n - 1);
      BitHalf(x, i - 1);
    }
  }

  lemma AndPow2Step(x: nat, i: nat, n: nat)
    requires 0 < i < n
    ensures AndN(x, Pow2(i), n) == 2 * AndN(x / 2, Pow2(i - 1), n - 1)
    ensures Pow2(i) == 2 * Pow2(i - 1)
  {
    var m := Pow2(i);
    assert m % 2 == 0 && m / 2 == Pow2(i - 1);
  }

  /** On single bits, `^` is inequality. */
  lemma XorOfBits(a: U64, b: U64)
    requires a <= 1 && b <= 1
    ensures Xor(a, b) == if a != b then 1 else 0
  {
    assert a / 2 == 0 && b / 2 == 0;
    XorZero(63);
  }

  lemma {:induction false} XorZero(n: nat)
    ensures XorN(0, 0, n) == 0
  {
    if n > 0 {
      XorZero(n - 1);
    }
  }
}
