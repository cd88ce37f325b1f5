/** The flag-derivation helpers of the interpreter. Flags are not stored: each
    is recomputed on demand from the two values the last flag-producing
    operator recorded (`prev`, the value before, and `cur`, the value after)
    and from the width `lastsz` of that operation. */
module Flags {
  import opened Words
  import opened Wrappers

  /** `mask(b)`: the C expression `((st64)2 << b) - 1) >> 1` evaluated on
      64-bit two's complement words. For b = 63 the signed shift wraps to 0.
      A shift by 64 or more is undefined in C, hence the precondition. */
  function Mask(b: nat): (r: U64)
    requires b < 64
    ensures r == Pow2(b) - 1
  {
    MaskSteps(b);
    Shr(Sub(Shl(2, b), 1), 1)
  }

  lemma MaskSteps(b: nat)
    requires b < 64
    ensures Shr(Sub(Shl(2, b), 1), 1) == Pow2(b) - 1
  {
    WordIsPow2();
    var q := Pow2(b);
    assert Pow2(b + 1) == 2 * q;
    Pow2Mono(b + 1, 64);
    if b < 63 {
      Pow2Mono(b + 1, 63);
      assert Pow2(64) == 2 * Pow2(63);
      ModUnique(2 * q, WORD, 0, 2 * q);
      assert Shl(2, b) == 2 * q;
      ModUnique(2 * q - 1, WORD, 0, 2 * q - 1);
      assert Sub(2 * q, 1) == 2 * q - 1;
    } else {
      ModUnique(2 * q, WORD, 1, 0);
      assert Shl(2, b) == 0;
      ModUnique(-1, WORD, -1, WORD - 1);
      assert Sub(0, 1) == 2 * q - 1;
    }
    ModUnique(2 * q - 1, 2, q - 1, 1);
  }

  /** The carry check: 1 when the low (bit mod 64) bits of `cur` are
      numerically below those of `prev`. `bit` is a C `ut8`. */
  function Carry(prev: U64, cur: U64, bit: Byte): (r: U64)
    ensures r <= 1
    ensures r == 1 <==> cur % Pow2(bit % 64) < prev % Pow2(bit % 64)
  {
    var b := bit % 64;
    AndLowMask(cur, b, 64);
    AndLowMask(prev, b, 64);
    if And(cur, Mask(b)) < And(prev, Mask(b)) then 1 else 0
  }

  /** The width the borrow check compares at: (bit - 1) mod 64. */
  function BorrowWidth(bit: Byte): (r: nat)
    ensures r < 64
    ensures (r + 1) % 64 == bit % 64
  {
    ((bit % 64) + 63) % 64
  }

  /** The borrow check: 1 when the low `BorrowWidth(bit)` bits of `prev` are
      numerically below those of `cur`. */
  function Borrow(prev: U64, cur: U64, bit: Byte): (r: U64)
    ensures r <= 1
    ensures r == 1 <==> prev % Pow2(BorrowWidth(bit)) < cur % Pow2(BorrowWidth(bit))
  {
    var b := BorrowWidth(bit);
    AndLowMask(cur, b, 64);
    AndLowMask(prev, b, 64);
    if And(prev, Mask(b)) < And(cur, Mask(b)) then 1 else 0
  }

  /** The overflow check: 0 below width 2, otherwise the exclusive or of the
      carry checks at lastsz - 1 and lastsz - 2 (each converted to `ut8`). */
  function Overflow(prev: U64, cur: U64, lastsz: nat): (r: U64)
    ensures r <= 1
    ensures lastsz < 2 ==> r == 0
    ensures lastsz >= 2 ==>
      (r == 1 <==> Carry(prev, cur, (lastsz - 1) % 256) != Carry(prev, cur, (lastsz - 2) % 256))
  {
    if lastsz < 2 then 0
    else
      var k1: Byte := (lastsz - 1) % 256;
      var k2: Byte := (lastsz - 2) % 256;
      var c1 := Carry(prev, cur, k1);
      var c2 := Carry(prev, cur, k2);
      XorOfBits(c1, c2);
      Xor(c1, c2)
  }

  /** The number of set bits among the low n bits of x. */
  function PopCount(x: nat, n: nat): nat
  {
    if n == 0 then 0 else PopCount(x, n - 1) + Bit(x, n - 1)
  }

  /** The parity flag: 1 when the low byte of `cur` has an odd number of set bits. */
  function Parity(cur: U64): (r: U64)
    ensures r <= 1
  {
    PopCount(cur, 8) % 2
  }

  /** The parity check as the C loop computes it: start from bit 0 and fold
      in bits 1 to 7 with `^`, each isolated with `(cur & (1 << i)) >> i`. */
  method ParityCheck(cur: U64) returns (bits: U64)
    ensures bits == Parity(cur)
  {
    SingleBit(cur, 0);
    bits := Shr(And(cur, Shl(1, 0)), 0);
    var i := 1;
    while i < 8
      invariant 1 <= i <= 8
      invariant bits == PopCount(cur, i) % 2
    {
      ParityStep(cur, i, bits);
      bits := Xor(bits, Shr(And(cur, Shl(1, i)), i));
      i := i + 1;
    }
  }

  /** One turn of the parity loop folds bit i into the running parity. */
  lemma ParityStep(cur: U64, i: nat, bits: U64)
    requires i < 64 && bits == PopCount(cur, i) % 2
    ensures Xor(bits, Shr(And(cur, Shl(1, i)), i)) == PopCount(cur, i + 1) % 2
  {
    SingleBit(cur, i);
    var b := Bit(cur, i);
    XorOfBits(bits, b);
    ParityAdd(PopCount(cur, i), b, PopCount(cur, i + 1));
  }

  lemma ParityAdd(c: nat, b: nat, d: nat)
    requires b <= 1 && d == c + b
    ensures d % 2 == if c % 2 != b then 1 else 0
  {
    ModUnique(c, 2, c / 2, c % 2);
    if c % 2 + b == 2 {
      ModUnique(c + b, 2, c / 2 + 1, 0);
    } else {
      ModUnique(c + b, 2, c / 2, c % 2 + b);
    }
  }

  /** `(cur & (1 << i)) >> i` is bit i of cur. */
  lemma SingleBit(cur: U64, i: nat)
    requires i < 64
    ensures Shl(1, i) == Pow2(i)
    ensures Shr(And(cur, Shl(1, i)), i) == Bit(cur, i)
  {
    ShlOne(i);
    AndPow2(cur, i, 64);
    var m := And(cur, Pow2(i));
    ShrIsDiv(m, i);
    ShrOfPow2(i);
  }

  lemma ShrOfPow2(i: nat)
    ensures Pow2(i) / Pow2(i) == 1 && 0 / Pow2(i) == 0
  {
  }

  lemma ShlOne(i: nat)
    requires i < 64
    ensures Shl(1, i) == Pow2(i)
  {
    Pow2BelowWord(i);
    ModUnique(Pow2(i), WORD, 0, Pow2(i));
  }

  /** The sign flag: bit lastsz - 1 of `cur`, 0 when lastsz is 0. This is the
      evidently intended reading of the sign check, which the C code only
      computes for widths up to 31 (see `SignAsWritten`). */
  function Sign(cur: U64, lastsz: nat): (r: U64)
    ensures r <= 1
    ensures lastsz == 0 ==> r == 0
    ensures 1 <= lastsz ==> (r == 1 <==> cur % Pow2(lastsz) >= Pow2(lastsz - 1))
  {
    if lastsz == 0 then 0
    else
      HighBit(cur, lastsz);
      Bit(cur, lastsz - 1)
  }

  /** The sign check as written: it shifts the C `int` 1 left by lastsz - 1,
      converts the result to `ut64` (sign-extending), masks `cur` with it and
      shifts back. At lastsz = 32 the `int` shift lands on the sign bit, so
      the mask covers bits 31 to 63; beyond 32 the shift is undefined (None). */
  function SignAsWritten(cur: U64, lastsz: nat): (r: Option<U64>)
    ensures r.Some? <==> lastsz <= 32
    ensures r.Some? ==> r.value <= 1
  {
    if lastsz == 0 then Some(0)
    else if lastsz > 32 then None
    else
      var k := lastsz - 1;
      Some(if Shr(And(cur, IntShiftMask(k)), k) != 0 then 1 else 0)
  }

  /** `(ut64)(1 << k)` for the C `int` 1: a power of two below the sign bit,
      and the sign-extended pattern of bits 31 to 63 at k = 31. */
  function IntShiftMask(k: nat): (r: U64)
    requires k <= 31
    ensures k < 31 ==> r == Pow2(k)
    ensures k == 31 ==> r == 0xFFFF_FFFF_8000_0000
  {
    Pow2BelowWord(k);
    if k < 31 then Pow2(k) else 0xFFFF_FFFF_8000_0000
  }

  // ---------------------------------------------------------------------------
  // What the checks mean for the operations that feed them

  /** Two's complement value of the low n bits of x. */
  function Signed(x: nat, n: nat): int
    requires n >= 1
  {
    var low := x % Pow2(n);
    if low >= Pow2(n - 1) then low - Pow2(n) else low
  }

  /** Adding a and b as n-bit two's complement numbers leaves the n-bit range. */
  predicate SignedAddOverflows(a: nat, b: nat, n: nat)
    requires n >= 1
  {
    var t := Signed(a, n) + Signed(b, n);
    t + Pow2(n - 1) < 0 || t >= Pow2(n - 1)
  }

  /** After `cur = prev + s`, the carry check at k reports the carry out of
      the low k bits of the addition. */
  lemma CarryOfAdd(prev: U64, s: U64, bit: Byte)
    ensures Carry(prev, Add(prev, s), bit) == 1 <==>
      prev % Pow2(bit % 64) + s % Pow2(bit % 64) >= Pow2(bit % 64)
  {
    var k := bit % 64;
    LowBitsOfSum(prev, s, k);
  }

  /** After `cur = prev - s`, the borrow check at bit reports a borrow out of
      the low (bit - 1) mod 64 bits of the subtraction. */
  lemma BorrowOfSub(prev: U64, s: U64, bit: Byte)
    ensures Borrow(prev, Sub(prev, s), bit) == 1 <==>
      prev % Pow2(BorrowWidth(bit)) < s % Pow2(BorrowWidth(bit))
  {
    var k := BorrowWidth(bit);
    LowBitsOfDifference(prev, s, k);
  }

  /** The carry check at bit k and the borrow check at bit k + 1 compare the
      same low bits in opposite directions, so at most one of them is set. */
  lemma CarryBorrowExclusive(prev: U64, cur: U64, k: Byte)
    ensures Carry(prev, cur, k) + Borrow(prev, cur, (k + 1) % 256) <= 1
  {
    BorrowWidthOfNext(k);
    var p := Pow2(k % 64);
    assert Carry(prev, cur, k) == 1 <==> cur % p < prev % p;
    assert Borrow(prev, cur, (k + 1) % 256) == 1 <==> prev % p < cur % p;
  }

  lemma BorrowWidthOfNext(k: Byte)
    ensures BorrowWidth((k + 1) % 256) == k % 64
  {
    var q, r := k / 64, k % 64;
    assert k == 64 * q + r;
    if k == 255 {
      assert (k + 1) % 256 == 0;
      assert BorrowWidth(0) == 63;
    } else {
      assert (k + 1) % 256 == k + 1;
      if r < 63 {
        assert k + 1 == 64 * q + (r + 1);
        assert (k + 1) % 64 == r + 1;
      } else {
        assert k + 1 == 64 * (q + 1);
        assert (k + 1) % 64 == 0;
      }
    }
  }

  /** `$c64` is always 0: the width is reduced modulo 64 before masking. */
  lemma CarryAt64IsZero(prev: U64, cur: U64)
    ensures Carry(prev, cur, 64) == 0
  {
  }

  /** The overflow check after an addition `cur = prev + s` of width w
      reports signed overflow of the addition at width w - 1: one bit
      narrower than the operation, because `mask(b)` has b low bits set,
      not b + 1. */
  lemma {:induction false} OverflowOfAdd(prev: U64, s: U64, w: nat)
    requires 2 <= w <= 64
    ensures Overflow(prev, Add(prev, s), w) == 1 <==> SignedAddOverflows(prev, s, w - 1)
  {
    OverflowAsCarries(prev, s, w);
    SignedOverflowIsCarries(prev, s, w - 1);
  }

  /** Signed overflow of an n-bit addition is the carry out of the n low
      bits differing from the carry out of the n - 1 low bits. */
  lemma SignedOverflowIsCarries(a: U64, b: U64, n: nat)
    requires 1 <= n <= 64
    ensures SignedAddOverflows(a, b, n) <==> CarriesOut(a, b, n) != CarriesOut(a, b, n - 1)
  {
    var L := Pow2(n - 1);
    SignedOverflowSplit(a, b, n);
    HighBit(a, n);
    HighBit(b, n);
    assert Pow2(n) == 2 * L;
    OverflowCases(Bit(a, n - 1), Bit(b, n - 1), a % L, b % L, L);
  }

  /** After an addition, the overflow check compares the carry out of the
      low w - 1 bits with the carry out of the low w - 2 bits. */
  lemma OverflowAsCarries(prev: U64, s: U64, w: nat)
    requires 2 <= w <= 64
    ensures Overflow(prev, Add(prev, s), w) == 1 <==>
      CarriesOut(prev, s, w - 1) != CarriesOut(prev, s, w - 2)
  {
    var cur := Add(prev, s);
    assert (w - 1) % 256 == w - 1 && (w - 2) % 256 == w - 2;
    CarryOfAddBelow64(prev, s, w - 1);
    CarryOfAddBelow64(prev, s, w - 2);
  }

  lemma CarryOfAddBelow64(prev: U64, s: U64, k: nat)
    requires k < 64
    ensures Carry(prev, Add(prev, s), k) == 1 <==> CarriesOut(prev, s, k)
  {
    assert k % 64 == k;
    CarryOfAdd(prev, s, k);
  }

  /** The addition of the low k bits of a and b carries out of bit k - 1. */
  predicate CarriesOut(a: nat, b: nat, k: nat)
  {
    a % Pow2(k) + b % Pow2(k) >= Pow2(k)
  }

  /** Signed overflow at width n in terms of the top bits and the bits below. */
  lemma SignedOverflowSplit(a: nat, b: nat, n: nat)
    requires n >= 1
    ensures var L := Pow2(n - 1);
      var t := (a % L - Bit(a, n - 1) * L) + (b % L - Bit(b, n - 1) * L);
      SignedAddOverflows(a, b, n) <==> (t + L < 0 || t >= L)
  {
    SignedSplit(a, n);
    SignedSplit(b, n);
  }

  /** The two's complement value of the low n bits, from the top bit and the rest. */
  lemma SignedSplit(x: nat, n: nat)
    requires n >= 1
    ensures Signed(x, n) == x % Pow2(n - 1) - Bit(x, n - 1) * Pow2(n - 1)
  {
    HighBit(x, n);
    assert Pow2(n) == 2 * Pow2(n - 1);
  }

  /** Signed overflow of an n-bit addition is the carry into the top bit
      differing from the carry out of it. */
  lemma OverflowCases(aw: nat, sw: nat, a1: nat, s1: nat, L: nat)
    requires aw <= 1 && sw <= 1 && a1 < L && s1 < L
    ensures var t := (a1 - aw * L) + (s1 - sw * L);
      ((aw * L + a1) + (sw * L + s1) >= 2 * L) != (a1 + s1 >= L) <==> (t + L < 0 || t >= L)
  {
    if aw == 0 && sw == 0 {
    } else if aw == 1 && sw == 1 {
    } else if aw == 1 {
      assert sw == 0;
    } else {
      assert aw == 0 && sw == 1;
    }
  }

  /** Byte example: 0x7f + 1 is a signed 8-bit overflow, yet with lastsz = 8
      the overflow check reports 0. */
  lemma OverflowAtByteWidth()
    ensures SignedAddOverflows(0x7f, 1, 8)
    ensures Overflow(0x7f, 0x80, 8) == 0
  {
    Pow2Of8();
    assert Pow2(7) == 128;
    assert Add(0x7f, 1) == 0x80;
    OverflowOfAdd(0x7f, 1, 8);
    assert Pow2(6) == 64;
    assert !SignedAddOverflows(0x7f, 1, 7);
  }

  /** The carry out of the low k bits, for k up to 64, compared the way the
      carry check compares, but without reducing k modulo 64. */
  function CarryOut(prev: U64, cur: U64, k: nat): (r: U64)
    requires k <= 64
    ensures r <= 1
  {
    if cur % Pow2(k) < prev % Pow2(k) then 1 else 0
  }

  /** The overflow check its comments describe, with `mask(b)` keeping
      b + 1 bits: the carries out of the lastsz and lastsz - 1 low bits
      differ. 0 below width 2 and above 64. */
  function OverflowIntended(prev: U64, cur: U64, lastsz: nat): (r: U64)
    ensures r <= 1
    ensures lastsz < 2 || lastsz > 64 ==> r == 0
  {
    if lastsz < 2 || lastsz > 64 then 0
    else if CarryOut(prev, cur, lastsz) != CarryOut(prev, cur, lastsz - 1) then 1 else 0
  }

  /** After `cur = prev + s`, the carry out of the k low bits is that of the
      addition. */
  lemma CarryOutOfAdd(prev: U64, s: U64, k: nat)
    requires k <= 64
    ensures CarryOut(prev, Add(prev, s), k) == 1 <==> CarriesOut(prev, s, k)
  {
    LowBitsOfSum(prev, s, k);
  }

  /** The intended check reports exactly the signed overflow of an addition
      at the width of the result. */
  lemma OverflowIntendedOfAdd(prev: U64, s: U64, w: nat)
    requires 2 <= w <= 64
    ensures OverflowIntended(prev, Add(prev, s), w) == 1 <==> SignedAddOverflows(prev, s, w)
  {
    CarryOutOfAdd(prev, s, w);
    CarryOutOfAdd(prev, s, w - 1);
    SignedOverflowIsCarries(prev, s, w);
  }

  /** The check as written is the intended check one bit narrower: at
      `lastsz` w it reports what the intended check reports at w - 1. */
  lemma OverflowIsNarrower(prev: U64, cur: U64, w: nat)
    requires 3 <= w <= 64
    ensures Overflow(prev, cur, w) == OverflowIntended(prev, cur, w - 1)
  {
    var k1: Byte := w - 1;
    var k2: Byte := w - 2;
    assert (w - 1) % 256 == k1 && (w - 2) % 256 == k2;
    CarryIsCarryOut(prev, cur, k1);
    CarryIsCarryOut(prev, cur, k2);
  }

  /** Below 64 the carry check is the carry out of the k low bits. */
  lemma CarryIsCarryOut(prev: U64, cur: U64, k: Byte)
    requires k < 64
    ensures Carry(prev, cur, k) == CarryOut(prev, cur, k)
  {
    assert k % 64 == k;
  }

  /** On the byte example the intended check reports the overflow. */
  lemma OverflowIntendedAtByteWidth()
    ensures OverflowIntended(0x7f, 0x80, 8) == 1
  {
    Pow2Of8();
    assert Add(0x7f, 1) == 0x80;
    OverflowIntendedOfAdd(0x7f, 1, 8);
    OverflowAtByteWidth();
  }

  /** Up to width 31 the written sign check is bit lastsz - 1 of cur. */
  lemma SignAsWrittenAgrees(cur: U64, lastsz: nat)
    requires lastsz <= 31
    ensures SignAsWritten(cur, lastsz) == Some(Sign(cur, lastsz))
  {
    if lastsz > 0 {
      SingleBit(cur, lastsz - 1);
    }
  }

  /** At width 32 the written sign check reports whether any of bits 31 to
      63 of cur is set, not bit 31 alone. */
  lemma SignAsWrittenAt32(cur: U64)
    ensures SignAsWritten(cur, 32) == Some(if cur >= 0x8000_0000 then 1 else 0)
  {
    var m := And(cur, IntShiftMask(31));
    SignExtendedMask(cur);
    ShrIsDiv(m, 31);
    HighPart(cur, Pow2(31));
    Pow2Of32();
  }

  /** Masking with the sign-extended `int` 1 << 31 clears the low 31 bits. */
  lemma SignExtendedMask(cur: U64)
    ensures And(cur, 0xFFFF_FFFF_8000_0000) == cur - cur % Pow2(31)
  {
    Pow2Of64();
    Pow2Of32();
    AndHighMask(cur, 31, 64);
    ModUnique(cur, WORD, 0, cur);
  }

  lemma HighPart(x: nat, p: nat)
    requires p >= 1
    ensures (x - x % p) / p == x / p
    ensures x / p != 0 <==> x >= p
  {
    ModUnique(x - x % p, p, x / p, 0);
    if x >= p {
      MulMono(p, 1, x / p);
    }
  }

  /** The width-32 sign check disagrees with bit 31: 0x1_0000_0000 has bit 31
      clear, yet the written check reports 1. */
  lemma SignAsWrittenDisagrees()
    ensures SignAsWritten(0x1_0000_0000, 32) == Some(1)
    ensures Sign(0x1_0000_0000, 32) == 0
  {
    SignAsWrittenAt32(0x1_0000_0000);
    Pow2Of32();
    assert Bit(0x1_0000_0000, 31) == 0;
  }

  /** The sign check `%s` reads: the C check wherever its `int` shift is
      defined, that is up to width 32, and bit lastsz - 1 of cur beyond,
      where the C shift is undefined. */
  function SignCheck(cur: U64, lastsz: nat): (r: U64)
    ensures r <= 1
    ensures lastsz <= 32 ==> SignAsWritten(cur, lastsz) == Some(r)
    ensures lastsz != 32 ==> r == Sign(cur, lastsz)
    ensures lastsz == 32 ==> (r == 1 <==> cur >= 0x8000_0000)
  {
    if lastsz <= 31 then
      SignAsWrittenAgrees(cur, lastsz);
      SignAsWritten(cur, lastsz).value
    else if lastsz == 32 then
      SignAsWrittenAt32(cur);
      SignAsWritten(cur, lastsz).value
    else Sign(cur, lastsz)
  }

  // ---------------------------------------------------------------------------
  // Arithmetic helpers

  lemma {:induction false} AndComm(a: nat, b: nat, n: nat)
    ensures AndN(a, b, n) == AndN(b, a, n)
  {
    if n > 0 {
      AndComm(a / 2, b / 2, n - 1);
    }
  }

  /** Splitting the low n bits into the top bit and the n - 1 bits below it. */
  lemma HighBit(x: nat, n: nat)
    requires n >= 1
    ensures x % Pow2(n) == Bit(x, n - 1) * Pow2(n - 1) + x % Pow2(n - 1)
  {
    var p := Pow2(n - 1);
    var q := x / p;
    var r := x % p;
    var b := q % 2;
    var q2 := q / 2;
    assert q == 2 * q2 + b;
    assert x == p * q + r;
    assert x == (2 * p) * q2 + (p * b + r);
    ModUnique(x, 2 * p, q2, p * b + r);
  }

  /** The low k bits of a wrapped sum. */
  lemma LowBitsOfSum(a: U64, b: U64, k: nat)
    requires k <= 64
    ensures var c := Add(a, b) % Pow2(k);
      var a1 := a % Pow2(k);
      var b1 := b % Pow2(k);
      (a1 + b1 < Pow2(k) ==> c == a1 + b1) && (a1 + b1 >= Pow2(k) ==> c == a1 + b1 - Pow2(k))
  {
    LowBitsOfWrapped(a + b, k);
    ModOfSum(a, b, Pow2(k));
  }

  /** The low k bits of a wrapped difference. */
  lemma LowBitsOfDifference(a: U64, b: U64, k: nat)
    requires k < 64
    ensures var c := Sub(a, b) % Pow2(k);
      var a1 := a % Pow2(k);
      var b1 := b % Pow2(k);
      (a1 >= b1 ==> c == a1 - b1) && (a1 < b1 ==> c == a1 - b1 + Pow2(k))
  {
    LowBitsOfWrapped(a - b, k);
    ModOfDiff(a, b, Pow2(k));
  }
}
