/** Numbers as the interpreter writes and reads them: `r_anal_esil_pushnum`
    renders a value with the C format `0x%llx`, and `r_num_get` turns a token
    back into a number. Only the `0x`-hex and plain decimal forms of
    `r_num_get` are modelled; every other form is delegated to a function the
    caller supplies. */
module Num {
  import opened Words

  const HEX_DIGITS: string := "0123456789abcdef"

  predicate IsDecDigit(c: char) { '0' <= c <= '9' }

  predicate IsHexDigit(c: char)
  {
    '0' <= c <= '9' || 'a' <= c <= 'f' || 'A' <= c <= 'F'
  }

  predicate AllDec(s: string) { forall i :: 0 <= i < |s| ==> IsDecDigit(s[i]) }
  predicate AllHex(s: string) { forall i :: 0 <= i < |s| ==> IsHexDigit(s[i]) }

  function HexValue(c: char): (r: nat)
    requires IsHexDigit(c)
    ensures r < 16
  {
    if '0' <= c <= '9' then c as int - '0' as int
    else if 'a' <= c <= 'f' then c as int - 'a' as int + 10
    else c as int - 'A' as int + 10
  }

  /** The value of a string of hex digits, most significant first. */
  function ParseHex(s: string): nat
    requires AllHex(s)
  {
    if |s| == 0 then 0 else 16 * ParseHex(s[..|s| - 1]) + HexValue(s[|s| - 1])
  }

  /** The value of a string of decimal digits, most significant first. */
  function ParseDec(s: string): nat
    requires AllDec(s)
  {
    if |s| == 0 then 0 else 10 * ParseDec(s[..|s| - 1]) + (s[|s| - 1] as int - '0' as int)
  }

  /** `%llx`: lower-case hex digits without leading zeros. */
  function ToHex(n: nat): (r: string)
    ensures |r| >= 1 && AllHex(r)
    ensures forall i :: 0 <= i < |r| ==> r[i] in HEX_DIGITS
    ensures r[0] == '0' <==> n == 0
  {
    if n < 16 then [HEX_DIGITS[n]]
    else ToHex(n / 16) + [HEX_DIGITS[n % 16]]
  }

  /** The token `r_anal_esil_pushnum` pushes for v. */
  function NumToken(v: U64): (r: string)
    ensures |r| >= 3 && r[..2] == "0x"
  {
    "0x" + ToHex(v)
  }

  /** `r_num_get` on the forms this model knows; `other` answers the rest. */
  function NumGet(s: string, other: string -> U64): U64
  {
    if |s| > 2 && s[..2] == "0x" && AllHex(s[2..]) && ParseHex(s[2..]) < WORD then
      ParseHex(s[2..])
    else if |s| > 0 && AllDec(s) && ParseDec(s) < WORD then
      ParseDec(s)
    else
      other(s)
  }

  lemma {:induction false} ParseToHex(n: nat)
    ensures ParseHex(ToHex(n)) == n
  {
    var r := ToHex(n);
    if n < 16 {
      DigitValue(n);
    } else {
      assert r[..|r| - 1] == ToHex(n / 16);
      assert r[|r| - 1] == HEX_DIGITS[n % 16];
      ParseToHex(n / 16);
      DigitValue(n % 16);
      assert ParseHex(r) == 16 * (n / 16) + n % 16;
    }
  }

  lemma DigitValue(d: nat)
    requires d < 16
    ensures IsHexDigit(HEX_DIGITS[d]) && HexValue(HEX_DIGITS[d]) == d
  {
    var c := HEX_DIGITS[d];
    if d < 10 {
      assert c as int == '0' as int + d;
    } else {
      assert c as int == 'a' as int + d - 10;
    }
  }

  /** Below 16^k a number has at most k hex digits. */
  lemma {:induction false} HexLength(n: nat, k: nat)
    requires k >= 1 && n < Pow2(4 * k)
    ensures |ToHex(n)| <= k
  {
    if n >= 16 {
      Pow2Add(4 * (k - 1), 4);
      assert Pow2(4) == 16;
      assert k >= 2;
      HexLength(n / 16, k - 1);
    }
  }

  /** A pushed number is at most 18 characters long. */
  lemma NumTokenLength(v: U64)
    ensures |NumToken(v)| <= 18
  {
    Pow2Of64();
    HexLength(v, 16);
  }

  /** What pushnum writes, r_num_get reads back: the value round-trips
      through its stack token. */
  lemma NumTokenRoundTrip(v: U64, other: string -> U64)
    ensures NumGet(NumToken(v), other) == v
  {
    var s := NumToken(v);
    assert s[2..] == ToHex(v);
    ParseToHex(v);
  }

  /** Distinct values are pushed as distinct tokens. */
  lemma NumTokenInjective(a: U64, b: U64, other: string -> U64)
    requires NumToken(a) == NumToken(b)
    ensures a == b
  {
    NumTokenRoundTrip(a, other);
    NumTokenRoundTrip(b, other);
  }

  lemma DecimalRead(s: string, other: string -> U64)
    requires |s| > 0 && AllDec(s) && ParseDec(s) < WORD
    ensures NumGet(s, other) == ParseDec(s)
  {
    assert IsDecDigit(s[|s| - 1]);
  }
}
