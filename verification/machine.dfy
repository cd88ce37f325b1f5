/** The state of one ESIL interpreter instance and the collaborators it
    talks to: the operand stack, the values the flag checks read, the
    control fields of the evaluator, the register file and the memory image.
    The register file and memory are owned by other libraries (r_reg, r_io);
    here they are plain maps inside the state. */
module Machine {
  import opened Words
  import opened Wrappers
  import opened Num

  /** The stack holds at most 31 entries: a push is refused once the stack
      pointer is above 30. */
  const STACK_DEPTH: nat := 31

  /** Every entry of the stack is a non-empty token, and there are never
      more than STACK_DEPTH of them. */
  type Stack = s: seq<string> | |s| <= STACK_DEPTH && forall i :: 0 <= i < |s| ==> s[i] != ""

  /** A register of the register file: its current value and its size in bits. */
  datatype Reg = Reg(value: U64, size: nat)

  datatype State = State(
    stack: Stack,
    prev: U64,       // `old`: the value before the last flag-producing operation
    cur: U64,        // the value after it
    lastsz: nat,     // the width of that operation
    trap: int,       // a C `int`
    trapCode: U32,   // a C `ut32`
    skip: bool,      // inside the false branch of a `?{`
    parseStop: int,  // 1 stops the parse; 2 stops it as not implemented
    parseGoto: int,  // -1, or the word index a GOTO asked for
    regs: map<string, Reg>,
    mem: map<U64, Byte>)

  /** What an operator returns to the evaluator and the state it leaves. */
  datatype Step = Step(ret: int, st: State)

  /** What the interpreter asks of the rest of radare2, fixed for one run. */
  datatype Config = Config(
    bits: nat,                        // the analysis word size (`anal->bits`)
    bigEndian: bool,                  // byte order of the analysed target
    offset: U64,                      // `esil->offset`, read by `%%`
    gotoLimit: int,                   // `anal->esil_goto_limit`, the word budget of one parse
    numOther: string -> U64,          // `r_num_get` on the forms not modelled here
    readCount: (U64, nat) -> int,     // what a memory read of n bytes at an address returns
    writeCount: (U64, nat) -> int,    // what a memory write of n bytes at an address returns
    interrupt: (int, State) -> Step,  // the interrupt handlers `$` fires
    peekSome: State -> Step,          // `[*]`
    pokeSome: State -> Step,          // `=[*]`
    unspecified: U64)                 // the value C leaves undefined (over-wide shifts, unset locals)

  /** The initial evaluator fields: no trap, nothing skipped, no goto, no stop. */
  predicate Fresh(st: State)
  {
    st.trap == 0 && !st.skip && st.parseGoto == -1 && st.parseStop == 0
  }

  // ---------------------------------------------------------------------------
  // The operand stack

  datatype Popped = Popped(top: string, rest: Stack)

  /** `r_anal_esil_push`: refused for an empty token or a full stack. */
  function Push(s: Stack, tok: string): (r: Option<Stack>)
    ensures r.Some? <==> tok != "" && |s| < STACK_DEPTH
    ensures r.Some? ==> |r.value| == |s| + 1 && r.value[..|s|] == s && r.value[|s|] == tok
  {
    if tok == "" || |s| > 30 then None else Some(s + [tok])
  }

  /** `r_anal_esil_pop`: nothing on an empty stack, otherwise the top. */
  function Pop(s: Stack): (r: Option<Popped>)
    ensures r.None? <==> |s| == 0
    ensures r.Some? ==> r.value.rest + [r.value.top] == s
  {
    if |s| < 1 then None else Some(Popped(s[|s| - 1], s[..|s| - 1]))
  }

  lemma PushThenPop(s: Stack, tok: string)
    requires tok != "" && |s| < STACK_DEPTH
    ensures Push(s, tok).Some? && Pop(Push(s, tok).value) == Some(Popped(tok, s))
  {
    var t := Push(s, tok).value;
    assert t[..|t| - 1] == s;
  }

  lemma PopThenPush(s: Stack)
    requires |s| > 0
    ensures var p := Pop(s).value; Push(p.rest, p.top) == Some(s)
  {
  }

  /** Pushing on the state, ignoring a refusal as most operators do. */
  function PushTok(st: State, tok: string): (r: State)
    ensures r == st || (Push(st.stack, tok).Some? && r == st.(stack := Push(st.stack, tok).value))
    ensures |r.stack| <= |st.stack| + 1
  {
    match Push(st.stack, tok)
    case None => st
    case Some(s) => st.(stack := s)
  }

  /** A push with room on the stack appends the token and changes nothing else. */
  lemma PushTokAppends(st: State, tok: string)
    requires tok != "" && |st.stack| < STACK_DEPTH
    ensures PushTok(st, tok).stack == st.stack + [tok]
    ensures PushTok(st, tok) == st.(stack := PushTok(st, tok).stack)
  {
  }

  /** `r_anal_esil_pushnum`: the value as a `0x` token. */
  function PushNum(st: State, v: U64): State
  {
    PushTok(st, NumToken(v))
  }

  /** Pushing a token that may be missing (`r_anal_esil_push` refuses a null string). */
  function PushOpt(st: State, tok: Option<string>): (r: State)
    ensures r == st.(stack := r.stack) && |r.stack| <= |st.stack| + 1
  {
    if tok.None? then st else PushTok(st, tok.value)
  }

  /** Popping on the state. */
  function PopTok(st: State): (r: (Option<string>, State))
    ensures r.0.None? <==> |st.stack| == 0
    ensures r.0.None? ==> r.1 == st
    ensures r.0.Some? ==> r.1 == st.(stack := st.stack[..|st.stack| - 1]) && r.0.value == st.stack[|st.stack| - 1]
  {
    match Pop(st.stack)
    case None => (None, st)
    case Some(p) => (Some(p.top), st.(stack := p.rest))
  }

  // ---------------------------------------------------------------------------
  // Registers

  /** Reading a register: the register callback reports failure for an unknown name. */
  function RegRead(st: State, name: string): (r: Option<U64>)
    ensures r.Some? <==> name in st.regs
    ensures r.Some? ==> r.value == st.regs[name].value
  {
    if name in st.regs then Some(st.regs[name].value) else None
  }

  /** `esil_internal_sizeof_reg`: the register size as a `ut8`, 0 for an unknown name. */
  function RegSize(st: State, name: string): (r: nat)
    ensures r < 256
    ensures name !in st.regs ==> r == 0
  {
    if name in st.regs then st.regs[name].size % 256 else 0
  }

  /** The value a register of `size` bits keeps of a written word. Storing is
      r_reg's `r_reg_set_value`, outside this model; the rule here is an
      assumption about it: a one-bit flag keeps whether the word is non-zero,
      other registers below 64 bits keep its low `size` bits. */
  function Stored(v: U64, size: nat): (r: U64)
    ensures size == 1 ==> (r == 1 <==> v != 0) && r <= 1
    ensures size != 1 && size < 64 ==> r == v % Pow2(size)
    ensures size >= 64 ==> r == v
  {
    if size == 1 then (if v != 0 then 1 else 0)
    else if size < 64 then
      Pow2BelowWord(size);
      v % Pow2(size)
    else v
  }

  /** Writing a register: 1 and the register updated when it exists, else 0
      and nothing changes. */
  function RegWrite(st: State, name: string, v: U64): (r: (int, State))
    ensures name in st.regs ==> r.0 == 1 && r.1.regs == st.regs[name := Reg(Stored(v, st.regs[name].size), st.regs[name].size)]
    ensures name !in st.regs ==> r == (0, st)
    ensures r.1 == st.(regs := r.1.regs)
  {
    if name in st.regs then
      var g := st.regs[name];
      (1, st.(regs := st.regs[name := Reg(Stored(v, g.size), g.size)]))
    else (0, st)
  }

  lemma RegWriteRead(st: State, name: string, v: U64)
    requires name in st.regs && st.regs[name].size >= 64
    ensures RegRead(RegWrite(st, name, v).1, name) == Some(v)
  {
  }

  lemma RegWriteOthers(st: State, name: string, other: string, v: U64)
    requires other != name
    ensures RegRead(RegWrite(st, name, v).1, other) == RegRead(st, other)
  {
  }

  // ---------------------------------------------------------------------------
  // Memory: bytes at addresses modulo 2^64; a byte never written reads as 0

  function Address(a: U64, i: nat): U64 { (a + i) % WORD }

  function ByteAt(mem: map<U64, Byte>, a: U64): Byte
  {
    if a in mem then mem[a] else 0
  }

  /** The n bytes from address a on. */
  function MemRead(mem: map<U64, Byte>, a: U64, n: nat): (r: seq<Byte>)
    ensures |r| == n
    ensures forall i :: 0 <= i < n ==> r[i] == ByteAt(mem, Address(a, i))
  {
    seq(n, i requires 0 <= i < n => ByteAt(mem, Address(a, i)))
  }

  /** Writing bs from address a on, one byte after the other. */
  function MemWrite(mem: map<U64, Byte>, a: U64, bs: seq<Byte>): map<U64, Byte>
  {
    if |bs| == 0 then mem
    else MemWrite(mem, a, bs[..|bs| - 1])[Address(a, |bs| - 1) := bs[|bs| - 1]]
  }

  /** Two offsets below 2^64 from one address name different addresses. */
  lemma AddressDistinct(a: U64, i: nat, j: nat)
    requires i < j < WORD
    ensures Address(a, i) != Address(a, j)
  {
    ModOfDiff(a + j, a + i, WORD);
    assert (a + j) - (a + i) == j - i;
    ModUnique(j - i, WORD, 0, j - i);
  }

  lemma {:induction false} MemWriteAt(mem: map<U64, Byte>, a: U64, bs: seq<Byte>, i: nat)
    requires i < |bs| < WORD
    ensures ByteAt(MemWrite(mem, a, bs), Address(a, i)) == bs[i]
  {
    var k := |bs| - 1;
    if i < k {
      AddressDistinct(a, i, k);
      MemWriteAt(mem, a, bs[..k], i);
    }
  }

  lemma {:induction false} MemWriteElsewhere(mem: map<U64, Byte>, a: U64, bs: seq<Byte>, x: U64)
    requires forall i :: 0 <= i < |bs| ==> Address(a, i) != x
    ensures ByteAt(MemWrite(mem, a, bs), x) == ByteAt(mem, x)
  {
    if |bs| > 0 {
      assert Address(a, |bs| - 1) != x;
      MemWriteElsewhere(mem, a, bs[..|bs| - 1], x);
    }
  }

  /** What is written is read back. */
  lemma MemWriteRead(mem: map<U64, Byte>, a: U64, bs: seq<Byte>)
    requires |bs| < WORD
    ensures MemRead(MemWrite(mem, a, bs), a, |bs|) == bs
  {
    var r := MemRead(MemWrite(mem, a, bs), a, |bs|);
    forall i | 0 <= i < |bs|
      ensures r[i] == bs[i]
    {
      MemWriteAt(mem, a, bs, i);
    }
  }

  // ---------------------------------------------------------------------------
  // Byte order: the low n bytes of a value, and the value of n bytes

  /** The low n bytes of v, least significant first. */
  function LeBytes(v: nat, n: nat): (r: seq<Byte>)
    ensures |r| == n
  {
    if n == 0 then [] else [v % 256] + LeBytes(v / 256, n - 1)
  }

  /** The value of bytes stored least significant first. */
  function LeValue(b: seq<Byte>): nat
  {
    if |b| == 0 then 0 else b[0] + 256 * LeValue(b[1..])
  }

  function Reverse<T>(s: seq<T>): (r: seq<T>)
    ensures |r| == |s|
    ensures forall i :: 0 <= i < |s| ==> r[i] == s[|s| - 1 - i]
  {
    if |s| == 0 then [] else Reverse(s[1..]) + [s[0]]
  }

  /** `r_mem_copyendian` from a little-endian host: a copy for a
      little-endian target, a reversal for a big-endian one. */
  function CopyEndian(bigEndian: bool, b: seq<Byte>): (r: seq<Byte>)
    ensures |r| == |b|
  {
    if bigEndian then Reverse(b) else b
  }

  /** The bytes a value of n bytes occupies in target memory. */
  function Encode(bigEndian: bool, v: nat, n: nat): (r: seq<Byte>)
    ensures |r| == n
  {
    CopyEndian(bigEndian, LeBytes(v, n))
  }

  /** The value n bytes of target memory hold. */
  function Decode(bigEndian: bool, b: seq<Byte>): nat
  {
    LeValue(CopyEndian(bigEndian, b))
  }

  lemma {:induction false} LeValueBound(b: seq<Byte>)
    ensures LeValue(b) < Pow2(8 * |b|)
  {
    if |b| > 0 {
      LeValueBound(b[1..]);
      Pow2Add(8, 8 * (|b| - 1));
      Pow2Of8();
      assert 8 * |b| == 8 + 8 * (|b| - 1);
      LeValueStep(b[0], LeValue(b[1..]), Pow2(8 * (|b| - 1)));
    }
  }

  lemma LeValueStep(b0: nat, rest: nat, p: nat)
    requires b0 < 256 && rest < p
    ensures b0 + 256 * rest < 256 * p
  {
    MulMono(256, rest + 1, p);
  }

  /** The bytes of v read back as v modulo 2^(8n). */
  lemma {:induction false} LeRoundTrip(v: nat, n: nat)
    ensures LeValue(LeBytes(v, n)) == v % Pow2(8 * n)
  {
    if n > 0 {
      var b := LeBytes(v, n);
      assert b[1..] == LeBytes(v / 256, n - 1);
      LeRoundTrip(v / 256, n - 1);
      Pow2Add(8, 8 * (n - 1));
      Pow2Of8();
      assert 8 * n == 8 + 8 * (n - 1);
      DivModBy(v, 256, Pow2(8 * (n - 1)));
    }
  }

  /** Splitting off the lowest digit in base k of a remainder by k * p. */
  lemma DivModBy(x: nat, k: nat, p: nat)
    requires k >= 1 && p >= 1
    ensures x % (k * p) == x % k + k * ((x / k) % p)
  {
    var q := x / k;
    var r := x % k;
    var q2 := q / p;
    var r2 := q % p;
    assert x == k * q + r;
    assert q == p * q2 + r2;
    assert k * q == (k * p) * q2 + k * r2 by {
      assert k * q == k * (p * q2 + r2);
      assert k * (p * q2 + r2) == k * (p * q2) + k * r2;
      assert k * (p * q2) == (k * p) * q2;
    }
    MulMono(k, r2 + 1, p);
    assert k * (r2 + 1) == k * r2 + k;
    ModUnique(x, k * p, q2, k * r2 + r);
  }

  lemma ReverseReverse<T>(s: seq<T>)
    ensures Reverse(Reverse(s)) == s
  {
  }

  /** What Encode writes, Decode reads as the value modulo 2^(8n), in
      either byte order. */
  lemma EncodeDecode(bigEndian: bool, v: nat, n: nat)
    ensures Decode(bigEndian, Encode(bigEndian, v, n)) == v % Pow2(8 * n)
  {
    LeRoundTrip(v, n);
    if bigEndian {
      ReverseReverse(LeBytes(v, n));
    }
  }

  lemma DecodeBound(bigEndian: bool, b: seq<Byte>)
    ensures Decode(bigEndian, b) < Pow2(8 * |b|)
  {
    LeValueBound(CopyEndian(bigEndian, b));
  }
}
