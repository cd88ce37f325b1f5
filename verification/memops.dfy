/** The memory operators: `[n]` (peek), `=[n]` (poke) and the compound
    `op=[n]` family, which the interpreter builds from a peek, a computation
    and a poke on its own stack. */
module MemOps {
  import opened Words
  import opened Wrappers
  import opened Num
  import opened Flags
  import opened Machine
  import opened Parm

  /** `R_ANAL_TRAP_DIVBYZERO`, the trap a division by zero raises. */
  const TRAP_DIVBYZERO: U64 := 3

  /** The access widths of the `[1]`, `[2]`, `[4]` and `[8]` suffixes. */
  datatype Width = W1 | W2 | W4 | W8

  function Bytes(w: Width): (r: nat)
    ensures 1 <= r <= 8
  {
    match w
    case W1 => 1
    case W2 => 2
    case W4 => 4
    case W8 => 8
  }

  function Bits(w: Width): nat { 8 * Bytes(w) }

  /** The width the bare `[]` forms use: the analysis word size, when it is
      one of the four widths. */
  function NativeWidth(bits: nat): (r: Option<Width>)
    ensures r.Some? <==> bits in {8, 16, 32, 64}
    ensures r.Some? ==> Bits(r.value) == bits
  {
    if bits == 64 then Some(W8)
    else if bits == 32 then Some(W4)
    else if bits == 16 then Some(W2)
    else if bits == 8 then Some(W1)
    else None
  }

  /** `mask(bits)` at an access width. The C shift is out of range at 64
      bits; the 8-byte forms are read as keeping all 64 bits. */
  function WidthMask(w: Width): (r: U64)
    ensures r == Pow2(Bits(w)) - 1
  {
    if w == W8 then
      WordIsPow2();
      WORD - 1
    else Mask(Bits(w))
  }

  /** `mask(bits)` stored in the C `int` of `esil_poke_n`: at 32 bits the
      value 0xffffffff becomes -1, which widens back to all ones. */
  function IntMask(w: Width): (r: U64)
    ensures w != W4 ==> r == WidthMask(w)
    ensures w == W4 ==> r == WORD - 1
  {
    if w == W4 then WORD - 1 else WidthMask(w)
  }

  /** A value masked to a width: its low bits. */
  function Truncate(v: U64, w: Width): (r: U64)
    ensures r == v % Pow2(Bits(w))
    ensures r < Pow2(Bits(w))
  {
    AndLowMask(v, Bits(w), 64);
    WordIsPow2();
    ModUnique(v, WORD, 0, v);
    And(v, WidthMask(w))
  }

  /** The value `esil_peek_n` reads: the bytes at the address in target
      byte order, masked to the width (which keeps all of them). */
  function Loaded(be: bool, mem: map<U64, Byte>, addr: U64, w: Width): (r: U64)
    ensures r == Decode(be, MemRead(mem, addr, Bytes(w)))
  {
    var v := Decode(be, MemRead(mem, addr, Bytes(w)));
    DecodeBound(be, MemRead(mem, addr, Bytes(w)));
    Pow2Mono(Bits(w), 64);
    WordIsPow2();
    var r := Truncate(v, w);
    ModUnique(v, Pow2(Bits(w)), 0, v);
    r
  }

  // ---------------------------------------------------------------------------
  // Peek and poke

  /** `esil_peek_n`: pop an address (a register or a number), push the value
      stored there and record the width. The result is what the memory
      collaborator reports for the read. */
  function PeekN(cfg: Config, st: State, w: Width): (r: Step)
    ensures |st.stack| == 0 ==> r == Step(0, st)
    ensures r.st.regs == st.regs && r.st.mem == st.mem
    ensures |r.st.stack| <= |st.stack|
  {
    var (dst, st1) := PopTok(st);
    if dst.None? then Step(0, st1)
    else match IsRegOrNum(cfg, st1, dst.value)
      case None => Step(0, st1)
      case Some(addr) =>
        var v := Loaded(cfg.bigEndian, st1.mem, addr, w);
        Step(cfg.readCount(addr, Bytes(w)), PushNum(st1, v).(lastsz := Bits(w)))
  }

  /** `esil_poke_n` with the mask it applies to the stored value. Pops the
      address, then the value; resolves the value first. Unless the value is
      an internal flag read, the flag inputs are stamped: `prev` is what the
      memory held, `cur` the masked value, `lastsz` the width. */
  function PokeWith(cfg: Config, st: State, w: Width, bitmask: U64): (r: Step)
    ensures |st.stack| < 2 ==> r.ret == 0
    ensures r.st.stack == if |st.stack| >= 2 then st.stack[..|st.stack| - 2] else []
    ensures r.st.regs == st.regs
  {
    var (dst, st1) := PopTok(st);
    var (src, st2) := PopTok(st1);
    if src.None? then Step(0, st2)
    else
      var a := GetParm(cfg, st2, src.value);
      if a.v.None? || dst.None? then Step(0, a.st)
      else
        var b := GetParm(cfg, a.st, dst.value);
        if b.v.None? then Step(0, b.st)
        else
          var addr := b.v.value;
          var n := Bytes(w);
          var internal := TypeOf(b.st, src.value) == Internal;
          var num := if internal then a.v.value else And(a.v.value, bitmask);
          var st3 := if internal then b.st
            else b.st.(prev := Loaded(cfg.bigEndian, b.st.mem, addr, w), cur := num, lastsz := Bits(w));
          Step(cfg.writeCount(addr, n), st3.(mem := MemWrite(st3.mem, addr, Encode(cfg.bigEndian, num, n))))
  }

  /** `esil_poke_n` as written, the poke the evaluator runs: the mask is
      held in an `int`. It consumes the two operands and never touches a
      register; below and above 4 bytes it is the corrected poke. */
  function PokeNAsWritten(cfg: Config, st: State, w: Width): (r: Step)
    ensures r.st.stack == if |st.stack| >= 2 then st.stack[..|st.stack| - 2] else []
    ensures r.st.regs == st.regs
    ensures w != W4 ==> r == PokeN(cfg, st, w)
  {
    PokeWith(cfg, st, w, IntMask(w))
  }

  /** `esil_poke_n` with the mask kept at 64 bits, so that `cur` is the
      value written at every width. */
  function PokeN(cfg: Config, st: State, w: Width): (r: Step)
    ensures r.st.stack == if |st.stack| >= 2 then st.stack[..|st.stack| - 2] else []
    ensures r.st.regs == st.regs
  {
    PokeWith(cfg, st, w, WidthMask(w))
  }

  /** The value the poke as written records in `cur` and writes: under the
      `int` mask, all of it at 4 bytes and its low bits at the other widths. */
  function CurAsWritten(v: U64, w: Width): U64
  {
    if w == W4 then v else Truncate(v, w)
  }

  // ---------------------------------------------------------------------------
  // The compound memory operators

  datatype MemKind = KOr | KXor | KAnd | KAdd | KSub | KMod | KDiv | KMul | KInc | KDec

  /** The new memory value from the old one `d` and the operand `s`. */
  function Combine(k: MemKind, d: U64, s: U64): (r: U64)
    requires (k == KMod || k == KDiv) ==> s != 0
  {
    match k
    case KOr => Or(d, s)
    case KXor => Xor(d, s)
    case KAnd => And(d, s)
    case KAdd => Add(d, s)
    case KSub => Sub(d, s)
    case KMod => Mod(d, s)
    case KDiv => Div(d, s)
    case KMul => Mul(d, s)
    case KInc => Add(d, 1)
    case KDec => Sub(d, 1)
  }

  predicate Divides(k: MemKind) { k == KMod || k == KDiv }

  predicate Unary(k: MemKind) { k == KInc || k == KDec }

  /** `1 & ret` followed by `ret &= next`, for a `ret` that is 0 or 1. */
  function AndRet(ret: int, next: int): (r: int)
    ensures r == 1 <==> ret % 2 == 1 && next % 2 == 1
    ensures r == 0 || r == 1
  {
    if ret % 2 == 1 && next % 2 == 1 then 1 else 0
  }

  /** The second half every compound operator shares: pop the peeked value,
      push the combined value and the address again, and poke. */
  function Finish(cfg: Config, p: Step, k: MemKind, s: U64, addrTok: Option<string>, w: Width): (r: Step)
    requires Divides(k) ==> s != 0
    ensures r.ret == 0 || r.ret == 1
    ensures r.ret == 1 ==> p.ret % 2 == 1
    ensures r.st.regs == p.st.regs
    ensures |r.st.stack| <= |p.st.stack|
  {
    var (src1, st4) := PopTok(p.st);
    if src1.None? then Step(0, st4)
    else
      var b := GetParm(cfg, st4, src1.value);
      if b.v.None? then Step(0, b.st)
      else
        var q := PokeNAsWritten(cfg, PushOpt(PushNum(b.st, Combine(k, b.v.value, s)), addrTok), w);
        Step(AndRet(p.ret, q.ret), q.st)
  }

  /** `esil_mem_<op>eq_n` for the binary kinds: pop the address and the
      operand; a zero divisor traps and returns 0. */
  function MemBinary(cfg: Config, st: State, k: MemKind, w: Width): (r: Step)
    requires !Unary(k)
    ensures |st.stack| < 2 ==> r == Step(0, st.(stack := []))
    ensures r.ret == 0 || r.ret == 1
    ensures r.st.regs == st.regs && |r.st.stack| <= |st.stack|
  {
    var (dst, st1) := PopTok(st);
    var (src0, st2) := PopTok(st1);
    if src0.None? then Step(0, st2)
    else
      var a := GetParm(cfg, st2, src0.value);
      if a.v.None? then Step(0, a.st)
      else if Divides(k) && a.v.value == 0 then
        Step(0, a.st.(trap := TRAP_DIVBYZERO, trapCode := 0))
      else
        Finish(cfg, PeekN(cfg, PushOpt(a.st, dst), w), k, a.v.value, dst, w)
  }

  /** `esil_mem_inceq_n` and `esil_mem_deceq_n`: the address alone. */
  function MemUnary(cfg: Config, st: State, k: MemKind, w: Width): (r: Step)
    requires Unary(k)
    ensures |st.stack| == 0 ==> r == Step(0, st)
    ensures r.ret == 0 || r.ret == 1
    ensures r.st.regs == st.regs && |r.st.stack| <= |st.stack|
  {
    var (off, st1) := PopTok(st);
    if off.None? then Step(0, st1)
    else Finish(cfg, PeekN(cfg, PushTok(st1, off.value), w), k, 0, off, w)
  }

  /** The compound memory operators, which return 0 or 1, never touch a
      register and leave the stack no deeper than they found it. */
  function MemUpdate(cfg: Config, st: State, k: MemKind, w: Width): (r: Step)
    ensures r.ret == 0 || r.ret == 1
    ensures r.st.regs == st.regs && |r.st.stack| <= |st.stack|
  {
    if Unary(k) then MemUnary(cfg, st, k, w) else MemBinary(cfg, st, k, w)
  }

  // ---------------------------------------------------------------------------
  // Properties

  /** A peek pushes the stored value, consuming the address. */
  lemma PeekPushes(cfg: Config, st: State, s: Stack, a: U64, w: Width)
    requires st.stack == s + [NumToken(a)] && |s| < STACK_DEPTH
    requires NumToken(a) !in st.regs
    ensures var r := PeekN(cfg, st, w);
      r.ret == cfg.readCount(a, Bytes(w))
      && r.st.stack == s + [NumToken(Loaded(cfg.bigEndian, st.mem, a, w))]
      && r.st.lastsz == Bits(w)
      && r.st == st.(stack := r.st.stack, lastsz := Bits(w))
  {
    assert st.stack[..|st.stack| - 1] == s;
    var t := NumToken(a);
    assert t[0] == '0';
    NumTokenRoundTrip(a, cfg.numOther);
  }

  /** The stack holds an address `a` on top and a value `v` below it, both
      as pushnum renders them. */
  predicate PokeArgs(st: State, s: Stack, v: U64, a: U64)
  {
    st.stack == s + [NumToken(v), NumToken(a)]
  }

  /** The operands a poke resolves from number tokens. */
  lemma PokeResolves(cfg: Config, st: State, s: Stack, v: U64, a: U64)
    requires PokeArgs(st, s, v, a)
    ensures var st2 := st.(stack := s);
      PopTok(st) == (Some(NumToken(a)), st.(stack := s + [NumToken(v)]))
      && PopTok(st.(stack := s + [NumToken(v)])) == (Some(NumToken(v)), st2)
      && GetParm(cfg, st2, NumToken(v)) == Resolved(Some(v), st2)
      && GetParm(cfg, st2, NumToken(a)) == Resolved(Some(a), st2)
      && TypeOf(st2, NumToken(v)) == NumParm
  {
    var st1 := st.(stack := s + [NumToken(v)]);
    assert st.stack[..|st.stack| - 1] == s + [NumToken(v)];
    assert st1.stack[..|st1.stack| - 1] == s;
    PushNumResolves(cfg, st.(stack := s), v);
    PushNumResolves(cfg, st.(stack := s), a);
  }

  /** What a poke of a resolved value `num` that is not a flag read does to
      a state whose stack no longer holds the operands. */
  function Poked(cfg: Config, st: State, a: U64, w: Width, num: U64): Step
  {
    Step(cfg.writeCount(a, Bytes(w)),
      st.(prev := Loaded(cfg.bigEndian, st.mem, a, w), cur := num, lastsz := Bits(w),
          mem := MemWrite(st.mem, a, Encode(cfg.bigEndian, num, Bytes(w)))))
  }

  lemma PokeNumbers(cfg: Config, st: State, s: Stack, v: U64, a: U64, w: Width, bitmask: U64)
    requires PokeArgs(st, s, v, a)
    ensures PokeWith(cfg, st, w, bitmask) == Poked(cfg, st.(stack := s), a, w, And(v, bitmask))
  {
    PokeResolves(cfg, st, s, v, a);
  }

  /** A poke of a number writes its low bytes, in target byte order, and
      stamps the flag inputs: `prev` is what memory held, `cur` the value
      written, `lastsz` the width. */
  lemma PokeWrites(cfg: Config, st: State, s: Stack, v: U64, a: U64, w: Width)
    requires PokeArgs(st, s, v, a)
    ensures PokeN(cfg, st, w) == Poked(cfg, st.(stack := s), a, w, Truncate(v, w))
  {
    PokeNumbers(cfg, st, s, v, a, w, WidthMask(w));
  }

  /** What a poke writes is what a peek of the same address and width
      loads back, up to the width. */
  lemma PokedLoads(cfg: Config, st: State, a: U64, w: Width, num: U64)
    ensures Loaded(cfg.bigEndian, Poked(cfg, st, a, w, num).st.mem, a, w) == num % Pow2(Bits(w))
  {
    var n := Bytes(w);
    MemWriteRead(st.mem, a, Encode(cfg.bigEndian, num, n));
    EncodeDecode(cfg.bigEndian, num, n);
  }

  /** After a poke, peeking the same address pushes `cur`: the flag inputs
      describe the value that is now in memory. */
  lemma PokeThenLoad(cfg: Config, st: State, s: Stack, v: U64, a: U64, w: Width)
    requires PokeArgs(st, s, v, a)
    ensures var r := PokeN(cfg, st, w);
      Loaded(cfg.bigEndian, r.st.mem, a, w) == r.st.cur == v % Pow2(Bits(w))
  {
    PokeWrites(cfg, st, s, v, a, w);
    var x := Truncate(v, w);
    PokedLoads(cfg, st.(stack := s), a, w, x);
    ModUnique(x, Pow2(Bits(w)), 0, x);
  }

  /** The poke as written agrees with the corrected one except at 4 bytes. */
  lemma PokeAsWrittenAgrees(cfg: Config, st: State, w: Width)
    requires w != W4
    ensures PokeNAsWritten(cfg, st, w) == PokeN(cfg, st, w)
  {
  }

  /** The poke as written at 4 bytes leaves `cur` at the full value, though
      only its low 32 bits reach memory. */
  lemma PokeAsWrittenAt4(cfg: Config, st: State, s: Stack, v: U64, a: U64)
    requires PokeArgs(st, s, v, a)
    ensures var r := PokeNAsWritten(cfg, st, W4);
      r.st.cur == v
      && Loaded(cfg.bigEndian, r.st.mem, a, W4) == v % 0x1_0000_0000
  {
    var r := PokeNAsWritten(cfg, st, W4);
    PokeAsWrittenWrites(cfg, st, s, v, a, W4);
    assert r == Poked(cfg, st.(stack := s), a, W4, CurAsWritten(v, W4));
    PokedAsWrittenLoads(cfg, st.(stack := s), a, W4, v);
    assert Loaded(cfg.bigEndian, r.st.mem, a, W4) == v % Pow2(Bits(W4)) && r.st.cur == v;
    Pow2Of32();
    assert Pow2(Bits(W4)) == 0x1_0000_0000;
  }

  lemma AndAllOnes(v: U64)
    ensures And(v, WORD - 1) == v
  {
    WordIsPow2();
    AndLowMask(v, 64, 64);
    ModUnique(v, WORD, 0, v);
  }

  /** Writing 2^32 with `=[4]`: memory receives 0, yet the zero flag reads
      0; with the mask kept at 64 bits it reads 1. */
  lemma PokeAsWrittenZeroFlag(cfg: Config, st: State, s: Stack, a: U64)
    requires PokeArgs(st, s, 0x1_0000_0000, a)
    ensures var r := PokeNAsWritten(cfg, st, W4);
      Loaded(cfg.bigEndian, r.st.mem, a, W4) == 0
      && InternalRead(cfg, r.st, "%z") == Some(0)
    ensures var r := PokeN(cfg, st, W4);
      Loaded(cfg.bigEndian, r.st.mem, a, W4) == 0
      && InternalRead(cfg, r.st, "%z") == Some(1)
  {
    ZeroFlagAsWritten(cfg, st, s, a);
    ZeroFlagCorrected(cfg, st, s, a);
  }

  lemma ZeroFlagAsWritten(cfg: Config, st: State, s: Stack, a: U64)
    requires PokeArgs(st, s, 0x1_0000_0000, a)
    ensures var r := PokeNAsWritten(cfg, st, W4);
      Loaded(cfg.bigEndian, r.st.mem, a, W4) == 0 && r.st.cur == 0x1_0000_0000
  {
    PokeAsWrittenAt4(cfg, st, s, 0x1_0000_0000, a);
  }

  lemma ZeroFlagCorrected(cfg: Config, st: State, s: Stack, a: U64)
    requires PokeArgs(st, s, 0x1_0000_0000, a)
    ensures var r := PokeN(cfg, st, W4);
      Loaded(cfg.bigEndian, r.st.mem, a, W4) == 0 && r.st.cur == 0
  {
    var v: U64 := 0x1_0000_0000;
    var r := PokeN(cfg, st, W4);
    PokeThenLoad(cfg, st, s, v, a, W4);
    assert Loaded(cfg.bigEndian, r.st.mem, a, W4) == r.st.cur == v % Pow2(Bits(W4));
    Pow2Of32();
    assert Pow2(Bits(W4)) == v;
    assert v % v == 0;
  }

  /** A zero divisor in the memory forms traps, writes nothing and returns 0. */
  lemma MemDivideByZero(cfg: Config, st: State, s: Stack, v: U64, a: U64, k: MemKind, w: Width)
    requires Divides(k) && v == 0
    requires PokeArgs(st, s, v, a)
    ensures MemUpdate(cfg, st, k, w) == Step(0, st.(stack := s, trap := TRAP_DIVBYZERO, trapCode := 0))
  {
    PokeResolves(cfg, st, s, v, a);
  }

  /** The first half of a compound operator on number operands: the
      address goes back on the stack and is peeked. */
  lemma MemBinaryPeeks(cfg: Config, st: State, s: Stack, v: U64, a: U64, k: MemKind, w: Width)
    requires !Unary(k) && (Divides(k) ==> v != 0)
    requires PokeArgs(st, s, v, a)
    ensures MemUpdate(cfg, st, k, w)
      == Finish(cfg, PeekN(cfg, PushTok(st.(stack := s), NumToken(a)), w), k, v, Some(NumToken(a)), w)
  {
    PokeResolves(cfg, st, s, v, a);
  }

  /** The poke as written on number operands: memory receives the low
      bytes, and `cur` the value under the `int` mask. */
  lemma PokeAsWrittenWrites(cfg: Config, st: State, s: Stack, v: U64, a: U64, w: Width)
    requires PokeArgs(st, s, v, a)
    ensures PokeNAsWritten(cfg, st, w) == Poked(cfg, st.(stack := s), a, w, CurAsWritten(v, w))
  {
    PokeNumbers(cfg, st, s, v, a, w, IntMask(w));
    if w == W4 {
      AndAllOnes(v);
    }
  }

  /** The second half: the peeked value is combined and poked back. */
  lemma FinishPokes(cfg: Config, st: State, s: Stack, ret: int, d: U64, v: U64, a: U64, k: MemKind, w: Width)
    requires Divides(k) ==> v != 0
    requires st.stack == s + [NumToken(d)] && |s| < STACK_DEPTH - 1
    ensures var c := Combine(k, d, v);
      var q := Poked(cfg, st.(stack := s), a, w, CurAsWritten(c, w));
      Finish(cfg, Step(ret, st), k, v, Some(NumToken(a)), w) == Step(AndRet(ret, q.ret), q.st)
  {
    assert st.stack[..|st.stack| - 1] == s;
    var st4 := st.(stack := s);
    PushNumResolves(cfg, st4, d);
    var c := Combine(k, d, v);
    var st5a := PushNum(st4, c);
    PushTokAppends(st4, NumToken(c));
    var st5 := PushOpt(st5a, Some(NumToken(a)));
    PushTokAppends(st5a, NumToken(a));
    assert st5.stack == s + [NumToken(c), NumToken(a)];
    PokeAsWrittenWrites(cfg, st5, s, c, a, w);
  }

  /** A compound memory operator on number operands stores the combination
      of the old memory value with the operand, exactly as a peek, the
      computation and a poke do in sequence; its result is the conjunction
      of the low bits of the two collaborator results. */
  lemma MemBinaryStores(cfg: Config, st: State, s: Stack, v: U64, a: U64, k: MemKind, w: Width)
    requires !Unary(k) && (Divides(k) ==> v != 0)
    requires PokeArgs(st, s, v, a) && NumToken(a) !in st.regs
    ensures var was := Loaded(cfg.bigEndian, st.mem, a, w);
      var q := Poked(cfg, st.(stack := s, lastsz := Bits(w)), a, w, CurAsWritten(Combine(k, was, v), w));
      MemUpdate(cfg, st, k, w) == Step(AndRet(cfg.readCount(a, Bytes(w)), q.ret), q.st)
  {
    MemBinaryPeeks(cfg, st, s, v, a, k, w);
    var st3 := PushTok(st.(stack := s), NumToken(a));
    PushTokAppends(st.(stack := s), NumToken(a));
    PeekThenFinish(cfg, st3, s, v, a, k, w);
  }

  /** The peek and the second half together, on the address `a` on top. */
  lemma PeekThenFinish(cfg: Config, st: State, s: Stack, v: U64, a: U64, k: MemKind, w: Width)
    requires Divides(k) ==> v != 0
    requires st.stack == s + [NumToken(a)] && |s| < STACK_DEPTH - 1 && NumToken(a) !in st.regs
    ensures var was := Loaded(cfg.bigEndian, st.mem, a, w);
      var q := Poked(cfg, st.(stack := s, lastsz := Bits(w)), a, w, CurAsWritten(Combine(k, was, v), w));
      Finish(cfg, PeekN(cfg, st, w), k, v, Some(NumToken(a)), w) == Step(AndRet(cfg.readCount(a, Bytes(w)), q.ret), q.st)
  {
    PeekPushes(cfg, st, s, a, w);
    var was := Loaded(cfg.bigEndian, st.mem, a, w);
    var p := PeekN(cfg, st, w);
    assert p.st == st.(stack := s + [NumToken(was)], lastsz := Bits(w));
    FinishPokes(cfg, p.st, s, p.ret, was, v, a, k, w);
  }

  /** What a poke as written leaves behind: memory holds the value's low
      bits, and `cur` holds them too except at 4 bytes, where it keeps the
      whole value. */
  lemma PokedAsWrittenLoads(cfg: Config, st: State, a: U64, w: Width, c: U64)
    ensures var q := Poked(cfg, st, a, w, CurAsWritten(c, w));
      Loaded(cfg.bigEndian, q.st.mem, a, w) == c % Pow2(Bits(w))
      && q.st.cur == (if w == W4 then c else c % Pow2(Bits(w)))
  {
    var x := CurAsWritten(c, w);
    PokedLoads(cfg, st, a, w, x);
    if w != W4 {
      ModUnique(x, Pow2(Bits(w)), 0, x);
    }
  }

  /** After a compound memory operator, memory holds the combined value
      truncated to the width; `cur` is that value, or at 4 bytes the whole
      combination, as the `int` mask of the poke leaves it. */
  lemma MemBinaryLoads(cfg: Config, st: State, s: Stack, v: U64, a: U64, k: MemKind, w: Width)
    requires !Unary(k) && (Divides(k) ==> v != 0)
    requires PokeArgs(st, s, v, a) && NumToken(a) !in st.regs
    ensures var r := MemUpdate(cfg, st, k, w);
      var was := Loaded(cfg.bigEndian, st.mem, a, w);
      var c := Combine(k, was, v);
      r.st.stack == s && r.st.prev == was && r.st.lastsz == Bits(w)
      && Loaded(cfg.bigEndian, r.st.mem, a, w) == c % Pow2(Bits(w))
      && r.st.cur == (if w == W4 then c else c % Pow2(Bits(w)))
  {
    MemBinaryStores(cfg, st, s, v, a, k, w);
    var was := Loaded(cfg.bigEndian, st.mem, a, w);
    PokedAsWrittenLoads(cfg, st.(stack := s, lastsz := Bits(w)), a, w, Combine(k, was, v));
  }

  /** The first half of `++=[n]` and `--=[n]`: the address is popped, pushed
      back and peeked. */
  lemma MemUnaryPeeks(cfg: Config, st: State, s: Stack, a: U64, k: MemKind, w: Width)
    requires Unary(k)
    requires st.stack == s + [NumToken(a)]
    ensures MemUpdate(cfg, st, k, w) == Finish(cfg, PeekN(cfg, st, w), k, 0, Some(NumToken(a)), w)
  {
    var st1 := st.(stack := s);
    assert st.stack[..|st.stack| - 1] == s;
    PushTokAppends(st1, NumToken(a));
    assert PushTok(st1, NumToken(a)) == st;
  }

  /** `a,++=[n]` and `a,--=[n]` on a number address are a peek, the step
      and a poke in sequence. The stack needs room for the two entries the
      operator pushes on its way. */
  lemma MemUnaryStores(cfg: Config, st: State, s: Stack, a: U64, k: MemKind, w: Width)
    requires Unary(k)
    requires st.stack == s + [NumToken(a)] && |s| < STACK_DEPTH - 1 && NumToken(a) !in st.regs
    ensures var was := Loaded(cfg.bigEndian, st.mem, a, w);
      var q := Poked(cfg, st.(stack := s, lastsz := Bits(w)), a, w, CurAsWritten(Combine(k, was, 0), w));
      MemUpdate(cfg, st, k, w) == Step(AndRet(cfg.readCount(a, Bytes(w)), q.ret), q.st)
  {
    MemUnaryPeeks(cfg, st, s, a, k, w);
    PeekThenFinish(cfg, st, s, 0, a, k, w);
  }

  /** One up and one down on `ut64`. */
  lemma StepWraps(x: U64)
    ensures Add(x, 1) == (x + 1) % WORD
    ensures Sub(x, 1) == (x + WORD - 1) % WORD
  {
    WordIsPow2();
    if x == 0 {
      assert Sub(x, 1) == WORD - 1;
    } else {
      ModUnique(x - 1, WORD, 0, x - 1);
      ModUnique(x + WORD - 1, WORD, 1, x - 1);
    }
  }

  /** So after `a,++=[n]` memory holds the old value plus one at the width
      (minus one for `--=[n]`), wrapping at 64 bits, and `prev` the old value. */
  lemma MemUnaryLoads(cfg: Config, st: State, s: Stack, a: U64, k: MemKind, w: Width)
    requires Unary(k)
    requires st.stack == s + [NumToken(a)] && |s| < STACK_DEPTH - 1 && NumToken(a) !in st.regs
    ensures var r := MemUpdate(cfg, st, k, w);
      var was := Loaded(cfg.bigEndian, st.mem, a, w);
      var c := Stepped(k, was);
      r.st.stack == s && r.st.prev == was && r.st.lastsz == Bits(w)
      && Loaded(cfg.bigEndian, r.st.mem, a, w) == c % Pow2(Bits(w))
      && r.st.cur == (if w == W4 then c else c % Pow2(Bits(w)))
  {
    var was := Loaded(cfg.bigEndian, st.mem, a, w);
    var base := st.(stack := s, lastsz := Bits(w));
    var c := Combine(k, was, 0);
    MemUnaryStores(cfg, st, s, a, k, w);
    PokedAsWrittenLoads(cfg, base, a, w, c);
    PokedFrame(cfg, base, a, w, CurAsWritten(c, w));
    UnaryCombines(k, was);
  }

  /** One up for `++=`, one down for `--=`, wrapping at 2^64. */
  function Stepped(k: MemKind, was: U64): U64
  {
    if k == KInc then (was + 1) % WORD else (was + WORD - 1) % WORD
  }

  /** The unary kinds step the old value by one. */
  lemma UnaryCombines(k: MemKind, was: U64)
    requires Unary(k)
    ensures Combine(k, was, 0) == Stepped(k, was)
  {
    StepWraps(was);
  }

  lemma PokedFrame(cfg: Config, st: State, a: U64, w: Width, num: U64)
    ensures var q := Poked(cfg, st, a, w, num);
      q.st.stack == st.stack && q.st.prev == Loaded(cfg.bigEndian, st.mem, a, w) && q.st.lastsz == Bits(w)
  {
  }
}
