/** The operator table: every word `r_anal_esil_setup_ops` registers, as an
    enumeration with its token, and what each operator does to the state.
    The first pop of a binary operator is its `dst` (the stack top), the
    second its `src`. */
module Ops {
  import opened Words
  import opened Wrappers
  import opened Num
  import opened Flags
  import opened Machine
  import opened Parm
  import opened MemOps

  /** The ten binary operators; each also has a register-updating `op=` form. */
  datatype BinOp = BAnd | BOr | BXor | BShl | BShr | BAdd | BSub | BMul | BDiv | BMod

  /** The bracket suffix of a memory operator: `[]` (the analysis word size)
      or an explicit width. */
  datatype Size = Native | Sized(w: Width)

  /** The comparisons that pop both operands before reading them. */
  datatype Rel = Greater | AtMost | AtLeast

  /** Words that steer evaluation rather than compute. */
  datatype FlowOp = Interrupt | Trap | If | Nop | Goto | Break | Todo

  /** Comparisons. */
  datatype TestOp = Cmp | Smaller | Compare(rel: Rel)

  /** One-operand words. */
  datatype UnaryOp = Neg | NegEq | Incr | IncrEq | Decr | DecrEq

  /** Words about the stack itself. */
  datatype StackOp = DumpStack | PopOp | Clear | Dup

  datatype Op =
    | Flow(f: FlowOp) | Test(t: TestOp) | Unary(u: UnaryOp) | StackWord(s: StackOp)
    | Assign | Binary(b: BinOp) | Update(b: BinOp)
    | Poke(z: Size) | MemUpdateOp(k: MemKind, z: Size) | Peek(z: Size) | PeekSome | PokeSome

  // ---------------------------------------------------------------------------
  // Tokens

  function FlowToken(f: FlowOp): string
  {
    match f
    case Interrupt => "$"
    case Trap => "$$"
    case If => "?{"
    case Nop => "}"
    case Goto => "GOTO"
    case Break => "BREAK"
    case Todo => "TODO"
  }

  function RelToken(rel: Rel): string
  {
    match rel
    case Greater => ">"
    case AtMost => "<="
    case AtLeast => ">="
  }

  function TestToken(t: TestOp): string
  {
    match t
    case Cmp => "=="
    case Smaller => "<"
    case Compare(rel) => RelToken(rel)
  }

  function UnaryToken(u: UnaryOp): string
  {
    match u
    case Neg => "!"
    case NegEq => "!="
    case Incr => "++"
    case IncrEq => "++="
    case Decr => "--"
    case DecrEq => "--="
  }

  function StackToken(s: StackOp): string
  {
    match s
    case DumpStack => "STACK"
    case PopOp => "POP"
    case Clear => "CLEAR"
    case Dup => "DUP"
  }

  function BinToken(b: BinOp): string
  {
    match b
    case BAnd => "&"
    case BOr => "|"
    case BXor => "^"
    case BShl => "<<"
    case BShr => ">>"
    case BAdd => "+"
    case BSub => "-"
    case BMul => "*"
    case BDiv => "/"
    case BMod => "%"
  }

  function SizeSuffix(z: Size): string
  {
    match z
    case Native => "[]"
    case Sized(W1) => "[1]"
    case Sized(W2) => "[2]"
    case Sized(W4) => "[4]"
    case Sized(W8) => "[8]"
  }

  function KindBase(k: MemKind): string
  {
    match k
    case KOr => "|="
    case KXor => "^="
    case KAnd => "&="
    case KAdd => "+="
    case KSub => "-="
    case KMod => "%="
    case KDiv => "/="
    case KMul => "*="
    case KInc => "++="
    case KDec => "--="
  }

  /** The word an operator is registered under. */
  function Token(op: Op): string
  {
    match op
    case Flow(f) => FlowToken(f)
    case Test(t) => TestToken(t)
    case Unary(u) => UnaryToken(u)
    case StackWord(s) => StackToken(s)
    case Assign => "="
    case Binary(b) => BinToken(b)
    case Update(b) => BinToken(b) + "="
    case Poke(z) => "=" + SizeSuffix(z)
    case MemUpdateOp(k, z) => KindBase(k) + SizeSuffix(z)
    case Peek(z) => SizeSuffix(z)
    case PeekSome => "[*]"
    case PokeSome => "=[*]"
  }

  // ---------------------------------------------------------------------------
  // Lookup

  function KindOf(w: string): (r: Option<MemKind>)
    ensures r.Some? ==> KindBase(r.value) == w
  {
    if w == "|=" then Some(KOr)
    else if w == "^=" then Some(KXor)
    else if w == "&=" then Some(KAnd)
    else if w == "+=" then Some(KAdd)
    else if w == "-=" then Some(KSub)
    else if w == "%=" then Some(KMod)
    else if w == "/=" then Some(KDiv)
    else if w == "*=" then Some(KMul)
    else if w == "++=" then Some(KInc)
    else if w == "--=" then Some(KDec)
    else None
  }

  function WidthOf(c: char): (r: Option<Width>)
    ensures r.Some? ==> SizeSuffix(Sized(r.value)) == ['[', c, ']']
  {
    if c == '1' then Some(W1)
    else if c == '2' then Some(W2)
    else if c == '4' then Some(W4)
    else if c == '8' then Some(W8)
    else None
  }

  /** The memory operator on `base` with suffix `z`. */
  function AtBase(base: string, z: Size): Option<Op>
  {
    if base == "" then Some(Peek(z))
    else if base == "=" then Some(Poke(z))
    else match KindOf(base)
      case None => None
      case Some(k) => Some(MemUpdateOp(k, z))
  }

  /** A word is its prefix followed by its last k characters. */
  lemma SplitTail(w: string, k: nat)
    requires k <= |w|
    ensures w == w[..|w| - k] + w[|w| - k..]
    ensures k == 2 ==> w[|w| - k..] == [w[|w| - 2], w[|w| - 1]]
    ensures k == 3 ==> w[|w| - k..] == [w[|w| - 3], w[|w| - 2], w[|w| - 1]]
  {
  }

  /** A word ending in `]`: a bracket suffix and what precedes it. */
  function Bracketed(w: string): Option<Op>
    requires |w| >= 2 && w[|w| - 1] == ']'
  {
    var n := |w|;
    if w[n - 2] == '[' then
      SplitTail(w, 2);
      AtBase(w[..n - 2], Native)
    else if n >= 3 && w[n - 3] == '[' then
      SplitTail(w, 3);
      var base := w[..n - 3];
      if w[n - 2] == '*' then
        if base == "" then Some(PeekSome)
        else if base == "=" then Some(PokeSome)
        else None
      else match WidthOf(w[n - 2])
        case None => None
        case Some(width) => AtBase(base, Sized(width))
    else None
  }

  /** A binary operator `b` or its `op=` form. */
  function Arith(w: string, b: BinOp): Option<Op>
  {
    var t := BinToken(b);
    if w == t then Some(Binary(b)) else if w == t + "=" then Some(Update(b)) else None
  }

  /** A word with no bracket suffix, told apart by its first character. */
  function Plain(w: string): Option<Op>
  {
    if |w| == 0 then None
    else match w[0]
      case '$' => if w == "$" then Some(Flow(Interrupt)) else if w == "$$" then Some(Flow(Trap)) else None
      case '=' => if w == "=" then Some(Assign) else if w == "==" then Some(Test(Cmp)) else None
      case '<' =>
        if w == "<" then Some(Test(Smaller)) else if w == "<=" then Some(Test(Compare(AtMost))) else Arith(w, BShl)
      case '>' =>
        if w == ">" then Some(Test(Compare(Greater))) else if w == ">=" then Some(Test(Compare(AtLeast))) else Arith(w, BShr)
      case '?' => if w == "?{" then Some(Flow(If)) else None
      case '}' => if w == "}" then Some(Flow(Nop)) else None
      case '!' => if w == "!" then Some(Unary(Neg)) else if w == "!=" then Some(Unary(NegEq)) else None
      case '+' => if w == "++" then Some(Unary(Incr)) else if w == "++=" then Some(Unary(IncrEq)) else Arith(w, BAdd)
      case '-' => if w == "--" then Some(Unary(Decr)) else if w == "--=" then Some(Unary(DecrEq)) else Arith(w, BSub)
      case '&' => Arith(w, BAnd)
      case '|' => Arith(w, BOr)
      case '^' => Arith(w, BXor)
      case '*' => Arith(w, BMul)
      case '/' => Arith(w, BDiv)
      case '%' => Arith(w, BMod)
      case 'S' => if w == "STACK" then Some(StackWord(DumpStack)) else None
      case 'P' => if w == "POP" then Some(StackWord(PopOp)) else None
      case 'C' => if w == "CLEAR" then Some(StackWord(Clear)) else None
      case 'D' => if w == "DUP" then Some(StackWord(Dup)) else None
      case 'T' => if w == "TODO" then Some(Flow(Todo)) else None
      case 'G' => if w == "GOTO" then Some(Flow(Goto)) else None
      case 'B' => if w == "BREAK" then Some(Flow(Break)) else None
      case _ => None
  }

  /** `iscommand`: the operator registered under a word, if any. */
  function Lookup(w: string): Option<Op>
  {
    if |w| >= 2 && w[|w| - 1] == ']' then Bracketed(w) else Plain(w)
  }

  /** Lookup is sound: a word it finds an operator for is that operator's
      word. */
  lemma LookupSound(w: string)
    ensures Lookup(w).Some? ==> Token(Lookup(w).value) == w
  {
    if |w| >= 2 && w[|w| - 1] == ']' {
      BracketedSound(w);
    } else {
      PlainSound(w);
    }
  }

  lemma AtBaseSound(base: string, z: Size)
    ensures AtBase(base, z).Some? ==> Token(AtBase(base, z).value) == base + SizeSuffix(z)
  {
  }

  lemma BracketedSound(w: string)
    requires |w| >= 2 && w[|w| - 1] == ']'
    ensures Bracketed(w).Some? ==> Token(Bracketed(w).value) == w
  {
    var n := |w|;
    if w[n - 2] == '[' {
      SplitTail(w, 2);
      AtBaseSound(w[..n - 2], Native);
    } else if n >= 3 && w[n - 3] == '[' {
      SplitTail(w, 3);
      if w[n - 2] != '*' && WidthOf(w[n - 2]).Some? {
        AtBaseSound(w[..n - 3], Sized(WidthOf(w[n - 2]).value));
      }
    }
  }

  lemma ArithSound(w: string, b: BinOp)
    ensures Arith(w, b).Some? ==> Token(Arith(w, b).value) == w
  {
  }

  lemma PlainSound(w: string)
    ensures Plain(w).Some? ==> Token(Plain(w).value) == w
  {
    if |w| > 0 {
      match w[0] {
        case '<' => ArithSound(w, BShl);
        case '>' => ArithSound(w, BShr);
        case '+' => ArithSound(w, BAdd);
        case '-' => ArithSound(w, BSub);
        case '&' => ArithSound(w, BAnd);
        case '|' => ArithSound(w, BOr);
        case '^' => ArithSound(w, BXor);
        case '*' => ArithSound(w, BMul);
        case '/' => ArithSound(w, BDiv);
        case '%' => ArithSound(w, BMod);
        case _ =>
      }
    }
  }

  /** No operator word is longer than six characters. */
  lemma TokenShort(op: Op)
    ensures 0 < |Token(op)| <= 6
  {
    match op
    case Flow(f) =>
    case Test(t) =>
    case Unary(u) =>
    case StackWord(s) =>
    case Assign =>
    case Binary(b) =>
    case Update(b) =>
    case Poke(z) =>
    case MemUpdateOp(k, z) =>
    case Peek(z) =>
    case PeekSome =>
    case PokeSome =>
  }

  /** So a longer word is never an operator. */
  lemma LongIsNoOp(w: string)
    requires |w| > 6
    ensures Lookup(w) == None
  {
    if Lookup(w).Some? {
      LookupSound(w);
      TokenShort(Lookup(w).value);
    }
  }

  /** Nor is a word starting with a digit and not ending in `]`, such as a
      number. */
  lemma DigitIsNoOp(w: string)
    requires |w| > 0 && '0' <= w[0] <= '9' && w[|w| - 1] != ']'
    ensures Lookup(w) == None
  {
  }

  /** Every registered word finds its operator again: no two operators share
      a word. */
  lemma LookupToken(op: Op)
    ensures Lookup(Token(op)) == Some(op)
  {
    match op
    case Flow(f) => LookupFlow(f);
    case Test(t) => LookupTest(t);
    case Unary(u) => LookupUnary(u);
    case StackWord(s) => LookupStack(s);
    case Assign =>
    case Binary(b) => LookupArith(b);
    case Update(b) => LookupArith(b);
    case Poke(z) => LookupMemory("=", z);
    case MemUpdateOp(k, z) => LookupMemory(KindBase(k), z); KindRoundTrip(k);
    case Peek(z) => LookupMemory("", z);
    case PeekSome =>
    case PokeSome =>
  }

  lemma LookupFlow(f: FlowOp)
    ensures Lookup(FlowToken(f)) == Some(Flow(f))
  {
    match f
    case Interrupt =>
    case Trap =>
    case If =>
    case Nop =>
    case Goto =>
    case Break =>
    case Todo =>
  }

  lemma LookupTest(t: TestOp)
    ensures Lookup(TestToken(t)) == Some(Test(t))
  {
    match t
    case Cmp =>
    case Smaller =>
    case Compare(Greater) =>
    case Compare(AtMost) =>
    case Compare(AtLeast) =>
  }

  lemma LookupUnary(u: UnaryOp)
    ensures Lookup(UnaryToken(u)) == Some(Unary(u))
  {
    match u
    case Neg =>
    case NegEq =>
    case Incr =>
    case IncrEq =>
    case Decr =>
    case DecrEq =>
  }

  lemma LookupStack(s: StackOp)
    ensures Lookup(StackToken(s)) == Some(StackWord(s))
  {
    match s
    case DumpStack =>
    case PopOp =>
    case Clear =>
    case Dup =>
  }

  lemma LookupArith(b: BinOp)
    ensures Lookup(BinToken(b)) == Some(Binary(b))
    ensures Lookup(BinToken(b) + "=") == Some(Update(b))
  {
    match b
    case BAnd =>
    case BOr =>
    case BXor =>
    case BShl =>
    case BShr =>
    case BAdd =>
    case BSub =>
    case BMul =>
    case BDiv =>
    case BMod =>
  }

  lemma KindRoundTrip(k: MemKind)
    ensures KindOf(KindBase(k)) == Some(k)
  {
    match k
    case KOr =>
    case KXor =>
    case KAnd =>
    case KAdd =>
    case KSub =>
    case KMod =>
    case KDiv =>
    case KMul =>
    case KInc =>
    case KDec =>
  }

  /** A bracket suffix is recognised after any base. */
  lemma LookupMemory(base: string, z: Size)
    ensures Lookup(base + SizeSuffix(z)) == AtBase(base, z)
  {
    match z
    case Native => LookupNative(base);
    case Sized(W1) => LookupSized(base, '1');
    case Sized(W2) => LookupSized(base, '2');
    case Sized(W4) => LookupSized(base, '4');
    case Sized(W8) => LookupSized(base, '8');
  }

  lemma LookupNative(base: string)
    ensures Lookup(base + "[]") == AtBase(base, Native)
  {
    var w := base + "[]";
    var n := |w|;
    assert w[n - 1] == ']' && w[n - 2] == '[';
    assert w[..n - 2] == base;
  }

  lemma LookupSized(base: string, c: char)
    requires WidthOf(c).Some?
    ensures Lookup(base + ['[', c, ']']) == AtBase(base, Sized(WidthOf(c).value))
  {
    var w := base + ['[', c, ']'];
    var n := |w|;
    assert w[n - 1] == ']' && w[n - 2] == c && w[n - 3] == '[';
    assert w[..n - 3] == base;
  }

  // ---------------------------------------------------------------------------
  // Operand helpers

  /** The stack with its top n entries popped; emptied if it holds fewer. */
  function Drop(s: Stack, n: nat): (r: Stack)
    ensures |r| == if |s| >= n then |s| - n else 0
  {
    if |s| >= n then s[..|s| - n] else []
  }

  /** The two pops every binary operator starts with. */
  datatype Operands = Operands(dst: Option<string>, src: Option<string>, st: State)

  function PopTwo(st: State): (r: Operands)
    ensures |st.stack| >= 2 ==> r == Operands(Some(st.stack[|st.stack| - 1]), Some(st.stack[|st.stack| - 2]),
      st.(stack := st.stack[..|st.stack| - 2]))
    ensures |st.stack| < 2 ==> r.src.None? && r.st == st.(stack := [])
  {
    var (dst, st1) := PopTok(st);
    var (src, st2) := PopTok(st1);
    Operands(dst, src, st2)
  }

  /** The resolved values of `dst` and `src`. */
  datatype Pair = Pair(d: U64, s: U64)

  /** Resolve two tokens in order, stopping at the first that fails. */
  function ResolveBoth(cfg: Config, st: State, first: Option<string>, second: Option<string>): (r: (Option<Pair>, State))
    ensures first.None? || second.None? ==> r.0.None?
    ensures r.1 == st.(parseStop := r.1.parseStop)
  {
    if first.None? then (None, st)
    else
      var x := GetParm(cfg, st, first.value);
      if x.v.None? || second.None? then (None, x.st)
      else
        var y := GetParm(cfg, x.st, second.value);
        if y.v.None? then (None, y.st) else (Some(Pair(x.v.value, y.v.value)), y.st)
  }

  /** `&`, `|`, `^`, `<<` and `>>` resolve `dst` first; the arithmetic
      operators resolve `src` first. */
  predicate DstFirst(b: BinOp) { b in {BAnd, BOr, BXor, BShl, BShr} }

  predicate IsDivision(b: BinOp) { b == BDiv || b == BMod }

  predicate IsShift(b: BinOp) { b == BShl || b == BShr }

  function Resolve(cfg: Config, o: Operands, dstFirst: bool): (r: (Option<Pair>, State))
    ensures o.dst.None? || o.src.None? ==> r.0.None?
    ensures r.1 == o.st.(parseStop := r.1.parseStop)
  {
    if dstFirst then ResolveBoth(cfg, o.st, o.dst, o.src)
    else
      var (p, st1) := ResolveBoth(cfg, o.st, o.src, o.dst);
      (if p.None? then None else Some(Pair(p.value.s, p.value.d)), st1)
  }

  /** The value of `d op s` on `ut64`; a shift by 64 or more is undefined in C. */
  function Apply(cfg: Config, b: BinOp, d: U64, s: U64): U64
    requires IsDivision(b) ==> s != 0
  {
    match b
    case BAnd => And(d, s)
    case BOr => Or(d, s)
    case BXor => Xor(d, s)
    case BShl => if s < 64 then Shl(d, s) else cfg.unspecified
    case BShr => if s < 64 then Shr(d, s) else cfg.unspecified
    case BAdd => Add(s, d)
    case BSub => Sub(d, s)
    case BMul => Mul(d, s)
    case BDiv => Div(d, s)
    case BMod => Mod(d, s)
  }

  function DivideByZero(st: State): State
  {
    st.(trap := TRAP_DIVBYZERO, trapCode := 0)
  }

  /** The flag inputs of a register update: the old and new value and the
      register's size. */
  function Stamp(st: State, was: U64, now: U64, reg: string): State
  {
    st.(prev := was, cur := now, lastsz := RegSize(st, reg))
  }

  // ---------------------------------------------------------------------------
  // The operators

  /** `esil_and`, `esil_or`, `esil_xor`, `esil_lsl`, `esil_lsr`, `esil_add`,
      `esil_sub`, `esil_mul`, `esil_div`, `esil_mod`. */
  function ExecBinary(cfg: Config, st: State, b: BinOp): (r: Step)
    ensures r.ret == 0 || r.ret == 1
    ensures |st.stack| < 2 ==> r.ret == 0
    ensures r.ret == 0 ==> r.st.stack == Drop(st.stack, 2)
    ensures |st.stack| > 0 ==> |r.st.stack| < |st.stack|
    ensures r.st.regs == st.regs && r.st.mem == st.mem
  {
    var (p, st1) := Resolve(cfg, PopTwo(st), DstFirst(b));
    if p.None? then Step(0, st1)
    else if IsDivision(b) && p.value.s == 0 then Step(1, DivideByZero(st1))
    else Step(1, PushNum(st1, Apply(cfg, b, p.value.d, p.value.s)))
  }

  /** The operands of a register update: `dst` must name a register. The
      bitwise forms read the register first, the arithmetic forms resolve
      `src` first. */
  function UpdateOperands(cfg: Config, o: Operands, dstFirst: bool): (r: (Option<Pair>, State))
    ensures r.0.Some? ==> o.dst.Some? && o.dst.value in o.st.regs && o.src.Some?
    ensures r.0.Some? ==> r.0.value.d == o.st.regs[o.dst.value].value
    ensures r.0.Some? ==> Some(r.0.value.s) == GetParm(cfg, o.st, o.src.value).v && r.1 == GetParm(cfg, o.st, o.src.value).st
    ensures r.1 == o.st.(parseStop := r.1.parseStop)
  {
    var dstReg := if o.dst.None? then None else RegRead(o.st, o.dst.value);
    if dstFirst then
      if dstReg.None? || o.src.None? then (None, o.st)
      else
        var y := GetParm(cfg, o.st, o.src.value);
        if y.v.None? then (None, y.st) else (Some(Pair(dstReg.value, y.v.value)), y.st)
    else
      if o.src.None? then (None, o.st)
      else
        var y := GetParm(cfg, o.st, o.src.value);
        if y.v.None? || dstReg.None? then (None, y.st) else (Some(Pair(dstReg.value, y.v.value)), y.st)
  }

  /** `esil_andeq` … `esil_modeq`, `esil_lsleq`, `esil_lsreq`: write `dst op
      src` to the register `dst`. The flag inputs are stamped unless `src`
      is an internal flag read (the shifts stamp them always); a zero
      divisor traps and writes nothing. All return 1 once the operands
      resolve. */
  function ExecUpdate(cfg: Config, st: State, b: BinOp): (r: Step)
    ensures r.ret == 0 || r.ret == 1
    ensures r.ret == 1 ==> |st.stack| >= 2 && st.stack[|st.stack| - 1] in st.regs
    ensures r.st.stack == Drop(st.stack, 2)
    ensures r.st.mem == st.mem && r.st.regs.Keys == st.regs.Keys
  {
    var o := PopTwo(st);
    var (p, st1) := UpdateOperands(cfg, o, DstFirst(b));
    if p.None? then Step(0, st1)
    else if IsDivision(b) && p.value.s == 0 then Step(1, DivideByZero(st1))
    else
      var v := Apply(cfg, b, p.value.d, p.value.s);
      var st2 := if IsShift(b) || TypeOf(st1, o.src.value) != Internal then Stamp(st1, p.value.d, v, o.dst.value) else st1;
      Step(1, RegWrite(st2, o.dst.value, v).1)
  }

  /** `esil_eq`: `dst = src` for a register `dst`; the result is the
      register write's. */
  function ExecAssign(cfg: Config, st: State): (r: Step)
    ensures r.ret == 0 || r.ret == 1
    ensures r.ret == 1 ==> |st.stack| >= 2 && st.stack[|st.stack| - 1] in st.regs
    ensures r.st.stack == Drop(st.stack, 2)
    ensures r.st.mem == st.mem && r.st.regs.Keys == st.regs.Keys
  {
    var o := PopTwo(st);
    var (p, st1) := UpdateOperands(cfg, o, true);
    if p.None? then Step(0, st1)
    else
      var st2 := if TypeOf(st1, o.src.value) != Internal then Stamp(st1, p.value.d, p.value.s, o.dst.value) else st1;
      var (ret, st3) := RegWrite(st2, o.dst.value, p.value.s);
      Step(ret, st3)
  }

  /** `esil_cmp`: record `dst - src` as the flag inputs and push nothing.
      The width is that of `dst` if it names a register, else that of `src`
      if it does, else unchanged. */
  function ExecCmp(cfg: Config, st: State): (r: Step)
    ensures r.ret == 0 || r.ret == 1
    ensures |st.stack| < 2 ==> r.ret == 0
    ensures r.st.stack == Drop(st.stack, 2)
    ensures r.st.regs == st.regs && r.st.mem == st.mem
  {
    var o := PopTwo(st);
    var (p, st1) := ResolveBoth(cfg, o.st, o.dst, o.src);
    if p.None? then Step(0, st1)
    else
      var dst := o.dst.value;
      var src := o.src.value;
      var size := if dst in st1.regs then RegSize(st1, dst) else if src in st1.regs then RegSize(st1, src) else st1.lastsz;
      Step(1, st1.(prev := p.value.d, cur := Sub(p.value.d, p.value.s), lastsz := size))
  }

  /** `esil_smaller`: the first `popRN` is called `s` and the second `d`,
      and `s < d` is pushed. */
  function ExecSmaller(cfg: Config, st: State): (r: Step)
    ensures r.ret == 0 || r.ret == 1
    ensures |st.stack| < 2 ==> r.ret == 0
    ensures |st.stack| > 0 ==> |r.st.stack| < |st.stack|
    ensures r.st == st.(stack := r.st.stack)
  {
    var (s, st1) := PopRN(cfg, st);
    if s.None? then Step(0, st1)
    else
      var (d, st2) := PopRN(cfg, st1);
      if d.None? then Step(0, st2)
      else Step(1, PushNum(st2, if s.value < d.value then 1 else 0))
  }

  function Holds(rel: Rel, s: U64, d: U64): bool
  {
    match rel
    case Greater => s > d
    case AtMost => s <= d
    case AtLeast => s >= d
  }

  /** `esil_bigger`, `esil_smaller_equal`, `esil_bigger_equal`: both pops
      first, then `src rel dst` on register-or-number readings. */
  function ExecCompare(cfg: Config, st: State, rel: Rel): (r: Step)
    ensures r.ret == 0 || r.ret == 1
    ensures |st.stack| < 2 ==> r.ret == 0
    ensures |st.stack| > 0 ==> |r.st.stack| < |st.stack|
    ensures r.st == st.(stack := r.st.stack)
  {
    var o := PopTwo(st);
    var s := if o.src.None? then None else IsRegOrNum(cfg, o.st, o.src.value);
    var d := if o.dst.None? then None else IsRegOrNum(cfg, o.st, o.dst.value);
    if s.None? || d.None? then Step(0, o.st)
    else Step(1, PushNum(o.st, if Holds(rel, s.value, d.value) then 1 else 0))
  }

  /** `esil_neg`: push `!v`, reading the operand as a register or number
      when it does not resolve. */
  function ExecNeg(cfg: Config, st: State): (r: Step)
    ensures |st.stack| == 0 ==> r == Step(0, st)
    ensures r.ret == 0 || r.ret == 1
    ensures r.ret == 1 ==> |r.st.stack| == |st.stack|
    ensures |r.st.stack| <= |st.stack|
    ensures r.st.regs == st.regs && r.st.mem == st.mem
  {
    var (src, st1) := PopTok(st);
    if src.None? then Step(0, st1)
    else
      var x := GetParm(cfg, st1, src.value);
      match (if x.v.Some? then x.v else IsRegOrNum(cfg, x.st, src.value))
      case None => Step(0, x.st)
      case Some(v) => Step(1, PushNum(x.st, LogicalNot(v)))
  }

  /** `esil_negeq`: replace a register by its logical negation. */
  function ExecNegEq(st: State): (r: Step)
    ensures r.ret == 1 <==> |st.stack| > 0 && st.stack[|st.stack| - 1] in st.regs
    ensures r.ret == 0 || r.ret == 1
    ensures r.st.stack == Drop(st.stack, 1) && r.st.regs.Keys == st.regs.Keys
    ensures r.st == st.(stack := r.st.stack, regs := r.st.regs)
  {
    var (src, st1) := PopTok(st);
    if src.None? || src.value !in st1.regs then Step(0, st1)
    else Step(1, RegWrite(st1, src.value, LogicalNot(st1.regs[src.value].value)).1)
  }

  /** `esil_inc` and `esil_dec`: push the operand plus or minus one. */
  function ExecStep(cfg: Config, st: State, up: bool): (r: Step)
    ensures |st.stack| == 0 ==> r == Step(0, st)
    ensures r.ret == 0 || r.ret == 1
    ensures r.ret == 1 ==> |r.st.stack| == |st.stack|
    ensures |r.st.stack| <= |st.stack|
    ensures r.st == st.(stack := r.st.stack, parseStop := r.st.parseStop)
  {
    var (src, st1) := PopTok(st);
    if src.None? then Step(0, st1)
    else
      var x := GetParm(cfg, st1, src.value);
      if x.v.None? then Step(0, x.st)
      else Step(1, PushNum(x.st, if up then Add(x.v.value, 1) else Sub(x.v.value, 1)))
  }

  /** `esil_inceq` and `esil_deceq`: the operand must be a register; its old
      and new value become the flag inputs. */
  function ExecStepEq(st: State, up: bool): (r: Step)
    ensures r.ret == 1 <==> |st.stack| > 0 && TypeOf(st, st.stack[|st.stack| - 1]) == RegParm
    ensures r.ret == 0 || r.ret == 1
    ensures r.st.stack == Drop(st.stack, 1)
    ensures r.st.mem == st.mem && r.st.regs.Keys == st.regs.Keys
  {
    var (reg, st1) := PopTok(st);
    if reg.None? || TypeOf(st1, reg.value) != RegParm then Step(0, st1)
    else
      var was := st1.regs[reg.value].value;
      var now := if up then Add(was, 1) else Sub(was, 1);
      var st2 := RegWrite(st1.(prev := was, cur := now), reg.value, now).1;
      Step(1, st2.(lastsz := RegSize(st2, reg.value)))
  }

  /** `esil_trap`: the first `popRN` is the trap, the second its code; the
      `int` trap and the `ut32` code take the popped words converted. */
  function ExecTrap(cfg: Config, st: State): (r: Step)
    ensures r.ret == 0 || r.ret == 1
    ensures r.ret == 0 ==> r.st.trap == st.trap && r.st.trapCode == st.trapCode
    ensures r.ret == 1 ==> -0x8000_0000 <= r.st.trap < 0x8000_0000
    ensures |st.stack| > 0 ==> |r.st.stack| < |st.stack|
    ensures r.st == st.(stack := r.st.stack, trap := r.st.trap, trapCode := r.st.trapCode)
  {
    var (s, st1) := PopRN(cfg, st);
    if s.None? then Step(0, st1)
    else
      var (d, st2) := PopRN(cfg, st1);
      if d.None? then Step(0, st2)
      else Step(1, st2.(trap := ToInt32(s.value), trapCode := ToUint32(d.value)))
  }

  /** `esil_interrupt`: fire the handler for the popped number. */
  function ExecInterrupt(cfg: Config, st: State): (r: Step)
    ensures |st.stack| == 0 ==> r == Step(0, st)
    ensures |st.stack| > 0 && IsRegOrNum(cfg, st, st.stack[|st.stack| - 1]).None? ==>
      r == Step(0, st.(stack := Drop(st.stack, 1)))
  {
    var (n, st1) := PopRN(cfg, st);
    if n.None? then Step(0, st1) else cfg.interrupt(ToInt32(n.value), st1)
  }

  /** `esil_if`: a zero operand starts skipping. An operand that does not
      resolve leaves the C variable unset (`cfg.unspecified`). */
  function ExecIf(cfg: Config, st: State): (r: Step)
    ensures r.ret == 1 <==> |st.stack| > 0
    ensures r.ret == 0 || r.ret == 1
    ensures st.skip ==> r.st.skip
    ensures r.st.stack == Drop(st.stack, 1)
    ensures r.st == st.(stack := r.st.stack, skip := r.st.skip, parseStop := r.st.parseStop)
  {
    var (src, st1) := PopTok(st);
    if src.None? then Step(0, st1)
    else
      var x := GetParm(cfg, st1, src.value);
      var v := if x.v.Some? then x.v.value else cfg.unspecified;
      Step(1, if v == 0 then x.st.(skip := true) else x.st)
  }

  /** `esil_goto`: a resolved operand becomes the word index to continue at,
      converted to the C `int` of `parse_goto`. */
  function ExecGoto(cfg: Config, st: State): (r: Step)
    ensures r.ret == 1
    ensures r.st == st.(stack := Drop(st.stack, 1), parseGoto := r.st.parseGoto, parseStop := r.st.parseStop)
  {
    var (src, st1) := PopTok(st);
    if src.None? then Step(1, st1)
    else
      var x := GetParm(cfg, st1, src.value);
      Step(1, if x.v.Some? then x.st.(parseGoto := ToInt32(x.v.value)) else x.st)
  }

  /** `esil_dup`: pop a token and push its value. A missing token resolves
      as an invalid one. */
  function ExecDup(cfg: Config, st: State): (r: Step)
    ensures r.ret == 0 || r.ret == 1
    ensures r.ret == 1 ==> |st.stack| > 0 && |r.st.stack| == |st.stack|
    ensures |r.st.stack| <= |st.stack|
    ensures r.st == st.(stack := r.st.stack, parseStop := r.st.parseStop)
  {
    var (tok, st1) := PopTok(st);
    var x := GetParm(cfg, st1, if tok.None? then "" else tok.value);
    if x.v.None? then Step(0, x.st)
    else
      var p := Push(x.st.stack, NumToken(x.v.value));
      if p.None? then Step(0, x.st) else Step(1, x.st.(stack := p.value))
  }

  /** The access width of a bracket suffix: `[]` takes the analysis word
      size, and has none when that is not 8, 16, 32 or 64 bits. */
  function WidthFor(cfg: Config, z: Size): (r: Option<Width>)
    ensures z.Sized? ==> r == Some(z.w)
    ensures z == Native ==> r == NativeWidth(cfg.bits)
  {
    match z
    case Sized(w) => Some(w)
    case Native => NativeWidth(cfg.bits)
  }

  /** The operators that hand the state to code outside the interpreter:
      the interrupt handlers and the `[*]` / `=[*]` callbacks. */
  predicate Callback(op: Op) { op in {Flow(Interrupt), PeekSome, PokeSome} }

  /** The operators that may write a register. */
  predicate WritesRegs(op: Op)
  {
    Callback(op) || op.Assign? || op.Update? || (op.Unary? && op.u in {NegEq, IncrEq, DecrEq})
  }

  /** The operators that may write memory. */
  predicate WritesMem(op: Op) { Callback(op) || op.Poke? || op.MemUpdateOp? }

  /** Run one operator. Registers and memory change only through the
      operators that write them, no operator adds or removes a register, no
      operator leaves the stack deeper than it found it, and a memory
      operator whose suffix has no width does nothing and returns 0; the
      callbacks may do anything. */
  function Exec(cfg: Config, st: State, op: Op): (r: Step)
    ensures !WritesRegs(op) ==> r.st.regs == st.regs
    ensures !WritesMem(op) ==> r.st.mem == st.mem
    ensures !Callback(op) ==> r.st.regs.Keys == st.regs.Keys && |r.st.stack| <= |st.stack|
    ensures (op.Poke? || op.MemUpdateOp? || op.Peek?) && WidthFor(cfg, op.z).None? ==> r == Step(0, st)
  {
    match op
    case Flow(f) => ExecFlow(cfg, st, f)
    case Test(t) => ExecTest(cfg, st, t)
    case Unary(u) => ExecUnary(cfg, st, u)
    case StackWord(s) => ExecStack(cfg, st, s)
    case Assign => ExecAssign(cfg, st)
    case Binary(b) => ExecBinary(cfg, st, b)
    case Update(b) => ExecUpdate(cfg, st, b)
    case Poke(z) => if WidthFor(cfg, z).None? then Step(0, st) else PokeNAsWritten(cfg, st, WidthFor(cfg, z).value)
    case MemUpdateOp(k, z) => if WidthFor(cfg, z).None? then Step(0, st) else MemUpdate(cfg, st, k, WidthFor(cfg, z).value)
    case Peek(z) => if WidthFor(cfg, z).None? then Step(0, st) else PeekN(cfg, st, WidthFor(cfg, z).value)
    case PeekSome => cfg.peekSome(st)
    case PokeSome => cfg.pokeSome(st)
  }

  function ExecFlow(cfg: Config, st: State, f: FlowOp): (r: Step)
    ensures f != Interrupt ==> r.st.regs == st.regs && r.st.mem == st.mem && |r.st.stack| <= |st.stack|
    ensures f in {Break, Todo} ==> r.ret == 1 && r.st.parseStop != 0 && r.st == st.(parseStop := r.st.parseStop)
  {
    match f
    case Interrupt => ExecInterrupt(cfg, st)
    case Trap => ExecTrap(cfg, st)
    case If => ExecIf(cfg, st)
    case Nop => Step(0, st)
    case Goto => ExecGoto(cfg, st)
    case Break => Step(1, st.(parseStop := 1))
    case Todo => Step(1, st.(parseStop := 2))
  }

  function ExecTest(cfg: Config, st: State, t: TestOp): (r: Step)
    ensures r.ret == 0 || r.ret == 1
    ensures |st.stack| < 2 ==> r.ret == 0
    ensures r.st.regs == st.regs && r.st.mem == st.mem && |r.st.stack| <= |st.stack|
  {
    match t
    case Cmp => ExecCmp(cfg, st)
    case Smaller => ExecSmaller(cfg, st)
    case Compare(rel) => ExecCompare(cfg, st, rel)
  }

  function ExecUnary(cfg: Config, st: State, u: UnaryOp): (r: Step)
    ensures r.ret == 0 || r.ret == 1
    ensures u in {Neg, Incr, Decr} ==> r.st.regs == st.regs
    ensures r.st.mem == st.mem && r.st.regs.Keys == st.regs.Keys && |r.st.stack| <= |st.stack|
  {
    match u
    case Neg => ExecNeg(cfg, st)
    case NegEq => ExecNegEq(st)
    case Incr => ExecStep(cfg, st, true)
    case IncrEq => ExecStepEq(st, true)
    case Decr => ExecStep(cfg, st, false)
    case DecrEq => ExecStepEq(st, false)
  }

  /** `esil_dumpstack` (whose printing is not modelled), `esil_pop`,
      `esil_clear`, `esil_dup`. */
  function ExecStack(cfg: Config, st: State, s: StackOp): (r: Step)
    ensures s != Dup ==> r.st == st.(stack := r.st.stack)
    ensures r.st.regs == st.regs && r.st.mem == st.mem && |r.st.stack| <= |st.stack|
  {
    match s
    case DumpStack => Step(if |st.stack| < 1 then 0 else 1, st)
    case PopOp => Step(1, PopTok(st).1)
    case Clear => Step(1, st.(stack := []))
    case Dup => ExecDup(cfg, st)
  }

  // ---------------------------------------------------------------------------
  // Properties

  /** The two pops of a binary operator on two number tokens, the top one `y`
      being `dst`. */
  lemma PopNumbers(cfg: Config, st: State, s: Stack, x: U64, y: U64)
    requires st.stack == s + [NumToken(x), NumToken(y)]
    ensures PopTwo(st) == Operands(Some(NumToken(y)), Some(NumToken(x)), st.(stack := s))
    ensures GetParm(cfg, st.(stack := s), NumToken(y)) == Resolved(Some(y), st.(stack := s))
    ensures GetParm(cfg, st.(stack := s), NumToken(x)) == Resolved(Some(x), st.(stack := s))
    ensures TypeOf(st, NumToken(x)) == NumParm
  {
    assert st.stack[..|st.stack| - 2] == s;
    PushNumResolves(cfg, st.(stack := s), x);
    PushNumResolves(cfg, st.(stack := s), y);
    PushNumResolves(cfg, st, x);
  }

  /** On two numbers a binary operator pushes `dst op src`, where `dst` was
      pushed last: `a,b,-` pushes b - a. A zero divisor traps instead and
      pushes nothing; both cases return 1. */
  lemma BinaryOnNumbers(cfg: Config, st: State, s: Stack, x: U64, y: U64, b: BinOp)
    requires st.stack == s + [NumToken(x), NumToken(y)]
    ensures IsDivision(b) && x == 0 ==> ExecBinary(cfg, st, b) == Step(1, DivideByZero(st.(stack := s)))
    ensures !(IsDivision(b) && x == 0) ==> var r := ExecBinary(cfg, st, b);
      r.ret == 1 && r.st.stack == s + [NumToken(Apply(cfg, b, y, x))] && r.st == st.(stack := r.st.stack)
  {
    PopNumbers(cfg, st, s, x, y);
    var base := st.(stack := s);
    assert Resolve(cfg, PopTwo(st), DstFirst(b)) == (Some(Pair(y, x)), base);
    if !(IsDivision(b) && x == 0) {
      PushTokAppends(base, NumToken(Apply(cfg, b, y, x)));
    }
  }

  /** `<` reads its top operand as the left side and `>` as the right, so on
      two readable operands `<` and `>` agree. */
  lemma SmallerIsMirroredGreater(cfg: Config, st: State)
    requires |st.stack| >= 2
    requires IsRegOrNum(cfg, st, st.stack[|st.stack| - 1]).Some?
    requires IsRegOrNum(cfg, st, st.stack[|st.stack| - 2]).Some?
    ensures ExecTest(cfg, st, Smaller) == ExecTest(cfg, st, Compare(Greater))
    ensures ExecTest(cfg, st, Smaller).ret == 1
  {
    SmallerPops(cfg, st);
    GreaterPops(cfg, st);
  }

  /** `<` on two resolving entries pushes top < second. */
  lemma SmallerPops(cfg: Config, st: State)
    requires |st.stack| >= 2
    requires IsRegOrNum(cfg, st, st.stack[|st.stack| - 1]).Some?
    requires IsRegOrNum(cfg, st, st.stack[|st.stack| - 2]).Some?
    ensures var n := |st.stack|;
      var a, c := IsRegOrNum(cfg, st, st.stack[n - 1]).value, IsRegOrNum(cfg, st, st.stack[n - 2]).value;
      ExecSmaller(cfg, st) == Step(1, PushNum(st.(stack := st.stack[..n - 2]), if a < c then 1 else 0))
  {
    var n := |st.stack|;
    var st1 := st.(stack := st.stack[..n - 1]);
    var st2 := st.(stack := st.stack[..n - 2]);
    assert st1.stack[..|st1.stack| - 1] == st.stack[..n - 2];
    var a := IsRegOrNum(cfg, st, st.stack[n - 1]).value;
    var c := IsRegOrNum(cfg, st, st.stack[n - 2]).value;
    assert PopRN(cfg, st) == (Some(a), st1);
    assert PopRN(cfg, st1) == (Some(c), st2);
  }

  /** `>` on two resolving entries pushes second > top. */
  lemma GreaterPops(cfg: Config, st: State)
    requires |st.stack| >= 2
    requires IsRegOrNum(cfg, st, st.stack[|st.stack| - 1]).Some?
    requires IsRegOrNum(cfg, st, st.stack[|st.stack| - 2]).Some?
    ensures var n := |st.stack|;
      var a, c := IsRegOrNum(cfg, st, st.stack[n - 1]).value, IsRegOrNum(cfg, st, st.stack[n - 2]).value;
      ExecCompare(cfg, st, Greater) == Step(1, PushNum(st.(stack := st.stack[..n - 2]), if c > a then 1 else 0))
  {
    var n := |st.stack|;
    var top, second := st.stack[n - 1], st.stack[n - 2];
    var st2 := st.(stack := st.stack[..n - 2]);
    assert PopTwo(st) == Operands(Some(top), Some(second), st2);
    assert IsRegOrNum(cfg, st2, second) == IsRegOrNum(cfg, st, second);
    assert IsRegOrNum(cfg, st2, top) == IsRegOrNum(cfg, st, top);
  }

  /** `==` pushes nothing: it records `dst - src` as the flag inputs, so `%z`
      afterwards reads 1 exactly when the two numbers were equal. */
  lemma CmpSetsZero(cfg: Config, st: State, s: Stack, x: U64, y: U64)
    requires st.stack == s + [NumToken(x), NumToken(y)]
    requires NumToken(x) !in st.regs && NumToken(y) !in st.regs
    ensures ExecTest(cfg, st, Cmp) == Step(1, st.(stack := s, prev := y, cur := Sub(y, x)))
    ensures InternalRead(cfg, ExecTest(cfg, st, Cmp).st, "%z") == Some(if x == y then 1 else 0)
  {
    PopNumbers(cfg, st, s, x, y);
    SubZeroIff(y, x);
  }

  /** The state after a register update with flag inputs recorded. */
  function Updated(st: State, s: Stack, reg: string, was: U64, now: U64): State
    requires reg in st.regs
  {
    var g := st.regs[reg];
    st.(stack := s, prev := was, cur := now, lastsz := RegSize(st, reg), regs := st.regs[reg := Reg(Stored(now, g.size), g.size)])
  }

  /** The pops of a register update `src,reg,op=` whose `src` is a number
      or a register reading x. */
  lemma PopSource(cfg: Config, st: State, s: Stack, src: string, x: U64, reg: string)
    requires st.stack == s + [src, reg]
    requires TypeOf(st, src) == NumParm || TypeOf(st, src) == RegParm
    requires GetParm(cfg, st, src).v == Some(x)
    ensures PopTwo(st) == Operands(Some(reg), Some(src), st.(stack := s))
    ensures GetParm(cfg, st.(stack := s), src) == Resolved(Some(x), st.(stack := s))
    ensures TypeOf(st.(stack := s), src) != Internal
  {
    assert st.stack[..|st.stack| - 2] == s;
  }

  /** `src,reg,op=`, with `src` a number or a register reading x, writes
      `reg op x` to the register and records its old and new value and its
      size as the flag inputs; nothing else changes. */
  lemma UpdateStampsFlags(cfg: Config, st: State, s: Stack, src: string, x: U64, reg: string, b: BinOp)
    requires st.stack == s + [src, reg] && reg in st.regs
    requires TypeOf(st, src) == NumParm || TypeOf(st, src) == RegParm
    requires GetParm(cfg, st, src).v == Some(x)
    requires !(IsDivision(b) && x == 0)
    ensures ExecUpdate(cfg, st, b) ==
      Step(1, Updated(st, s, reg, st.regs[reg].value, Apply(cfg, b, st.regs[reg].value, x)))
  {
    PopSource(cfg, st, s, src, x, reg);
  }

  /** `src,reg,/=` and `src,reg,%=` with a `src` reading 0 trap, leave the
      register alone and return 1. */
  lemma UpdateDivideByZero(cfg: Config, st: State, s: Stack, src: string, reg: string, b: BinOp)
    requires st.stack == s + [src, reg] && reg in st.regs
    requires TypeOf(st, src) == NumParm || TypeOf(st, src) == RegParm
    requires GetParm(cfg, st, src).v == Some(0)
    requires IsDivision(b)
    ensures ExecUpdate(cfg, st, b) == Step(1, DivideByZero(st.(stack := s)))
  {
    PopSource(cfg, st, s, src, 0, reg);
    var o := PopTwo(st);
    assert UpdateOperands(cfg, o, DstFirst(b)) == (Some(Pair(st.regs[reg].value, 0)), st.(stack := s));
  }

  /** With a flag read as `src`, the non-shift updates keep the previous flag
      inputs; the shifts record theirs regardless. */
  lemma UpdateFromFlag(cfg: Config, st: State, s: Stack, f: string, reg: string, b: BinOp)
    requires st.stack == s + [f, reg] && reg in st.regs
    requires |f| > 1 && f[0] == INTERNAL_PREFIX
    requires InternalRead(cfg, st, f).Some?
    requires !(IsDivision(b) && InternalRead(cfg, st, f).value == 0)
    ensures var v := Apply(cfg, b, st.regs[reg].value, InternalRead(cfg, st, f).value);
      var g := st.regs[reg];
      ExecUpdate(cfg, st, b).ret == 1 &&
      ExecUpdate(cfg, st, b).st.regs == st.regs[reg := Reg(Stored(v, g.size), g.size)] &&
      (!IsShift(b) ==> ExecUpdate(cfg, st, b).st == st.(stack := s, regs := ExecUpdate(cfg, st, b).st.regs)) &&
      (IsShift(b) ==> ExecUpdate(cfg, st, b).st == Updated(st, s, reg, g.value, v))
  {
    var base := st.(stack := s);
    assert st.stack[..|st.stack| - 2] == s;
    assert PopTwo(st) == Operands(Some(reg), Some(f), base);
    assert TypeOf(base, f) == Internal;
    assert GetParm(cfg, base, f).v == InternalRead(cfg, base, f);
    assert InternalRead(cfg, base, f) == InternalRead(cfg, st, f);
  }

  /** `src,reg,=`, with `src` a number or a register reading x, stores x in
      the register, recording the old value and x as the flag inputs; it
      returns the register write's 1. */
  lemma AssignStores(cfg: Config, st: State, s: Stack, src: string, x: U64, reg: string)
    requires st.stack == s + [src, reg] && reg in st.regs
    requires TypeOf(st, src) == NumParm || TypeOf(st, src) == RegParm
    requires GetParm(cfg, st, src).v == Some(x)
    ensures ExecAssign(cfg, st) == Step(1, Updated(st, s, reg, st.regs[reg].value, x))
    ensures RegRead(ExecAssign(cfg, st).st, reg) == Some(Stored(x, st.regs[reg].size))
  {
    PopSource(cfg, st, s, src, x, reg);
  }

  /** `reg,++=` and `reg,--=` step the register by one, with the flag inputs
      recorded. */
  lemma StepEqSteps(st: State, s: Stack, reg: string, up: bool)
    requires st.stack == s + [reg] && reg in st.regs && !NumberShaped(reg)
    requires |reg| > 0 && reg[0] != INTERNAL_PREFIX
    ensures var was := st.regs[reg].value;
      ExecStepEq(st, up) == Step(1, Updated(st, s, reg, was, if up then Add(was, 1) else Sub(was, 1)))
  {
    assert st.stack[..|st.stack| - 1] == s;
  }

  /** DUP replaces the top by its value instead of copying it: the depth is
      unchanged, and a number on top stays as it is. */
  lemma DupResolvesTop(cfg: Config, st: State, s: Stack, t: string)
    requires st.stack == s + [t]
    requires GetParm(cfg, st.(stack := s), t).v.Some?
    ensures var r := ExecStack(cfg, st, Dup);
      r.ret == 1 && r.st.stack == s + [NumToken(GetParm(cfg, st.(stack := s), t).v.value)] && r.st == st.(stack := r.st.stack)
    ensures TypeOf(st, t) == NumParm && t == NumToken(NumGet(t, cfg.numOther)) ==> ExecStack(cfg, st, Dup) == Step(1, st)
  {
    var base := st.(stack := s);
    assert st.stack[..|st.stack| - 1] == s;
    assert TypeOf(base, t) != Invalid;
    var v := GetParm(cfg, base, t).v.value;
    PushTokAppends(GetParm(cfg, base, t).st, NumToken(v));
  }

  /** `?{` on a resolved zero starts skipping; on anything else the skip flag
      is left as it was. Either way it returns 1. */
  lemma IfSkipsOnZero(cfg: Config, st: State, s: Stack, t: string)
    requires st.stack == s + [t]
    requires GetParm(cfg, st.(stack := s), t).v.Some?
    ensures ExecFlow(cfg, st, If).ret == 1
    ensures ExecFlow(cfg, st, If).st.skip == (st.skip || GetParm(cfg, st.(stack := s), t).v.value == 0)
    ensures ExecFlow(cfg, st, If).st == st.(stack := s, skip := ExecFlow(cfg, st, If).st.skip)
  {
    var base := st.(stack := s);
    assert st.stack[..|st.stack| - 1] == s;
    assert TypeOf(base, t) != Invalid;
  }

  /** `code,trap,$$` raises the trap with its code, as an `int` and a `ut32`:
      the trap is the top modulo 2^32 read as two's complement, the code the
      entry below modulo 2^32. */
  lemma TrapRaises(cfg: Config, st: State, s: Stack, code: U64, trap: U64)
    requires st.stack == s + [NumToken(code), NumToken(trap)]
    requires NumToken(code) !in st.regs && NumToken(trap) !in st.regs
    ensures ExecFlow(cfg, st, Trap) == Step(1, st.(stack := s, trap := ToInt32(trap), trapCode := ToUint32(code)))
    ensures ExecFlow(cfg, st, Trap).st.trap == 0 <==> trap % 0x1_0000_0000 == 0
  {
    var n := |st.stack|;
    assert st.stack[..n - 1][..n - 2] == s;
    NumTokenRoundTrip(code, cfg.numOther);
    NumTokenRoundTrip(trap, cfg.numOther);
    assert IsDecDigit(NumToken(code)[0]) && IsDecDigit(NumToken(trap)[0]) by {
      assert NumToken(code)[0] == NumToken(code)[..2][0];
      assert NumToken(trap)[0] == NumToken(trap)[..2][0];
    }
  }

  /** `0,0x100000000,$$` leaves the trap at 0: the `int` keeps only the low
      32 bits of the popped word, so a trap number of 2^32 raises nothing. */
  lemma TrapTruncates(cfg: Config, st: State, s: Stack)
    requires st.stack == s + [NumToken(0), NumToken(0x1_0000_0000)]
    requires NumToken(0) !in st.regs && NumToken(0x1_0000_0000) !in st.regs
    ensures ExecFlow(cfg, st, Trap).ret == 1 && ExecFlow(cfg, st, Trap).st.trap == 0
  {
    TrapRaises(cfg, st, s, 0, 0x1_0000_0000);
  }

  /** `n,GOTO` sets the word index to continue at. */
  lemma GotoTargets(cfg: Config, st: State, s: Stack, n: U64)
    requires st.stack == s + [NumToken(n)]
    ensures ExecFlow(cfg, st, Goto) == Step(1, st.(stack := s, parseGoto := ToInt32(n)))
  {
    assert st.stack[..|st.stack| - 1] == s;
    PushNumResolves(cfg, st.(stack := s), n);
  }

  /** `x,!` pushes 1 for zero and 0 otherwise. */
  lemma NegPushesNot(cfg: Config, st: State, s: Stack, x: U64)
    requires st.stack == s + [NumToken(x)]
    ensures var r := ExecUnary(cfg, st, Neg);
      r.ret == 1 && r.st.stack == s + [NumToken(if x == 0 then 1 else 0)] && r.st == st.(stack := r.st.stack)
  {
    var base := st.(stack := s);
    assert st.stack[..|st.stack| - 1] == s;
    PushNumResolves(cfg, base, x);
    PushTokAppends(base, NumToken(LogicalNot(x)));
  }

  /** `reg,!=` replaces a register by 1 if it was 0 and by 0 otherwise,
      without recording flag inputs; on a token that names no register it
      pops it and returns 0. */
  lemma NegEqNegates(cfg: Config, st: State, s: Stack, t: string)
    requires st.stack == s + [t]
    ensures t in st.regs ==> var g := st.regs[t];
      ExecUnary(cfg, st, NegEq) ==
        Step(1, st.(stack := s, regs := st.regs[t := Reg(Stored(if g.value == 0 then 1 else 0, g.size), g.size)]))
    ensures t !in st.regs ==> ExecUnary(cfg, st, NegEq) == Step(0, st.(stack := s))
  {
    assert st.stack[..|st.stack| - 1] == s;
  }

  /** `x,++` and `x,--` push x plus and minus one, wrapping at 2^64. */
  lemma StepPushes(cfg: Config, st: State, s: Stack, x: U64)
    requires st.stack == s + [NumToken(x)]
    ensures ExecStep(cfg, st, true) == Step(1, PushNum(st.(stack := s), (x + 1) % WORD))
    ensures ExecStep(cfg, st, false) == Step(1, PushNum(st.(stack := s), (x + WORD - 1) % WORD))
  {
    assert st.stack[..|st.stack| - 1] == s;
    PushNumResolves(cfg, st.(stack := s), x);
    StepWraps(x);
  }

  /** On two numbers `x,y`, `<` pushes 1 or 0 for y < x. */
  lemma SmallerOnNumbers(cfg: Config, st: State, s: Stack, x: U64, y: U64)
    requires st.stack == s + [NumToken(x), NumToken(y)]
    requires NumToken(x) !in st.regs && NumToken(y) !in st.regs
    ensures ExecSmaller(cfg, st) == Step(1, PushNum(st.(stack := s), if y < x then 1 else 0))
  {
    var st1 := st.(stack := s + [NumToken(x)]);
    assert st.stack[..|st.stack| - 1] == s + [NumToken(x)];
    assert st1.stack[..|st1.stack| - 1] == s;
    PushNumResolves(cfg, st1, y);
    PushNumResolves(cfg, st.(stack := s), x);
  }

  /** On two numbers `x,y`, `>` pushes 1 or 0 for x > y, `<=` for x <= y and
      `>=` for x >= y. */
  lemma CompareOnNumbers(cfg: Config, st: State, s: Stack, x: U64, y: U64)
    requires st.stack == s + [NumToken(x), NumToken(y)]
    requires NumToken(x) !in st.regs && NumToken(y) !in st.regs
    ensures ExecCompare(cfg, st, Greater) == Step(1, PushNum(st.(stack := s), if x > y then 1 else 0))
    ensures ExecCompare(cfg, st, AtMost) == Step(1, PushNum(st.(stack := s), if x <= y then 1 else 0))
    ensures ExecCompare(cfg, st, AtLeast) == Step(1, PushNum(st.(stack := s), if x >= y then 1 else 0))
  {
    assert st.stack[..|st.stack| - 2] == s;
    PushNumResolves(cfg, st.(stack := s), x);
    PushNumResolves(cfg, st.(stack := s), y);
  }

  /** POP undoes a push, CLEAR empties the stack so that no operator finds an
      operand afterwards, and both return 1. */
  lemma StackWordsDrop(cfg: Config, st: State, t: string, b: BinOp)
    requires t != "" && |st.stack| < STACK_DEPTH
    ensures ExecStack(cfg, PushTok(st, t), PopOp) == Step(1, st)
    ensures var c := ExecStack(cfg, st, Clear);
      c == Step(1, st.(stack := [])) && ExecBinary(cfg, c.st, b).ret == 0 && ExecStack(cfg, c.st, DumpStack).ret == 0
  {
    PushTokAppends(st, t);
    var p := PushTok(st, t);
    assert p.stack[..|p.stack| - 1] == st.stack;
  }

  /** A memory operator with its bracket suffix replaced. */
  function WithSize(op: Op, z: Size): Op
    requires op.Poke? || op.MemUpdateOp? || op.Peek?
  {
    match op
    case Poke(_) => Poke(z)
    case MemUpdateOp(k, _) => MemUpdateOp(k, z)
    case Peek(_) => Peek(z)
  }

  /** The bare bracket forms are the sized forms at the analysis word size,
      `[]` being `[1]`, `[2]`, `[4]` and `[8]` at 8, 16, 32 and 64 bits, and
      they do nothing for any other size. */
  lemma NativeSize(cfg: Config, st: State, op: Op)
    requires op.Poke? || op.MemUpdateOp? || op.Peek?
    ensures cfg.bits in {8, 16, 32, 64} ==>
      Exec(cfg, st, WithSize(op, Native)) == Exec(cfg, st, WithSize(op, Sized(NativeWidth(cfg.bits).value)))
    ensures cfg.bits !in {8, 16, 32, 64} ==> Exec(cfg, st, WithSize(op, Native)) == Step(0, st)
  {
  }

  /** The evaluator's `=[n]` and `=[]` are the poke as written, which at 4
      bytes records the unmasked value in `cur` and at every other width is
      the poke with the mask kept at 64 bits. */
  lemma PokeRunsAsWritten(cfg: Config, st: State, op: Op)
    requires op.Poke? && WidthFor(cfg, op.z).Some?
    ensures Exec(cfg, st, op) == PokeNAsWritten(cfg, st, WidthFor(cfg, op.z).value)
  {
  }

}
