/** How the interpreter reads a stack token as a number: classification
    (`r_anal_esil_get_parm_type`), internal flag reads (`esil_internal_read`),
    resolution (`r_anal_esil_get_parm`) and the looser `isnum` / `isregornum`
    / `popRN` helpers some operators use instead. */
module Parm {
  import opened Words
  import opened Wrappers
  import opened Num
  import opened Flags
  import opened Machine

  /** The first character of an internal (flag) token. */
  const INTERNAL_PREFIX: char := '%'

  datatype ParmType = Invalid | Internal | NumParm | RegParm

  /** A token the classifier reads as a number: `0x` followed by anything, or
      a digit or minus sign followed only by digits. */
  predicate NumberShaped(s: string)
  {
    (|s| >= 2 && s[..2] == "0x") || (|s| >= 1 && (IsDecDigit(s[0]) || s[0] == '-') && AllDec(s[1..]))
  }

  /** `r_anal_esil_get_parm_type`. */
  function TypeOf(st: State, s: string): (r: ParmType)
    ensures r == Internal <==> |s| > 1 && s[0] == INTERNAL_PREFIX
    ensures r == NumParm <==> |s| > 0 && s[0] != INTERNAL_PREFIX && NumberShaped(s)
    ensures r == RegParm <==> |s| > 0 && s[0] != INTERNAL_PREFIX && !NumberShaped(s) && s in st.regs
  {
    if |s| == 0 then Invalid
    else if s[0] == INTERNAL_PREFIX then (if |s| > 1 then Internal else Invalid)
    else if |s| >= 2 && s[..2] == "0x" then NumParm
    else if !(IsDecDigit(s[0]) || s[0] == '-') then RegOrInvalid(st, s)
    else if !AllDec(s[1..]) then RegOrInvalid(st, s)
    else NumParm
  }

  function RegOrInvalid(st: State, s: string): ParmType
  {
    if s in st.regs then RegParm else Invalid
  }

  /** `esil_internal_read`: the character after the prefix selects a flag
      check; `%b` and `%c` take their width from the rest of the token
      (converted to `ut8`). An unknown selector reads nothing. */
  function InternalRead(cfg: Config, st: State, s: string): (r: Option<U64>)
    requires |s| > 1
    ensures r.None? <==> s[1] !in "%zbcoprs"
    ensures s[1] in "zbcops" ==> r.Some? && r.value <= 1
    ensures s[1] == '%' ==> r == Some(cfg.offset)
    ensures s[1] == 'z' ==> r == Some(if st.cur == 0 then 1 else 0)
    ensures s[1] == 'b' ==> r == Some(Borrow(st.prev, st.cur, NumGet(s[2..], cfg.numOther) % 256))
    ensures s[1] == 'c' ==> r == Some(Carry(st.prev, st.cur, NumGet(s[2..], cfg.numOther) % 256))
    ensures s[1] == 'o' ==> r == Some(Overflow(st.prev, st.cur, st.lastsz))
    ensures s[1] == 'p' ==> r == Some(Parity(st.cur))
    ensures s[1] == 'r' ==> r == Some((cfg.bits / 8) % WORD)
    ensures s[1] == 's' && st.lastsz <= 32 ==> r == SignAsWritten(st.cur, st.lastsz)
    ensures s[1] == 's' && st.lastsz > 32 ==> r == Some(Sign(st.cur, st.lastsz))
  {
    match s[1]
    case '%' => Some(cfg.offset)
    case 'z' => Some(if st.cur == 0 then 1 else 0)
    case 'b' => Some(Borrow(st.prev, st.cur, NumGet(s[2..], cfg.numOther) % 256))
    case 'c' => Some(Carry(st.prev, st.cur, NumGet(s[2..], cfg.numOther) % 256))
    case 'o' => Some(Overflow(st.prev, st.cur, st.lastsz))
    case 'p' => Some(Parity(st.cur))
    case 'r' => Some((cfg.bits / 8) % WORD)
    case 's' => Some(SignCheck(st.cur, st.lastsz))
    case _ => None
  }

  /** A resolved operand, and the state after resolving it. */
  datatype Resolved = Resolved(v: Option<U64>, st: State)

  /** `r_anal_esil_get_parm`: an invalid token also sets `parse_stop`. */
  function GetParm(cfg: Config, st: State, s: string): (r: Resolved)
    ensures TypeOf(st, s) != Invalid ==> r.st == st
    ensures TypeOf(st, s) == Invalid ==> r.v.None? && r.st == st.(parseStop := 1)
    ensures TypeOf(st, s) == NumParm ==> r.v == Some(NumGet(s, cfg.numOther))
    ensures TypeOf(st, s) == RegParm ==> r.v == Some(st.regs[s].value)
  {
    match TypeOf(st, s)
    case Internal => Resolved(InternalRead(cfg, st, s), st)
    case NumParm => Resolved(Some(NumGet(s, cfg.numOther)), st)
    case RegParm => Resolved(RegRead(st, s), st)
    case Invalid =>
      Resolved(None, st.(parseStop := 1))
  }

  /** `isnum`: a token starting with a digit is read with `r_num_get`. */
  function IsNum(cfg: Config, s: string): (r: Option<U64>)
    ensures r.Some? <==> |s| > 0 && IsDecDigit(s[0])
  {
    if |s| > 0 && IsDecDigit(s[0]) then Some(NumGet(s, cfg.numOther)) else None
  }

  /** `isregornum`: a register value, else a number. */
  function IsRegOrNum(cfg: Config, st: State, s: string): (r: Option<U64>)
    ensures s in st.regs ==> r == Some(st.regs[s].value)
    ensures s !in st.regs ==> r == IsNum(cfg, s)
  {
    match RegRead(st, s)
    case Some(v) => Some(v)
    case None => IsNum(cfg, s)
  }

  /** `popRN`: pop a token and read it as a register or a number. */
  function PopRN(cfg: Config, st: State): (r: (Option<U64>, State))
    ensures |st.stack| == 0 ==> r == (None, st)
    ensures |st.stack| > 0 ==> r.1 == st.(stack := st.stack[..|st.stack| - 1])
    ensures |st.stack| > 0 ==> r.0 == IsRegOrNum(cfg, st, st.stack[|st.stack| - 1])
  {
    var (tok, st1) := PopTok(st);
    if tok.None? then (None, st1) else (IsRegOrNum(cfg, st1, tok.value), st1)
  }

  // ---------------------------------------------------------------------------
  // Properties

  /** Every token pushnum writes classifies as a number and resolves to the
      value it was made from, without touching the state. */
  lemma PushNumResolves(cfg: Config, st: State, v: U64)
    ensures TypeOf(st, NumToken(v)) == NumParm
    ensures GetParm(cfg, st, NumToken(v)) == Resolved(Some(v), st)
    ensures IsRegOrNum(cfg, st, NumToken(v)) == Some(v) || NumToken(v) in st.regs
  {
    var t := NumToken(v);
    assert t[..2] == "0x";
    NumTokenRoundTrip(v, cfg.numOther);
  }

  /** The looser reading agrees with resolution on registers. */
  lemma RegisterReadsAgree(cfg: Config, st: State, s: string)
    requires TypeOf(st, s) == RegParm
    ensures GetParm(cfg, st, s).v == IsRegOrNum(cfg, st, s)
  {
  }

  /** A lone prefix and the empty token are invalid, and resolving them stops
      the parse. */
  lemma InvalidStops(cfg: Config, st: State, s: string)
    requires s == "" || s == [INTERNAL_PREFIX]
    ensures TypeOf(st, s) == Invalid
    ensures GetParm(cfg, st, s) == Resolved(None, st.(parseStop := 1))
  {
  }

  /** A decimal token below 2^64 resolves to its decimal value. */
  lemma DecimalResolves(cfg: Config, st: State, s: string)
    requires |s| > 0 && AllDec(s) && ParseDec(s) < WORD
    ensures TypeOf(st, s) == NumParm
    ensures GetParm(cfg, st, s).v == Some(ParseDec(s))
  {
    assert IsDecDigit(s[0]);
    assert AllDec(s[1..]);
    DecimalRead(s, cfg.numOther);
  }
  /** `%s` reads the C sign check: up to width 31 it is bit lastsz - 1 of
      `cur`; at width 32 it is 1 whenever `cur` is 2^31 or more, so a
      32-bit result that carried into bit 32 reads as negative. */
  lemma SignRead(cfg: Config, st: State)
    ensures st.lastsz <= 31 ==> InternalRead(cfg, st, "%s") == Some(Sign(st.cur, st.lastsz))
    ensures st.lastsz == 32 ==> InternalRead(cfg, st, "%s") == Some(if st.cur >= 0x8000_0000 then 1 else 0)
  {
    if st.lastsz <= 31 {
      SignAsWrittenAgrees(st.cur, st.lastsz);
    } else if st.lastsz == 32 {
      SignAsWrittenAt32(st.cur);
    }
  }
}
