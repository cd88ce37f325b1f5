/** Evaluation of an ESIL string: `r_anal_esil_parse` runs the parse loop
    with `runword`, which either runs the operator registered under a word
    or pushes the word; `r_anal_esil_condition` parses a string and reads
    the result off the stack. */
module Eval {
  import opened Words
  import opened Wrappers
  import opened Num
  import opened Machine
  import opened Parm
  import opened Ops
  import opened Scan

  // ---------------------------------------------------------------------------
  // One word

  /** `runword` once the budget unit is paid. `}{` and `}` toggle and end
      the skipping of a conditional branch, during which every other word is
      dropped. A registered word runs its operator; an empty word, or one
      starting with `,`, is dropped; any other word is pushed, and a full
      stack traps. */
  function Dispatch(cfg: Config, st: State, w: string): (r: Step)
    ensures w == "}{" ==> r == Step(1, st.(skip := !st.skip))
    ensures w == "}" ==> r == Step(1, st.(skip := false))
    ensures w != "}{" && w != "}" && st.skip ==> r == Step(1, st)
  {
    if w == "}{" then Step(1, st.(skip := !st.skip))
    else if w == "}" then Step(1, st.(skip := false))
    else if st.skip then Step(1, st)
    else match Lookup(w)
      case Some(op) => Exec(cfg, st, op)
      case None =>
        if w == "" || w[0] == ',' then Step(1, st)
        else match Push(st.stack, w)
          case None => Step(1, st.(trap := 1, trapCode := 1))
          case Some(stack) => Step(1, st.(stack := stack))
  }

  /** What the parse loop runs for each word. */
  function Runner(cfg: Config): WordRunner
  {
    (t: State, w: string) => Dispatch(cfg, t, w)
  }

  // ---------------------------------------------------------------------------
  // Parsing

  /** The word budget of a parse: `esil_goto_limit`, none if it is not
      positive. */
  function Budget(cfg: Config): nat
  {
    if cfg.gotoLimit < 0 then 0 else cfg.gotoLimit
  }

  /** The state a parse starts from: trap cleared, no skipping, no pending
      jump or stop. */
  function Begin(st: State): State
  {
    st.(trap := 0, skip := false, parseGoto := -1, parseStop := 0)
  }

  /** `r_anal_esil_parse` as written: it either returns one of its codes
      or reads past the end of the string. */
  function ParseAsWritten(cfg: Config, st: State, s: string): (r: Outcome)
    ensures r.Finished? ==> r.code in {-1, 0, 1}
  {
    ScanWith(Runner(cfg), s, 0, "", Budget(cfg), Begin(st), true)
  }

  /** `r_anal_esil_parse` with a trailing separator ending the string. */
  function Parse(cfg: Config, st: State, s: string): (r: Outcome)
    ensures r.Finished? && r.code in {-1, 0, 1}
  {
    ScanWith(Runner(cfg), s, 0, "", Budget(cfg), Begin(st), false)
  }

  /** A reading that is a number other than zero. */
  predicate Truthy(v: Option<U64>) { v.Some? && v.value != 0 }

  /** The string after its leading blanks. */
  function Unblank(s: string): (r: string)
    ensures |r| == 0 || r[0] != ' '
    ensures |r| <= |s| && r == s[|s| - |r|..]
    ensures forall j :: 0 <= j < |s| - |r| ==> s[j] == ' '
  {
    if |s| > 0 && s[0] == ' ' then Unblank(s[1..]) else s
  }

  /** The truth value `r_anal_esil_condition` reads off the stack a parse
      leaves: -1 if it is empty, else 1 if the top reads as a register or
      number other than zero and 0 if it does not; the top is popped. */
  function ReadTop(cfg: Config, after: State): (r: (int, State))
    ensures r.1 == PopTok(after).1
    ensures r.0 == -1 <==> |after.stack| == 0
    ensures r.0 == 1 <==> |after.stack| > 0 && Truthy(IsRegOrNum(cfg, after, after.stack[|after.stack| - 1]))
    ensures r.0 in {-1, 0, 1}
  {
    var (top, st1) := PopTok(after);
    match top
    case None => (-1, st1)
    case Some(t) =>
      match IsRegOrNum(cfg, st1, t)
      case Some(v) => (if v != 0 then 1 else 0, st1)
      case None => (0, st1)
  }

  /** `r_anal_esil_condition`: skip the leading blanks, parse the rest and
      read the top of the stack it leaves. */
  function Condition(cfg: Config, st: State, s: string): (r: (int, State))
    ensures r == ReadTop(cfg, Parse(cfg, st, Unblank(s)).st)
  {
    if |s| > 0 && s[0] == ' ' then
      assert Unblank(s) == Unblank(s[1..]);
      Condition(cfg, st, s[1..])
    else
      assert Unblank(s) == s;
      ReadTop(cfg, Parse(cfg, st, s).st)
  }

  // ---------------------------------------------------------------------------
  // What words do

  /** A word `runword` pushes: not registered, not empty, not a brace. */
  predicate Pushable(w: string)
  {
    Lookup(w).None? && w != "" && w[0] != ',' && w != "}" && w != "}{"
  }

  /** A pushable word the loop reads whole. */
  predicate ValueWord(w: string)
  {
    Pushable(w) && Readable(w)
  }

  /** A word that is neither registered nor empty is pushed; on a full stack
      the push fails and raises the trap with code 1, and the word still
      returns 1. */
  lemma DispatchPushes(cfg: Config, st: State, w: string)
    requires !st.skip && Pushable(w)
    ensures |st.stack| < STACK_DEPTH ==> var r := Dispatch(cfg, st, w);
      r.ret == 1 && r.st.stack == st.stack + [w] && r.st == st.(stack := r.st.stack) && r.st == PushTok(st, w)
    ensures |st.stack| == STACK_DEPTH ==> Dispatch(cfg, st, w) == Step(1, st.(trap := 1, trapCode := 1))
  {
    if |st.stack| < STACK_DEPTH {
      PushTokAppends(st, w);
    }
  }

  /** A registered word runs its operator. */
  lemma DispatchRunsOperator(cfg: Config, st: State, w: string, op: Op)
    requires !st.skip && w != "}" && w != "}{" && Lookup(w) == Some(op)
    ensures Dispatch(cfg, st, w) == Exec(cfg, st, op)
  {
  }

  /** The empty word, which `,,` hands to `runword`, does nothing. */
  lemma EmptyWordIsDropped(cfg: Config)
    ensures forall t: State :: Runner(cfg)(t, "") == Step(1, t)
  {
    forall t: State ensures Runner(cfg)(t, "") == Step(1, t) {
      assert Lookup("") == None;
    }
  }

  /** Pushing and popping one token leaves the state as it was. */
  lemma PushPop(st: State, tok: string)
    requires tok != "" && |st.stack| < STACK_DEPTH
    ensures PopTok(PushTok(st, tok)) == (Some(tok), st)
  {
    PushTokAppends(st, tok);
    var t := PushTok(st, tok);
    assert t.stack[..|t.stack| - 1] == st.stack;
  }

  /** `GOTO` after a pushed number pops it and records it, as a 32-bit
      value, as the word to continue at. */
  lemma GotoRuns(cfg: Config, st: State, w: string, g: string)
    requires !st.skip && w != "" && |st.stack| < STACK_DEPTH
    requires TypeOf(st, w) == NumParm && g == Token(Flow(Goto))
    ensures Dispatch(cfg, PushTok(st, w), g) == Step(1, st.(parseGoto := ToInt32(NumGet(w, cfg.numOther))))
  {
    LookupToken(Flow(Goto));
    PushPop(st, w);
  }

  /** `?{` after a pushed number pops it and skips exactly when it is 0. */
  lemma IfRuns(cfg: Config, st: State, c: string, g: string)
    requires !st.skip && c != "" && |st.stack| < STACK_DEPTH
    requires TypeOf(st, c) == NumParm && g == Token(Flow(If))
    ensures Dispatch(cfg, PushTok(st, c), g) == Step(1, st.(skip := NumGet(c, cfg.numOther) == 0))
  {
    LookupToken(Flow(If));
    PushPop(st, c);
  }

  /** The tokens pushnum writes are value words. */
  lemma NumTokenPushable(v: U64)
    ensures ValueWord(NumToken(v))
  {
    var t := NumToken(v);
    var h := ToHex(v);
    assert t[0] == t[..2][0] == '0';
    assert t[|t| - 1] == h[|h| - 1];
    assert t[|t| - 1] in HEX_DIGITS;
    DigitIsNoOp(t);
    NumTokenLength(v);
    forall j | 0 <= j < |t| ensures !IsSeparator(t[j]) {
      if j >= 2 {
        assert t[j] == h[j - 2];
      } else {
        assert t[j] == t[..2][j];
      }
    }
  }

  /** A value word, with the budget not yet spent, is pushed and asks for
      nothing else. */
  lemma PushesStraight(cfg: Config, w: string, b: nat, st: State)
    requires ValueWord(w) && b >= 2 && !st.skip && |st.stack| < STACK_DEPTH
    requires st.parseGoto == -1 && st.parseStop == 0
    ensures RunWord(Runner(cfg), st, b, w) == Ran(1, b - 1, PushTok(st, w))
    ensures Straight(Runner(cfg), [w], b, st) && After(Runner(cfg), [w], b, st) == PushTok(st, w)
  {
    DispatchPushes(cfg, st, w);
    PushTokAppends(st, w);
    assert [w][1..] == [];
  }

  // ---------------------------------------------------------------------------
  // Properties of parses

  /** A word that reaches 63 characters with more of the string to come makes
      the parse fail with -1 before anything runs. */
  lemma LongWordRejected(cfg: Config, st: State, s: string)
    requires |s| > MAX_WORD + 1
    requires forall j :: 0 <= j <= MAX_WORD ==> !IsSeparator(s[j])
    ensures Parse(cfg, st, s) == Finished(-1, Begin(st))
    ensures ParseAsWritten(cfg, st, s) == Finished(-1, Begin(st))
  {
    Scan.LongWordRejected(Runner(cfg), s, Budget(cfg), Begin(st), false);
    Scan.LongWordRejected(Runner(cfg), s, Budget(cfg), Begin(st), true);
  }

  /** The limit is checked only before another character: a 63-character
      string without separators is read whole as one word and pushed. */
  lemma LongWordAtEnd(cfg: Config, st: State, s: string)
    requires |s| == MAX_WORD + 1 && Budget(cfg) >= 2 && |st.stack| < STACK_DEPTH
    requires forall j :: 0 <= j < |s| ==> !IsSeparator(s[j])
    ensures Parse(cfg, st, s).code == 1 && Parse(cfg, st, s).st.stack == st.stack + [s]
  {
    var run := Runner(cfg);
    var b := Budget(cfg);
    Accumulate(run, s, 0, |s|, "", b, Begin(st), false);
    assert "" + s[0..|s|] == s;
    LongIsNoOp(s);
    DispatchPushes(cfg, Begin(st), s);
    AtEnd(run, s, s, b, Begin(st), false, RunWord(run, Begin(st), b, s));
  }

  /** `;` ends the parse with 0 after the word before it: in `w;rest` the
      rest is never read. */
  lemma SemicolonStops(cfg: Config, st: State, w: string, rest: string)
    requires ValueWord(w) && (|rest| == 0 || rest[0] != ',')
    requires Budget(cfg) >= 2 && |st.stack| < STACK_DEPTH
    ensures var r := Parse(cfg, st, w + ";" + rest);
      r.code == 0 && r.st.stack == st.stack + [w] && r.st == Begin(st).(stack := r.st.stack)
  {
    PushesStraight(cfg, w, Budget(cfg), Begin(st));
    Scan.SemicolonStops(Runner(cfg), w, rest, Budget(cfg), Begin(st), false);
    PushTokAppends(Begin(st), w);
  }

  /** `BREAK` and `TODO` end the parse with 0 right after them, whatever
      follows, with `parse_stop` set to 1 and 2 and nothing else changed. */
  lemma StopWordStops(cfg: Config, st: State, f: FlowOp, rest: string)
    requires f == Break || f == Todo
    requires (|rest| == 0 || rest[0] != ',') && Budget(cfg) >= 2
    ensures var r := Begin(st).(parseStop := if f == Break then 1 else 2);
      Parse(cfg, st, Token(Flow(f)) + "," + rest) == Finished(0, r)
      && ParseAsWritten(cfg, st, Token(Flow(f)) + "," + rest) == Finished(0, r)
  {
    var w := Token(Flow(f));
    LookupToken(Flow(f));
    assert Readable(w);
    assert Runner(cfg)(Begin(st), w) == ExecFlow(cfg, Begin(st), f);
    Scan.StopsAfter(Runner(cfg), w, rest, Budget(cfg), Begin(st), false);
    Scan.StopsAfter(Runner(cfg), w, rest, Budget(cfg), Begin(st), true);
  }

  /** `w,,rest` never gets past its second comma: `,,` makes the loop hand
      empty words to `runword` until the budget runs out, whatever
      follows. */
  lemma DoubleComma(cfg: Config, st: State, w: string, rest: string)
    requires ValueWord(w)
    ensures var r := Parse(cfg, st, w + ",," + rest); r.code == 0 && r.st.trap == 1 && r.st.parseStop == 1
  {
    var b := Budget(cfg);
    EmptyWordIsDropped(cfg);
    Scan.DoubleComma(Runner(cfg), w, rest, b, Begin(st), false);
    if b >= 2 {
      DispatchPushes(cfg, Begin(st), w);
      assert RunWord(Runner(cfg), Begin(st), b, w).ret == 1;
    }
  }

  /** `w,GOTO` with a number w reading 0 jumps back to its first word until
      the budget, which the jump never resets, ends it with a trap and
      return code 0. */
  lemma GotoZeroSpins(cfg: Config, st: State, w: string)
    requires ValueWord(w) && TypeOf(st, w) == NumParm && NumGet(w, cfg.numOther) == 0
    requires |st.stack| < STACK_DEPTH
    ensures var r := Parse(cfg, st, w + ",GOTO"); r.code == 0 && r.st.trap == 1
  {
    var st0 := Begin(st);
    var g := "GOTO";
    assert g == Token(Flow(Goto));
    DispatchPushes(cfg, st0, w);
    GotoRuns(cfg, st0, w, g);
    assert ToInt32(0) == 0;
    assert Readable(g);
    var run := Runner(cfg);
    var st1 := PushTok(st0, w);
    assert run(st0, w) == Step(1, st1);
    assert run(st1, g) == Step(1, st0.(parseGoto := 0));
    assert Loops(run, w + "," + g, w, g, st0, st1);
    assert w + "," + g == w + ",GOTO";
    LoopTraps(Runner(cfg), w + "," + g, w, g, Budget(cfg), st0, PushTok(st0, w), false);
  }

  /** The parse of `0,GOTO`: it terminates, trapping. */
  lemma GotoZeroTraps(cfg: Config, st: State)
    requires |st.stack| < STACK_DEPTH
    ensures var r := Parse(cfg, st, "0,GOTO"); r.code == 0 && r.st.trap == 1
  {
    DigitIsNoOp("0");
    DecimalResolves(cfg, st, "0");
    assert "0" + ",GOTO" == "0,GOTO";
    GotoZeroSpins(cfg, st, "0");
  }

  /** `c,?{,v,}` with a number c: v is pushed when c is not 0 and skipped
      when it is, `}` ends the skipping, and the parse ends with 1 either
      way. */
  lemma ConditionalBranch(cfg: Config, st: State, c: string, v: string)
    requires ValueWord(c) && ValueWord(v) && TypeOf(st, c) == NumParm
    requires Budget(cfg) >= 5 && |st.stack| < STACK_DEPTH
    ensures var r := Parse(cfg, st, c + ",?{," + v + ",}");
      r.code == 1 && r.st.stack == (if NumGet(c, cfg.numOther) == 0 then st.stack else st.stack + [v])
      && r.st == Begin(st).(stack := r.st.stack)
  {
    var ws := [c, "?{", v, "}"];
    JoinFour(c, "?{", v, "}");
    assert c + "," + "?{" + "," + v + "," + "}" == c + ",?{," + v + ",}";
    BranchStraight(cfg, st, c, v);
    forall i | 0 <= i < |ws| ensures Readable(ws[i]) {
    }
    StraightParse(Runner(cfg), ws, Budget(cfg), Begin(st), false);
    PushTokAppends(Begin(st).(skip := NumGet(c, cfg.numOther) == 0), v);
  }

  /** The words of `c,?{,v,}` run straight through. */
  lemma BranchStraight(cfg: Config, st: State, c: string, v: string)
    requires ValueWord(c) && ValueWord(v) && TypeOf(st, c) == NumParm
    requires Budget(cfg) >= 5 && |st.stack| < STACK_DEPTH
    ensures var run := Runner(cfg); var b := Budget(cfg); var st0 := Begin(st);
      var st2 := st0.(skip := NumGet(c, cfg.numOther) == 0);
      var st3 := if st2.skip then st2 else PushTok(st2, v);
      Straight(run, [c, "?{", v, "}"], b, st0) && After(run, [c, "?{", v, "}"], b, st0) == st3.(skip := false)
  {
    var st0 := Begin(st);
    var st2 := st0.(skip := NumGet(c, cfg.numOther) == 0);
    var st3 := if st2.skip then st2 else PushTok(st2, v);
    BranchWords(cfg, st, c, v);
    StraightFour(Runner(cfg), c, "?{", v, "}", Budget(cfg), st0, PushTok(st0, c), st2, st3, st3.(skip := false));
  }

  /** The four words of `c,?{,v,}` one by one. */
  lemma BranchWords(cfg: Config, st: State, c: string, v: string)
    requires ValueWord(c) && ValueWord(v) && TypeOf(st, c) == NumParm
    requires Budget(cfg) >= 5 && |st.stack| < STACK_DEPTH
    ensures var run := Runner(cfg); var b := Budget(cfg); var st0 := Begin(st);
      var st2 := st0.(skip := NumGet(c, cfg.numOther) == 0);
      var st3 := if st2.skip then st2 else PushTok(st2, v);
      RunWord(run, st0, b, c) == Ran(1, b - 1, PushTok(st0, c))
      && RunWord(run, PushTok(st0, c), b - 1, "?{") == Ran(1, b - 2, st2)
      && RunWord(run, st2, b - 2, v) == Ran(1, b - 3, st3)
      && RunWord(run, st3, b - 3, "}") == Ran(1, b - 4, st3.(skip := false))
  {
    var st0 := Begin(st);
    var st2 := st0.(skip := NumGet(c, cfg.numOther) == 0);
    DispatchPushes(cfg, st0, c);
    IfRuns(cfg, st0, c, "?{");
    if !st2.skip {
      DispatchPushes(cfg, st2, v);
    }
  }

  /** As written, `w,` reads past the end of the string once w has run; the
      corrected parse ends there with 1, w pushed. */
  lemma TrailingSeparator(cfg: Config, st: State, w: string)
    requires ValueWord(w) && Budget(cfg) >= 2 && |st.stack| < STACK_DEPTH
    ensures ParseAsWritten(cfg, st, w + ",").Overrun?
    ensures var r := Parse(cfg, st, w + ","); r.code == 1 && r.st.stack == st.stack + [w]
  {
    PushesStraight(cfg, w, Budget(cfg), Begin(st));
    Scan.TrailingSeparator(Runner(cfg), w, Budget(cfg), Begin(st));
    PushTokAppends(Begin(st), w);
  }

  /** Whenever the parse as written ends, the corrected parse ends the same
      way; it overruns only on a string ending in `,`. */
  lemma ParseAgrees(cfg: Config, st: State, s: string)
    ensures ParseAsWritten(cfg, st, s).Finished? ==> Parse(cfg, st, s) == ParseAsWritten(cfg, st, s)
    ensures ParseAsWritten(cfg, st, s).Overrun? ==> |s| > 0 && s[|s| - 1] == ','
  {
    AsWrittenAgrees(Runner(cfg), s, 0, "", Budget(cfg), Begin(st));
  }

  // ---------------------------------------------------------------------------
  // Conditions

  /** Leading blanks are skipped. */
  lemma ConditionSkipsBlanks(cfg: Config, st: State, s: string)
    ensures Condition(cfg, st, " " + s) == Condition(cfg, st, s)
  {
    assert (" " + s)[1..] == s;
  }

  /** With nothing on the stack after the parse, the condition is -1 and
      the state is the parse's. */
  lemma ConditionOnEmpty(cfg: Config, st: State, s: string)
    requires |s| == 0 || s[0] != ' '
    requires Parse(cfg, st, s).st.stack == []
    ensures Condition(cfg, st, s) == (-1, Parse(cfg, st, s).st)
  {
  }

  /** A register left on top of the stack is true exactly when its value is
      not zero. */
  lemma ConditionReadsRegister(cfg: Config, st: State, s: string, rest: seq<string>, reg: string)
    requires |s| == 0 || s[0] != ' '
    requires Parse(cfg, st, s).st.stack == rest + [reg]
    requires reg in Parse(cfg, st, s).st.regs
    ensures Condition(cfg, st, s).0 == (if Parse(cfg, st, s).st.regs[reg].value != 0 then 1 else 0)
  {
    var after := Parse(cfg, st, s).st;
    assert PopTok(after).1.regs == after.regs;
  }

  /** A top that reads as neither register nor number, such as an unknown
      name, is false. */
  lemma ConditionOnName(cfg: Config, st: State, s: string, rest: seq<string>, t: string)
    requires |s| == 0 || s[0] != ' '
    requires Parse(cfg, st, s).st.stack == rest + [t]
    requires t !in Parse(cfg, st, s).st.regs && (|t| == 0 || !IsDecDigit(t[0]))
    ensures Condition(cfg, st, s).0 == 0
  {
    var after := Parse(cfg, st, s).st;
    assert PopTok(after).1.regs == after.regs;
  }

  /** A number left on top of the stack is true exactly when it is not
      zero. */
  lemma ConditionReadsTop(cfg: Config, st: State, s: string, rest: seq<string>, v: U64)
    requires |s| == 0 || s[0] != ' '
    requires Parse(cfg, st, s).st.stack == rest + [NumToken(v)]
    requires NumToken(v) !in Parse(cfg, st, s).st.regs
    ensures Condition(cfg, st, s).0 == (if v != 0 then 1 else 0)
  {
    var after := Parse(cfg, st, s).st;
    var st1 := PopTok(after).1;
    assert st1.regs == after.regs;
    NumTokenRoundTrip(v, cfg.numOther);
    var t := NumToken(v);
    assert IsDecDigit(t[0]) by { assert t[0] == t[..2][0]; }
  }

  /** `c,?{,v,}` read as a condition: with a number v on top when c is not
      0, the truth of v; with an empty stack and c being 0, -1. */
  lemma ConditionOfBranch(cfg: Config, st: State, c: string, x: U64)
    requires ValueWord(c) && TypeOf(st, c) == NumParm
    requires Budget(cfg) >= 5 && st.stack == [] && c[0] != ' '
    ensures var v := NumToken(x); var r := Condition(cfg, st, c + ",?{," + v + ",}").0;
      (NumGet(c, cfg.numOther) == 0 ==> r == -1)
      && (NumGet(c, cfg.numOther) != 0 && v !in st.regs ==> r == (if x != 0 then 1 else 0))
  {
    var v := NumToken(x);
    var s := c + ",?{," + v + ",}";
    NumTokenPushable(x);
    ConditionalBranch(cfg, st, c, v);
    assert s[0] == c[0];
    if NumGet(c, cfg.numOther) != 0 && v !in st.regs {
      assert Parse(cfg, st, s).st.stack == [] + [v];
      ConditionReadsTop(cfg, st, s, [], x);
    }
  }
}
