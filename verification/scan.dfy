/** The parse loop of `r_anal_esil_parse`, independent of what a word does:
    splitting the string into words at `,` and `;`, the word budget that
    `runword` charges, `gotoWord` and `evalWord`. The loop is given the rest
    of `runword` (running an operator or pushing the word) as a function. */
module Scan {
  import opened Wrappers
  import opened Machine

  /** The longest word the parser accepts before another character. */
  const MAX_WORD := 62

  predicate IsSeparator(c: char) { c == ',' || c == ';' }

  /** What a word does once its budget unit is paid: the rest of `runword`. */
  type WordRunner = (State, string) -> Step

  // ---------------------------------------------------------------------------
  // One word

  /** The result of a word: the return code, the words left in the budget
      (`parse_goto_count`) and the state. */
  datatype Ran = Ran(ret: int, budget: nat, st: State)

  /** `runword`: every word costs one unit of the budget, and when none is
      left the word traps and stops the parse instead of running. */
  function RunWord(run: WordRunner, st: State, b: nat, w: string): (r: Ran)
    ensures b <= 1 ==> r == Ran(0, 0, st.(trap := 1, parseStop := 1))
    ensures r.ret != 0 ==> b >= 2 && r.budget == b - 1
  {
    if b <= 1 then Ran(0, 0, st.(trap := 1, parseStop := 1))
    else Ran(run(st, w).ret, b - 1, run(st, w).st)
  }

  // ---------------------------------------------------------------------------
  // Jumps

  /** The number of commas at positions 1 .. hi - 1 of s (the first character
      is never counted). */
  function Commas(s: string, hi: nat): nat
    requires hi <= |s|
  {
    if hi <= 1 then 0 else Commas(s, hi - 1) + (if s[hi - 1] == ',' then 1 else 0)
  }

  lemma {:induction false} CommasMono(s: string, lo: nat, hi: nat)
    requires lo <= hi <= |s|
    ensures Commas(s, lo) <= Commas(s, hi)
    decreases hi - lo
  {
    if lo < hi {
      CommasMono(s, lo, hi - 1);
    }
  }

  /** The loop of `gotoWord` at character i, having counted `count` commas,
      the last of them ending just before `start`. */
  function GotoFrom(s: string, i: nat, start: nat, count: nat, n: int): (r: Option<nat>)
    requires i < |s| && count == Commas(s, i + 1) && start <= i + 1
    requires count == 0 ==> start == 0
    requires count > 0 ==> 2 <= start && s[start - 1] == ',' && Commas(s, start) == count
    ensures n < count ==> r.None?
    ensures n >= count ==> (r.Some? <==> Commas(s, |s|) >= n)
    ensures r.Some? && n == 0 ==> r.value == 0
    ensures r.Some? && n > 0 ==> 2 <= r.value <= |s| && s[r.value - 1] == ',' && Commas(s, r.value) == n
    decreases |s| - i
  {
    if count == n then
      CommasMono(s, i + 1, |s|);
      Some(start)
    else if i + 1 == |s| then None
    else if s[i + 1] == ',' then GotoFrom(s, i + 1, i + 2, count + 1, n)
    else GotoFrom(s, i + 1, start, count, n)
  }

  /** `gotoWord`: where the word after the n-th comma starts (word 0 starts
      the string); nothing if there are fewer commas. */
  function GotoWord(s: string, n: int): (r: Option<nat>)
    ensures n < 0 ==> r.None?
    ensures n == 0 ==> r == (if |s| > 0 then Some(0) else None)
    ensures n > 0 ==> (r.Some? <==> Commas(s, |s|) >= n)
    ensures r.Some? && n > 0 ==> 2 <= r.value <= |s| && s[r.value - 1] == ',' && Commas(s, r.value) == n
  {
    if |s| == 0 then None else GotoFrom(s, 0, 0, 0, n)
  }

  // ---------------------------------------------------------------------------
  // After a word

  /** What `evalWord` tells the parse loop: run the separator again
      (code 2 on `,,`), continue at another word (code 2 after GOTO), stop
      (code 1), or go on (code 3). */
  datatype Action = Again | Jump(to: nat) | Stop | Go

  /** `evalWord` with the scan at position p (on a separator, or at the end). */
  function EvalWord(s: string, p: nat, st: State): (r: (Action, State))
    requires p <= |s|
    ensures r.0.Jump? ==> r.0.to <= |s| && r.1 == st.(parseGoto := -1) && st.parseGoto != -1
    ensures !r.0.Jump? ==> r.1 == st
    ensures r.0 == Again <==> p + 1 < |s| && s[p + 1] == ','
    ensures r.0 == Go <==> !(p + 1 < |s| && s[p + 1] == ',') && st.parseGoto == -1 && st.parseStop == 0
  {
    if p + 1 < |s| && s[p + 1] == ',' then (Again, st)
    else if st.parseGoto != -1 then
      match GotoWord(s, st.parseGoto)
      case Some(q) => (Jump(q), st.(parseGoto := -1))
      case None => (Stop, st)
    else if st.parseStop != 0 then (Stop, st)
    else (Go, st)
  }

  // ---------------------------------------------------------------------------
  // The parse loop

  /** How a parse ends: with the return code of `r_anal_esil_parse`, or by
      reading past the end of the string. */
  datatype Outcome = Finished(code: int, st: State) | Overrun(st: State)

  /** The parse loop at position p with the word read so far. After a word
      ended by a separator the loop skips the separator and appends the
      character after it to the next word unconditionally; `asWritten`
      selects what happens when there is no such character: reading past
      the end of the string as the C code does, or ending the parse as if
      the string had ended there. */
  function ScanWith(run: WordRunner, s: string, p: nat, word: string, b: nat, st: State, asWritten: bool): (r: Outcome)
    requires p <= |s|
    ensures !asWritten ==> r.Finished?
    ensures r.Finished? ==> r.code in {-1, 0, 1}
    decreases b, |s| - p
  {
    if p == |s| then
      if word == "" then Finished(1, st)
      else
        var ran := RunWord(run, st, b, word);
        if ran.ret == 0 then Finished(0, ran.st)
        else
          var (action, st1) := EvalWord(s, p, ran.st);
          match action
          case Jump(q) => ScanWith(run, s, q, "", ran.budget, st1, asWritten)
          case Stop => Finished(0, st1)
          case _ => Finished(1, st1)
    else if |word| > MAX_WORD then Finished(-1, st)
    else if IsSeparator(s[p]) then
      var ran := RunWord(run, st, b, word);
      if ran.ret == 0 then Finished(0, ran.st)
      else
        var (action, st1) := EvalWord(s, p, ran.st);
        match action
        case Again => ScanWith(run, s, p, "", ran.budget, st1, asWritten)
        case Jump(q) => ScanWith(run, s, q, "", ran.budget, st1, asWritten)
        case Stop => Finished(0, st1)
        case Go =>
          if s[p] == ';' then Finished(0, st1)
          else if p + 1 == |s| then (if asWritten then Overrun(st1) else Finished(1, st1))
          else ScanWith(run, s, p + 2, [s[p + 1]], ran.budget, st1, asWritten)
    else ScanWith(run, s, p + 1, word + [s[p]], b, st, asWritten)
  }

  // ---------------------------------------------------------------------------
  // Words in a row

  /** A word the loop reads whole: not empty, no separator, short enough. */
  predicate Readable(w: string)
  {
    0 < |w| <= MAX_WORD && forall j :: 0 <= j < |w| ==> !IsSeparator(w[j])
  }

  /** Words joined by commas. */
  function Join(ws: seq<string>): string
    requires |ws| > 0
  {
    if |ws| == 1 then ws[0] else ws[0] + "," + Join(ws[1..])
  }

  lemma JoinFour(a: string, b: string, c: string, d: string)
    ensures Join([a, b, c, d]) == a + "," + b + "," + c + "," + d
  {
    var ws := [a, b, c, d];
    assert ws[1..] == [b, c, d] && [b, c, d][1..] == [c, d] && [c, d][1..] == [d];
    assert Join([c, d]) == c + "," + d;
    assert Join([b, c, d]) == b + "," + (c + "," + d);
  }

  /** Each word, run in turn, returns non-zero and asks for no jump or stop. */
  predicate Straight(run: WordRunner, ws: seq<string>, b: nat, st: State)
    decreases |ws|
  {
    |ws| == 0 ||
    (var r := RunWord(run, st, b, ws[0]);
     r.ret != 0 && r.st.parseGoto == -1 && r.st.parseStop == 0 && Straight(run, ws[1..], r.budget, r.st))
  }

  /** The state after running the words in turn. */
  function After(run: WordRunner, ws: seq<string>, b: nat, st: State): State
    decreases |ws|
  {
    if |ws| == 0 then st
    else
      var r := RunWord(run, st, b, ws[0]);
      if r.ret == 0 then r.st else After(run, ws[1..], r.budget, r.st)
  }

  // ---------------------------------------------------------------------------
  // Steps of the loop

  /** Characters other than separators are collected into the word. */
  lemma {:induction false} Accumulate(run: WordRunner, s: string, p: nat, k: nat, word: string, b: nat, st: State, aw: bool)
    requires p <= k <= |s|
    requires forall j :: p <= j < k ==> !IsSeparator(s[j])
    requires |word| + (k - p) <= MAX_WORD + 1
    ensures ScanWith(run, s, p, word, b, st, aw) == ScanWith(run, s, k, word + s[p..k], b, st, aw)
    decreases k - p
  {
    if p < k {
      Accumulate(run, s, p + 1, k, word + [s[p]], b, st, aw);
      assert (word + [s[p]]) + s[p + 1..k] == word + s[p..k];
    } else {
      assert word + s[p..k] == word;
    }
  }

  /** A readable word at the start of the string is read whole. */
  lemma ReadFirst(run: WordRunner, s: string, w: string, b: nat, st: State, aw: bool)
    requires Readable(w) && |w| <= |s| && s[..|w|] == w
    ensures ScanWith(run, s, 0, "", b, st, aw) == ScanWith(run, s, |w|, w, b, st, aw)
  {
    forall j | 0 <= j < |w| ensures !IsSeparator(s[j]) {
      assert s[j] == w[j];
    }
    Accumulate(run, s, 0, |w|, "", b, st, aw);
    assert "" + s[0..|w|] == w;
  }

  /** A word without separators, starting at k, is read up to e. */
  lemma ReadFrom(run: WordRunner, s: string, k: nat, e: nat, b: nat, st: State, aw: bool)
    requires k < e <= |s| && e - k <= MAX_WORD
    requires forall j :: k < j < e ==> !IsSeparator(s[j])
    ensures ScanWith(run, s, k + 1, [s[k]], b, st, aw) == ScanWith(run, s, e, s[k..e], b, st, aw)
  {
    Accumulate(run, s, k + 1, e, [s[k]], b, st, aw);
    assert [s[k]] + s[k + 1..e] == s[k..e];
  }

  /** The loop at a separator, once the word before it has run and asked for
      nothing special. */
  lemma AtSeparator(run: WordRunner, s: string, p: nat, word: string, b: nat, st: State, aw: bool, ran: Ran)
    requires p < |s| && IsSeparator(s[p]) && |word| <= MAX_WORD
    requires ran == RunWord(run, st, b, word) && ran.ret != 0
    requires !(p + 1 < |s| && s[p + 1] == ',')
    requires ran.st.parseGoto == -1 && ran.st.parseStop == 0
    ensures s[p] == ';' ==> ScanWith(run, s, p, word, b, st, aw) == Finished(0, ran.st)
    ensures s[p] == ',' && p + 1 == |s| ==>
      ScanWith(run, s, p, word, b, st, aw) == (if aw then Overrun(ran.st) else Finished(1, ran.st))
    ensures s[p] == ',' && p + 1 < |s| ==>
      ScanWith(run, s, p, word, b, st, aw) == ScanWith(run, s, p + 2, [s[p + 1]], ran.budget, ran.st, aw)
  {
    assert EvalWord(s, p, ran.st) == (Go, ran.st);
  }

  /** A first word that asks the loop to stop ends the parse with 0 right
      after it: in `w,rest` the rest is never read. */
  lemma StopsAfter(run: WordRunner, w: string, rest: string, b: nat, st: State, aw: bool)
    requires Readable(w) && (|rest| == 0 || rest[0] != ',')
    requires RunWord(run, st, b, w).ret != 0
    requires RunWord(run, st, b, w).st.parseGoto == -1 && RunWord(run, st, b, w).st.parseStop != 0
    ensures ScanWith(run, w + "," + rest, 0, "", b, st, aw) == Finished(0, RunWord(run, st, b, w).st)
  {
    var s := w + "," + rest;
    assert s[..|w|] == w && s[|w|] == ',';
    ReadFirst(run, s, w, b, st, aw);
    assert EvalWord(s, |w|, RunWord(run, st, b, w).st) == (Stop, RunWord(run, st, b, w).st);
  }

  /** The last word, once it has run and asked for nothing special. */
  lemma AtEnd(run: WordRunner, s: string, word: string, b: nat, st: State, aw: bool, ran: Ran)
    requires word != "" && ran == RunWord(run, st, b, word) && ran.ret != 0
    requires ran.st.parseGoto == -1 && ran.st.parseStop == 0
    ensures ScanWith(run, s, |s|, word, b, st, aw) == Finished(1, ran.st)
  {
    assert EvalWord(s, |s|, ran.st) == (Go, ran.st);
  }

  /** The last word, once it has run and asked for a jump that exists. */
  lemma AtEndJump(run: WordRunner, s: string, word: string, b: nat, st: State, aw: bool, ran: Ran, q: nat)
    requires word != "" && ran == RunWord(run, st, b, word) && ran.ret != 0
    requires ran.st.parseGoto != -1 && GotoWord(s, ran.st.parseGoto) == Some(q)
    ensures ScanWith(run, s, |s|, word, b, st, aw) == ScanWith(run, s, q, "", ran.budget, ran.st.(parseGoto := -1), aw)
  {
    assert EvalWord(s, |s|, ran.st) == (Jump(q), ran.st.(parseGoto := -1));
  }

  /** A word that returns 0, or finds the budget spent, ends the parse with
      0. */
  lemma WordFails(run: WordRunner, s: string, p: nat, word: string, b: nat, st: State, aw: bool)
    requires p <= |s| && word != "" && RunWord(run, st, b, word).ret == 0
    requires p < |s| ==> IsSeparator(s[p]) && |word| <= MAX_WORD
    ensures ScanWith(run, s, p, word, b, st, aw) == Finished(0, RunWord(run, st, b, word).st)
  {
  }

  // ---------------------------------------------------------------------------
  // Properties

  /** A word that reaches 63 characters with more of the string to come makes
      the parse fail with -1 before anything runs. */
  lemma LongWordRejected(run: WordRunner, s: string, b: nat, st: State, aw: bool)
    requires |s| > MAX_WORD + 1
    requires forall j :: 0 <= j <= MAX_WORD ==> !IsSeparator(s[j])
    ensures ScanWith(run, s, 0, "", b, st, aw) == Finished(-1, st)
  {
    Accumulate(run, s, 0, MAX_WORD + 1, "", b, st, aw);
  }

  /** The reference reading of the loop: words joined by commas that neither
      jump nor stop are run one after another, left to right, each with one
      unit less of the budget, and the parse returns 1. */
  lemma {:induction false} StraightLine(run: WordRunner, s: string, k: nat, ws: seq<string>, b: nat, st: State, aw: bool)
    requires |ws| > 0 && k < |s| && s[k..] == Join(ws)
    requires forall i :: 0 <= i < |ws| ==> Readable(ws[i])
    requires Straight(run, ws, b, st)
    ensures ScanWith(run, s, k + 1, [s[k]], b, st, aw) == Finished(1, After(run, ws, b, st))
    decreases |ws|
  {
    var w := ws[0];
    var e := k + |w|;
    assert Readable(w);
    assert s[k..e] == w by {
      assert s[k..][..|w|] == w;
    }
    forall j | k < j < e ensures !IsSeparator(s[j]) {
      assert s[j] == w[j - k];
    }
    var ran := RunWord(run, st, b, w);
    if |ws| == 1 {
      assert e == |s|;
      ReadFrom(run, s, k, e, b, st, aw);
      AtEnd(run, s, w, b, st, aw, ran);
    } else {
      var rest := Join(ws[1..]);
      assert s[k..] == w + "," + rest;
      assert s[e] == ',' && s[e + 1..] == rest;
      assert Readable(ws[1]);
      assert rest[0] == ws[1][0] by {
        if |ws[1..]| == 1 {
        } else {
          assert rest == ws[1] + "," + Join(ws[2..]);
        }
      }
      assert s[e + 1] == ws[1][0];
      ReadFrom(run, s, k, e, b, st, aw);
      AtSeparator(run, s, e, w, b, st, aw, ran);
      StraightLine(run, s, e + 1, ws[1..], ran.budget, ran.st, aw);
    }
  }

  /** Straight-line words one at a time. */
  lemma StraightCons(run: WordRunner, w: string, ws: seq<string>, b: nat, st: State)
    requires var r := RunWord(run, st, b, w); r.ret != 0 && r.st.parseGoto == -1 && r.st.parseStop == 0
    ensures var r := RunWord(run, st, b, w);
      Straight(run, [w] + ws, b, st) == Straight(run, ws, r.budget, r.st)
      && After(run, [w] + ws, b, st) == After(run, ws, r.budget, r.st)
  {
    assert ([w] + ws)[0] == w && ([w] + ws)[1..] == ws;
  }

  /** Four words, each returning 1 without a jump or a stop, run straight
      through to the state the last leaves. */
  lemma StraightFour(run: WordRunner, w0: string, w1: string, w2: string, w3: string, b: nat,
                     s0: State, s1: State, s2: State, s3: State, s4: State)
    requires b >= 4
    requires RunWord(run, s0, b, w0) == Ran(1, b - 1, s1) && RunWord(run, s1, b - 1, w1) == Ran(1, b - 2, s2)
    requires RunWord(run, s2, b - 2, w2) == Ran(1, b - 3, s3) && RunWord(run, s3, b - 3, w3) == Ran(1, b - 4, s4)
    requires s1.parseGoto == -1 && s2.parseGoto == -1 && s3.parseGoto == -1 && s4.parseGoto == -1
    requires s1.parseStop == 0 && s2.parseStop == 0 && s3.parseStop == 0 && s4.parseStop == 0
    ensures Straight(run, [w0, w1, w2, w3], b, s0) && After(run, [w0, w1, w2, w3], b, s0) == s4
  {
    StraightCons(run, w3, [], b - 3, s3);
    StraightCons(run, w2, [w3], b - 2, s2);
    StraightCons(run, w1, [w2, w3], b - 1, s1);
    StraightCons(run, w0, [w1, w2, w3], b, s0);
    assert [w0] + [w1, w2, w3] == [w0, w1, w2, w3];
    assert [w1] + [w2, w3] == [w1, w2, w3];
    assert [w2] + [w3] == [w2, w3];
    assert [w3] + [] == [w3];
  }

  /** The same from the start of the string. */
  lemma StraightParse(run: WordRunner, ws: seq<string>, b: nat, st: State, aw: bool)
    requires |ws| > 0 && forall i :: 0 <= i < |ws| ==> Readable(ws[i])
    requires Straight(run, ws, b, st)
    ensures ScanWith(run, Join(ws), 0, "", b, st, aw) == Finished(1, After(run, ws, b, st))
  {
    var s := Join(ws);
    assert Readable(ws[0]);
    assert s[0] == ws[0][0] by {
      if |ws| > 1 {
        assert s == ws[0] + "," + Join(ws[1..]);
      }
    }
    assert s[0..] == s && !IsSeparator(s[0]) && "" + [s[0]] == [s[0]];
    StraightLine(run, s, 0, ws, b, st, aw);
  }

  /** `;` ends the parse with 0 after the word before it: in `w;rest` the
      rest is never read. */
  lemma SemicolonStops(run: WordRunner, w: string, rest: string, b: nat, st: State, aw: bool)
    requires Readable(w) && (|rest| == 0 || rest[0] != ',')
    requires Straight(run, [w], b, st)
    ensures ScanWith(run, w + ";" + rest, 0, "", b, st, aw) == Finished(0, After(run, [w], b, st))
  {
    var s := w + ";" + rest;
    assert s[..|w|] == w && s[|w|] == ';';
    ReadFirst(run, s, w, b, st, aw);
    AtSeparator(run, s, |w|, w, b, st, aw, RunWord(run, st, b, w));
  }

  /** A separator followed by `,` is handled again without moving on, with an
      empty word each time, until the budget runs out; the trap is then
      raised and the parse returns 0. */
  lemma {:induction false} SeparatorsDrain(run: WordRunner, s: string, p: nat, b: nat, st: State, aw: bool)
    requires p + 1 < |s| && IsSeparator(s[p]) && s[p + 1] == ','
    requires run(st, "") == Step(1, st)
    ensures ScanWith(run, s, p, "", b, st, aw) == Finished(0, st.(trap := 1, parseStop := 1))
    decreases b
  {
    if b >= 2 {
      assert RunWord(run, st, b, "") == Ran(1, b - 1, st);
      SeparatorsDrain(run, s, p, b - 1, st, aw);
    }
  }

  /** So `w,,rest` never gets past its second comma, whatever follows. */
  lemma DoubleComma(run: WordRunner, w: string, rest: string, b: nat, st: State, aw: bool)
    requires Readable(w)
    requires forall t: State :: run(t, "") == Step(1, t)
    ensures var r := ScanWith(run, w + ",," + rest, 0, "", b, st, aw);
      r.Finished? && r.code == 0 && (RunWord(run, st, b, w).ret != 0 ==> r.st.trap == 1 && r.st.parseStop == 1)
      && (RunWord(run, st, b, w).ret == 0 ==> r.st == RunWord(run, st, b, w).st)
  {
    var s := w + ",," + rest;
    assert s[..|w|] == w && s[|w|] == ',' && s[|w| + 1] == ',';
    ReadFirst(run, s, w, b, st, aw);
    var ran := RunWord(run, st, b, w);
    if ran.ret != 0 {
      assert EvalWord(s, |w|, ran.st) == (Again, ran.st);
      SeparatorsDrain(run, s, |w|, ran.budget, ran.st, aw);
    } else {
      WordFails(run, s, |w|, w, b, st, aw);
    }
  }

  /** A string ending in `,`: as written, the loop reads past its end once the
      last word has run; the corrected loop ends there with 1. */
  lemma TrailingSeparator(run: WordRunner, w: string, b: nat, st: State)
    requires Readable(w) && Straight(run, [w], b, st)
    ensures ScanWith(run, w + ",", 0, "", b, st, true) == Overrun(After(run, [w], b, st))
    ensures ScanWith(run, w + ",", 0, "", b, st, false) == Finished(1, After(run, [w], b, st))
  {
    var s := w + ",";
    assert s[..|w|] == w && s[|w|] == ',';
    ReadFirst(run, s, w, b, st, false);
    ReadFirst(run, s, w, b, st, true);
    AtSeparator(run, s, |w|, w, b, st, false, RunWord(run, st, b, w));
    AtSeparator(run, s, |w|, w, b, st, true, RunWord(run, st, b, w));
  }

  /** The two readings differ only there: whenever the as-written loop ends,
      the corrected one ends the same way, and the as-written loop overruns
      only on a string ending in `,`. */
  lemma {:induction false} AsWrittenAgrees(run: WordRunner, s: string, p: nat, word: string, b: nat, st: State)
    requires p <= |s|
    ensures var r := ScanWith(run, s, p, word, b, st, true);
      (r.Finished? ==> ScanWith(run, s, p, word, b, st, false) == r) && (r.Overrun? ==> s[|s| - 1] == ',')
    decreases b, |s| - p
  {
    if p == |s| {
      if word != "" {
        var ran := RunWord(run, st, b, word);
        if ran.ret != 0 {
          var (action, st1) := EvalWord(s, p, ran.st);
          if action.Jump? {
            AsWrittenAgrees(run, s, action.to, "", ran.budget, st1);
          }
        }
      }
    } else if |word| > MAX_WORD {
    } else if IsSeparator(s[p]) {
      var ran := RunWord(run, st, b, word);
      if ran.ret != 0 {
        var (action, st1) := EvalWord(s, p, ran.st);
        match action
        case Again => AsWrittenAgrees(run, s, p, "", ran.budget, st1);
        case Jump(q) => AsWrittenAgrees(run, s, q, "", ran.budget, st1);
        case Stop =>
        case Go =>
          if s[p] != ';' && p + 1 < |s| {
            AsWrittenAgrees(run, s, p + 2, [s[p + 1]], ran.budget, st1);
          }
      }
    } else {
      AsWrittenAgrees(run, s, p + 1, word + [s[p]], b, st);
    }
  }

  /** The conditions under which `w,g` loops: w runs and asks for nothing,
      and g then jumps back to word 0 from the state w started in. */
  predicate Loops(run: WordRunner, s: string, w: string, g: string, st: State, st1: State)
  {
    s == w + "," + g && Readable(w) && Readable(g)
    && st.parseGoto == -1 && st.parseStop == 0 && st1.parseGoto == -1 && st1.parseStop == 0
    && run(st, w) == Step(1, st1) && run(st1, g) == Step(1, st.(parseGoto := 0))
  }

  /** One round of such a loop costs two words and comes back to the start in
      the same state. */
  lemma LoopRound(run: WordRunner, s: string, w: string, g: string, b: nat, st: State, st1: State, aw: bool)
    requires Loops(run, s, w, g, st, st1) && b >= 3
    ensures ScanWith(run, s, 0, "", b, st, aw) == ScanWith(run, s, 0, "", b - 2, st, aw)
  {
    var k := |w| + 1;
    assert s[..|w|] == w && s[|w|] == ',' && s[k..] == g && s[k] == g[0];
    forall j | k < j < |s| ensures !IsSeparator(s[j]) {
      assert s[j] == g[j - k];
    }
    ReadFirst(run, s, w, b, st, aw);
    AtSeparator(run, s, |w|, w, b, st, aw, Ran(1, b - 1, st1));
    ReadFrom(run, s, k, |s|, b - 1, st1, aw);
    assert s[k..|s|] == g;
    assert GotoWord(s, 0) == Some(0);
    AtEndJump(run, s, g, b - 1, st1, aw, Ran(1, b - 2, st.(parseGoto := 0)), 0);
    assert st.(parseGoto := 0).(parseGoto := -1) == st;
  }

  /** With fewer than three words left, such a loop ends trapping. */
  lemma LoopExhausts(run: WordRunner, s: string, w: string, g: string, b: nat, st: State, st1: State, aw: bool)
    requires Loops(run, s, w, g, st, st1) && b < 3
    ensures var r := ScanWith(run, s, 0, "", b, st, aw); r.Finished? && r.code == 0 && r.st.trap == 1
  {
    var k := |w| + 1;
    assert s[..|w|] == w && s[|w|] == ',' && s[k..] == g && s[k] == g[0];
    ReadFirst(run, s, w, b, st, aw);
    if b < 2 {
      WordFails(run, s, |w|, w, b, st, aw);
    } else {
      forall j | k < j < |s| ensures !IsSeparator(s[j]) {
        assert s[j] == g[j - k];
      }
      AtSeparator(run, s, |w|, w, b, st, aw, Ran(1, b - 1, st1));
      ReadFrom(run, s, k, |s|, b - 1, st1, aw);
      assert s[k..|s|] == g;
      WordFails(run, s, |s|, g, b - 1, st1, aw);
    }
  }

  /** A loop back to word 0 runs until the budget, which the jump never
      resets, ends it with a trap and return code 0. */
  lemma {:induction false} LoopTraps(run: WordRunner, s: string, w: string, g: string, b: nat, st: State, st1: State, aw: bool)
    requires Loops(run, s, w, g, st, st1)
    ensures var r := ScanWith(run, s, 0, "", b, st, aw); r.Finished? && r.code == 0 && r.st.trap == 1
    decreases b
  {
    if b < 3 {
      LoopExhausts(run, s, w, g, b, st, st1, aw);
    } else {
      LoopRound(run, s, w, g, b, st, st1, aw);
      LoopTraps(run, s, w, g, b - 2, st, st1, aw);
    }
  }
}
