/** The interface between SSiPP and an external deterministic planner
  (`ExternalDetPlannerInterface`): case-insensitive action names, the
  parsing of the plan lines the planner prints, the probability of a plan,
  the most-likely-outcome determinization of a probabilistic action and the
  likelihood-bounded execution trace of a plan.

  Probabilities are modelled as `real`: the source's `double` rounding is
  not modelled, and its `Rational` arithmetic is exact like `real`.
*/
module DetPlanners {
  import opened Wrappers
  import Rationals

  // ---------------------------------------------------------------------
  // Lower case (DetPlannerUnparsedAction, hash_case_str)
  // ---------------------------------------------------------------------

  /** `std::tolower` in the C locale: only `A`..`Z` change. */
  function Lower(c: char): char {
    if 'A' <= c <= 'Z' then (c as int + 32) as char else c
  }

  /** A string with every character lower-cased. */
  function LowerString(s: string): string {
    seq(|s|, i requires 0 <= i < |s| => Lower(s[i]))
  }

  predicate IsLowerCase(s: string) {
    forall i :: 0 <= i < |s| ==> !('A' <= s[i] <= 'Z')
  }

  /** The loop that lower-cases a copy of its input, character by
      character. */
  method Lowered(s: string) returns (t: string)
    ensures t == LowerString(s)
  {
    t := s;
    var i := 0;
    while i < |t|
      invariant |t| == |s| && 0 <= i <= |t|
      invariant forall k :: 0 <= k < i ==> t[k] == Lower(s[k])
      invariant forall k :: i <= k < |t| ==> t[k] == s[k]
    {
      t := t[i := Lower(t[i])];
      i := i + 1;
    }
  }

  /** The `DetPlannerUnparsedAction` constructor: the stored string is the
      input lower-cased, so it holds no upper-case letter. */
  method UnparsedAction(c: string) returns (s: string)
    ensures s == LowerString(c) && IsLowerCase(s)
  {
    s := Lowered(c);
    LowerStringIsLowerCase(c);
  }

  lemma LowerStringIsLowerCase(s: string)
    ensures IsLowerCase(LowerString(s))
  {
    forall i | 0 <= i < |s|
      ensures !('A' <= LowerString(s)[i] <= 'Z')
    {
      assert LowerString(s)[i] == Lower(s[i]);
    }
  }

  /** Lower-casing twice is lower-casing once, and a lower-case string is
      its own lower-cased form. */
  lemma LowerStringIdempotent(s: string)
    ensures LowerString(LowerString(s)) == LowerString(s)
    ensures IsLowerCase(s) ==> LowerString(s) == s
  {
    var t := LowerString(s);
    assert forall i :: 0 <= i < |t| ==> LowerString(t)[i] == Lower(Lower(s[i])) == t[i];
    if IsLowerCase(s) {
      assert forall i :: 0 <= i < |s| ==> LowerString(s)[i] == s[i];
    }
  }

  lemma LowerStringAppend(a: string, b: string)
    ensures LowerString(a + b) == LowerString(a) + LowerString(b)
  {
    var l, r := LowerString(a + b), LowerString(a) + LowerString(b);
    assert |l| == |r|;
    forall i | 0 <= i < |l| ensures l[i] == r[i] {
      if i < |a| { assert (a + b)[i] == a[i]; } else { assert (a + b)[i] == b[i - |a|]; }
    }
  }

  // ---------------------------------------------------------------------
  // eqcasestr and hash_case_str
  // ---------------------------------------------------------------------

  /** `strcasecmp(s1, s2) == 0`: the strings have the same length and agree
      character by character up to case. */
  function EqCase(s1: string, s2: string): bool
    decreases |s1|
  {
    if |s1| == 0 || |s2| == 0 then |s1| == |s2|
    else Lower(s1[0]) == Lower(s2[0]) && EqCase(s1[1..], s2[1..])
  }

  /** `eqcasestr` holds exactly when both strings lower-case to the same
      string. */
  lemma {:induction false} EqCaseIsLowerEquality(s1: string, s2: string)
    ensures EqCase(s1, s2) <==> LowerString(s1) == LowerString(s2)
    decreases |s1|
  {
    if |s1| == 0 || |s2| == 0 {
      assert |LowerString(s1)| == |s1| && |LowerString(s2)| == |s2|;
    } else {
      EqCaseIsLowerEquality(s1[1..], s2[1..]);
      assert s1 == [s1[0]] + s1[1..] && s2 == [s2[0]] + s2[1..];
      LowerStringAppend([s1[0]], s1[1..]);
      LowerStringAppend([s2[0]], s2[1..]);
      assert LowerString([s1[0]]) == [Lower(s1[0])] && LowerString([s2[0]]) == [Lower(s2[0])];
      if LowerString(s1) == LowerString(s2) {
        assert LowerString(s1)[0] == Lower(s1[0]) && LowerString(s2)[0] == Lower(s2[0]);
        assert LowerString(s1)[1..] == LowerString(s1[1..]);
        assert LowerString(s2)[1..] == LowerString(s2[1..]);
      }
    }
  }

  /** `eqcasestr` is an equivalence relation. */
  lemma EqCaseEquivalence(s1: string, s2: string, s3: string)
    ensures EqCase(s1, s1)
    ensures EqCase(s1, s2) ==> EqCase(s2, s1)
    ensures EqCase(s1, s2) && EqCase(s2, s3) ==> EqCase(s1, s3)
  {
    EqCaseIsLowerEquality(s1, s1);
    EqCaseIsLowerEquality(s1, s2);
    EqCaseIsLowerEquality(s2, s1);
    EqCaseIsLowerEquality(s2, s3);
    EqCaseIsLowerEquality(s1, s3);
  }

  /** The value `hash_case_str` computes with the string hash `h`. */
  function HashCase(h: string -> int, s: string): int {
    h(LowerString(s))
  }

  /** `hash_case_str::operator()`: hash a lower-cased copy. */
  method HashCaseStr(h: string -> int, s: string) returns (r: int)
    ensures r == HashCase(h, s)
  {
    var t := Lowered(s);
    r := h(t);
  }

  /** Strings equal under `eqcasestr` hash alike under `hash_case_str`,
      whatever the underlying string hash. */
  lemma EqCaseHashAlike(h: string -> int, s1: string, s2: string)
    requires EqCase(s1, s2)
    ensures HashCase(h, s1) == HashCase(h, s2)
  {
    EqCaseIsLowerEquality(s1, s2);
  }

  // ---------------------------------------------------------------------
  // ActionNameToInfo
  // ---------------------------------------------------------------------

  /** `DetActionInfo`: the probability of a deterministic action and the
      name of the action schema it comes from (the effect itself is given
      to the execution trace as a function of that name). */
  datatype DetActionInfo = DetActionInfo(p: real, schema: string)

  /** `ActionNameToInfo`, an unordered map hashed by `hash_case_str` and
      compared by `eqcasestr`: keyed here by the lower-cased name. */
  type ActionNameToInfo = map<string, DetActionInfo>

  /** `m[name] = info`. */
  function Insert(m: ActionNameToInfo, name: string, info: DetActionInfo): ActionNameToInfo {
    m[LowerString(name) := info]
  }

  /** `m.find(name)`. */
  function Find(m: ActionNameToInfo, name: string): Option<DetActionInfo> {
    if LowerString(name) in m then Some(m[LowerString(name)]) else None
  }

  /** A name finds what was inserted under any name equal to it up to case,
      and any other name finds what it found before. */
  lemma FindAfterInsert(m: ActionNameToInfo, name: string, info: DetActionInfo, other: string)
    ensures Find(Insert(m, name, info), other) == if EqCase(name, other) then Some(info) else Find(m, other)
  {
    EqCaseIsLowerEquality(name, other);
  }

  // ---------------------------------------------------------------------
  // DetPlannerParsedAction
  // ---------------------------------------------------------------------

  /** `DetPlannerParsedAction`: an action name and its arguments. */
  class ParsedAction {
    var name: string
    var args: seq<string>

    constructor ()
      ensures name == "" && args == []
    {
      name, args := "", [];
    }

    /** `arity()`. */
    function Arity(): nat
      reads this
    {
      |args|
    }

    /** `parameter(i)`. */
    function Parameter(i: nat): string
      reads this
      requires i < Arity()
    {
      args[i]
    }

    /** `pushBackArgument(arg)`: one more parameter, `arg`, after the
        others. */
    method PushBackArgument(arg: string)
      modifies this
      ensures Arity() == old(Arity()) + 1 && Parameter(Arity() - 1) == arg
      ensures forall i :: 0 <= i < old(Arity()) ==> Parameter(i) == old(Parameter(i))
      ensures name == old(name) && args == old(args) + [arg]
    {
      args := args + [arg];
    }
  }

  // ---------------------------------------------------------------------
  // parseAction
  // ---------------------------------------------------------------------

  /** The delimiters given to `strtok`. */
  predicate IsDelimiter(c: char) {
    c == ' ' || c == '(' || c == ')' || c == '\r' || c == '\n'
  }

  /** The length of the run of non-delimiters that starts `s`. */
  function RunEnd(s: string): (e: nat)
    ensures e <= |s|
    ensures forall k :: 0 <= k < e ==> !IsDelimiter(s[k])
    ensures e < |s| ==> IsDelimiter(s[e])
    decreases |s|
  {
    if |s| == 0 || IsDelimiter(s[0]) then 0 else 1 + RunEnd(s[1..])
  }

  /** A run of `e` non-delimiters ended by a delimiter or by the end of
      the text is the run `RunEnd` measures. */
  lemma {:induction false} RunEndOfRun(s: string, e: nat)
    requires e <= |s| && forall k :: 0 <= k < e ==> !IsDelimiter(s[k])
    requires e < |s| ==> IsDelimiter(s[e])
    ensures RunEnd(s) == e
    decreases e
  {
    if e > 0 {
      assert forall k :: 0 <= k < e - 1 ==> s[1..][k] == s[k + 1];
      RunEndOfRun(s[1..], e - 1);
    }
  }

  /** The tokens `strtok` returns one after the other: the maximal runs of
      non-delimiters, in order. */
  function Tokens(s: string): seq<string>
    decreases |s|
  {
    if |s| == 0 then []
    else if IsDelimiter(s[0]) then Tokens(s[1..])
    else
      var e := RunEnd(s);
      [s[..e]] + Tokens(s[e..])
  }

  /** `strtok` passes over a delimiter. */
  lemma TokensAfterDelimiter(c: char, s: string)
    requires IsDelimiter(c)
    ensures Tokens([c] + s) == Tokens(s)
  {
    assert ([c] + s)[1..] == s;
  }

  /** A token: non-empty and free of delimiters. */
  predicate IsToken(t: string) {
    |t| > 0 && forall k :: 0 <= k < |t| ==> !IsDelimiter(t[k])
  }

  lemma {:induction false} TokensAreTokens(s: string)
    ensures forall k :: 0 <= k < |Tokens(s)| ==> IsToken(Tokens(s)[k])
    decreases |s|
  {
    if |s| > 0 {
      if IsDelimiter(s[0]) {
        TokensAreTokens(s[1..]);
      } else {
        TokensAreTokens(s[RunEnd(s)..]);
      }
    }
  }

  /** The first position at or after `pos` that holds no delimiter, and
      `|s|` when there is none. */
  method SkipDelimiters(s: string, pos: nat) returns (i: nat)
    requires pos <= |s|
    ensures pos <= i <= |s| && (i < |s| ==> !IsDelimiter(s[i]))
    ensures Tokens(s[i..]) == Tokens(s[pos..])
  {
    i := pos;
    while i < |s| && IsDelimiter(s[i])
      invariant pos <= i <= |s|
      invariant Tokens(s[i..]) == Tokens(s[pos..])
    {
      TokensAfterDelimiter(s[i], s[i + 1..]);
      assert s[i..] == [s[i]] + s[i + 1..];
      i := i + 1;
    }
  }

  /** The end of the run of non-delimiters that starts at `i`. */
  method RunFrom(s: string, i: nat) returns (j: nat)
    requires i <= |s|
    ensures i <= j <= |s| && j - i == RunEnd(s[i..])
  {
    j := i;
    while j < |s| && !IsDelimiter(s[j])
      invariant i <= j <= |s|
      invariant RunEnd(s[i..]) == (j - i) + RunEnd(s[j..])
    {
      assert s[j..][1..] == s[j + 1..];
      j := j + 1;
    }
  }

  /** One `strtok` call from position `pos`: skip delimiters, then take the
      run of non-delimiters as the token; none when the text is used up. */
  method NextToken(s: string, pos: nat) returns (tok: Option<string>, next: nat)
    requires pos <= |s|
    ensures tok.None? ==> next == |s| && Tokens(s[pos..]) == []
    ensures tok.Some? ==> pos < next <= |s| && Tokens(s[pos..]) == [tok.value] + Tokens(s[next..])
  {
    var i := SkipDelimiters(s, pos);
    if i == |s| {
      return None, |s|;
    }
    var j := RunFrom(s, i);
    var rest := s[i..];
    assert rest[..j - i] == s[i..j] && rest[j - i..] == s[j..];
    tok, next := Some(s[i..j]), j;
  }

  /** `parseAction(a)`: the first token is the name and the others are the
      arguments, in order; a line with no token has no name (the source
      builds a `std::string` from a null pointer there). */
  method ParseAction(a: string) returns (r: Result<ParsedAction>)
    ensures r.Err? <==> Tokens(a) == []
    ensures r.Ok? ==> fresh(r.value) && [r.value.name] + r.value.args == Tokens(a)
  {
    assert a[0..] == a;
    var tok, pos := NextToken(a, 0);
    if tok.None? {
      return Err(Die);
    }
    var parsed := new ParsedAction();
    parsed.name := tok.value;
    while true
      invariant pos <= |a|
      invariant Tokens(a) == [parsed.name] + parsed.args + Tokens(a[pos..])
      decreases |a| - pos
    {
      var next;
      tok, next := NextToken(a, pos);
      if tok.None? {
        break;
      }
      assert [parsed.name] + parsed.args + ([tok.value] + Tokens(a[next..]))
        == [parsed.name] + (parsed.args + [tok.value]) + Tokens(a[next..]);
      parsed.PushBackArgument(tok.value);
      pos := next;
    }
    assert [parsed.name] + parsed.args + [] == [parsed.name] + parsed.args;
    return Ok(parsed);
  }

  /** Words put back together with single spaces. */
  function Unwords(ts: seq<string>): string
    decreases |ts|
  {
    if |ts| == 0 then ""
    else if |ts| == 1 then ts[0]
    else ts[0] + " " + Unwords(ts[1..])
  }

  /** A token followed by a delimiter or by nothing is read as one token. */
  lemma TokensAfterToken(t: string, rest: string)
    requires IsToken(t) && (rest == [] || IsDelimiter(rest[0]))
    ensures Tokens(t + rest) == [t] + Tokens(rest)
  {
    var s := t + rest;
    RunEndOfRun(s, |t|);
    assert s[..|t|] == t && s[|t|..] == rest;
  }

  /** Tokens written out with spaces, and followed by a delimiter or by
      nothing, are read back as the same tokens. */
  lemma {:induction false} TokensOfUnwords(ts: seq<string>, rest: string)
    requires forall k :: 0 <= k < |ts| ==> IsToken(ts[k])
    requires rest == [] || IsDelimiter(rest[0])
    ensures Tokens(Unwords(ts) + rest) == ts + Tokens(rest)
    decreases |ts|
  {
    if |ts| == 0 {
      assert Unwords(ts) + rest == rest;
    } else if |ts| == 1 {
      assert Unwords(ts) + rest == ts[0] + rest;
      TokensAfterToken(ts[0], rest);
    } else {
      var more := Unwords(ts[1..]) + rest;
      calc {
        Tokens(Unwords(ts) + rest);
        { UnwordsCons(ts, rest); }
        Tokens(ts[0] + ([' '] + more));
        { TokensAfterToken(ts[0], [' '] + more); }
        [ts[0]] + Tokens([' '] + more);
        { TokensAfterDelimiter(' ', more); }
        [ts[0]] + Tokens(more);
        { TokensOfUnwords(ts[1..], rest); }
        [ts[0]] + (ts[1..] + Tokens(rest));
        { assert ts == [ts[0]] + ts[1..]; }
        ts + Tokens(rest);
      }
    }
  }

  lemma UnwordsCons(ts: seq<string>, rest: string)
    requires |ts| > 1
    ensures Unwords(ts) + rest == ts[0] + ([' '] + (Unwords(ts[1..]) + rest))
  {
  }

  /** An action printed the way deterministic planners print plan steps,
      `(name a1 ... an)`, parses back into that name and those
      arguments. */
  lemma ParseActionRoundTrip(name: string, args: seq<string>)
    requires IsToken(name) && forall k :: 0 <= k < |args| ==> IsToken(args[k])
    ensures Tokens(['('] + (Unwords([name] + args) + [')'])) == [name] + args
  {
    var ts := [name] + args;
    forall k | 0 <= k < |ts|
      ensures IsToken(ts[k])
    {
      if k > 0 { assert ts[k] == args[k - 1]; }
    }
    var u := Unwords(ts) + [')'];
    calc {
      Tokens(['('] + u);
      { TokensAfterDelimiter('(', u); }
      Tokens(u);
      { TokensOfUnwords(ts, [')']); }
      ts + Tokens([')']);
      { TokensAfterDelimiter(')', []); assert [')'] + [] == [')']; }
      ts;
    }
  }

  // ---------------------------------------------------------------------
  // planProbability
  // ---------------------------------------------------------------------

  /** What the table records for one plan line: the entry of its action
      name, or the process stops (`DIE`) on a line with no name or a name
      the table does not know. */
  function StepInfo(m: ActionNameToInfo, line: string): Result<DetActionInfo> {
    var toks := Tokens(line);
    if |toks| == 0 then Err(Die)
    else match Find(m, toks[0])
      case None => Err(Die)
      case Some(info) => Ok(info)
  }

  /** The probability of a plan: the product of the probabilities the table
      records for its steps. */
  function PlanLikelihood(m: ActionNameToInfo, plan: seq<string>): Result<real>
    decreases |plan|
  {
    if |plan| == 0 then Ok(1.0)
    else
      var p :- PlanLikelihood(m, plan[..|plan| - 1]);
      var info :- StepInfo(m, plan[|plan| - 1]);
      Ok(Times(p, info.p))
  }

  /** The product of two probabilities (a function of its own, so that
      equal factors are seen to give equal products). */
  function Times(a: real, b: real): real {
    a * b
  }

  /** One more step: the product acquires the step's probability, or the
      process stops on it. */
  lemma PlanLikelihoodStep(m: ActionNameToInfo, plan: seq<string>, i: nat)
    requires i < |plan|
    ensures PlanLikelihood(m, plan[..i + 1]) ==
      if PlanLikelihood(m, plan[..i]).Err? || StepInfo(m, plan[i]).Err? then Err(Die)
      else Ok(Times(PlanLikelihood(m, plan[..i]).value, StepInfo(m, plan[i]).value.p))
  {
    var q := plan[..i + 1];
    assert q[..|q| - 1] == plan[..i] && q[|q| - 1] == plan[i];
    PlanLikelihoodFailure(m, plan[..i]);
    if PlanLikelihood(m, plan[..i]).Ok? && StepInfo(m, plan[i]).Ok? {
      assert PlanLikelihood(m, q) == Ok(Times(PlanLikelihood(m, plan[..i]).value, StepInfo(m, plan[i]).value.p));
    } else {
      assert PlanLikelihood(m, q).Err?;
      PlanLikelihoodFailure(m, q);
    }
  }

  /** The only failure is stopping the process. */
  lemma {:induction false} PlanLikelihoodFailure(m: ActionNameToInfo, plan: seq<string>)
    ensures PlanLikelihood(m, plan).Err? ==> PlanLikelihood(m, plan) == Err(Die)
    decreases |plan|
  {
    if |plan| > 0 {
      PlanLikelihoodFailure(m, plan[..|plan| - 1]);
    }
  }

  /** A plan whose prefix stops the process stops it too. */
  lemma {:induction false} PlanLikelihoodErrPersists(m: ActionNameToInfo, plan: seq<string>, i: nat)
    requires i <= |plan| && PlanLikelihood(m, plan[..i]).Err?
    ensures PlanLikelihood(m, plan) == Err(Die)
    decreases |plan| - i
  {
    if i < |plan| {
      PlanLikelihoodStep(m, plan, i);
      PlanLikelihoodErrPersists(m, plan, i + 1);
    } else {
      assert plan[..i] == plan;
      PlanLikelihoodFailure(m, plan);
    }
  }

  /** `planProbability(plan)`. */
  method PlanProbability(m: ActionNameToInfo, plan: seq<string>) returns (r: Result<real>)
    ensures r == PlanLikelihood(m, plan)
  {
    var p := 1.0;
    var i := 0;
    while i < |plan|
      invariant 0 <= i <= |plan|
      invariant PlanLikelihood(m, plan[..i]) == Ok(p)
    {
      PlanLikelihoodStep(m, plan, i);
      var a := ParseAction(plan[i]);
      if a.Err? {
        PlanLikelihoodErrPersists(m, plan, i + 1);
        return Err(Die);
      }
      assert Tokens(plan[i])[0] == a.value.name;
      var it := Find(m, a.value.name);
      if it.None? {
        PlanLikelihoodErrPersists(m, plan, i + 1);
        return Err(Die);
      }
      assert StepInfo(m, plan[i]) == Ok(it.value);
      p := Times(p, it.value.p);
      i := i + 1;
    }
    assert plan[..i] == plan;
    return Ok(p);
  }

  /** Every probability the table records lies in [0, 1]. */
  ghost predicate Probabilities(m: ActionNameToInfo) {
    forall n :: n in m ==> 0.0 <= m[n].p <= 1.0
  }

  lemma ProductBounds(q: real, x: real)
    requires 0.0 <= q <= 1.0 && 0.0 <= x <= 1.0
    ensures 0.0 <= Times(q, x) <= q
  {
    NonNegativeProduct(q, x);
    NonNegativeProduct(q, 1.0 - x);
    assert q - q * x == q * (1.0 - x);
  }

  lemma NonNegativeProduct(a: real, b: real)
    requires 0.0 <= a && 0.0 <= b
    ensures 0.0 <= a * b
  {
  }

  /** With probabilities in [0, 1], the probability of a plan lies in
      [0, 1] and no step makes it grow. */
  lemma {:induction false} PlanLikelihoodBounds(m: ActionNameToInfo, plan: seq<string>)
    requires Probabilities(m) && PlanLikelihood(m, plan).Ok?
    ensures 0.0 <= PlanLikelihood(m, plan).value <= 1.0
    ensures |plan| > 0 ==> PlanLikelihood(m, plan).value <= PlanLikelihood(m, plan[..|plan| - 1]).value
    decreases |plan|
  {
    if |plan| > 0 {
      var n := |plan| - 1;
      PlanLikelihoodStep(m, plan, n);
      assert plan[..n + 1] == plan;
      PlanLikelihoodBounds(m, plan[..n]);
      var info := StepInfo(m, plan[n]).value;
      var toks := Tokens(plan[n]);
      assert Find(m, toks[0]) == Some(info);
      ProductBounds(PlanLikelihood(m, plan[..n]).value, info.p);
    }
  }

  // ---------------------------------------------------------------------
  // Most-likely-outcome determinization
  // ---------------------------------------------------------------------

  /** `max_p` after the loop: the largest outcome probability, and 0 when
      every probability is below 0 or there is none. */
  function MaxP(ps: seq<real>): real
    decreases |ps|
  {
    if |ps| == 0 then 0.0
    else
      var m := MaxP(ps[..|ps| - 1]);
      if ps[|ps| - 1] > m then ps[|ps| - 1] else m
  }

  function Sum(ps: seq<real>): real
    decreases |ps|
  {
    if |ps| == 0 then 0.0 else Sum(ps[..|ps| - 1]) + ps[|ps| - 1]
  }

  /** The outcome indices the most-likely determinization keeps: those of
      probability `max_p`, unless the no-op outcome, of probability
      1 - (sum of the others), is more likely than all of them. */
  function MostLikelySet(ps: seq<real>): set<nat> {
    if 1.0 - Sum(ps) > MaxP(ps) then {}
    else set i | 0 <= i < |ps| && ps[i] == MaxP(ps)
  }

  /** `MaxP` is at least 0 and every probability, and is 0 or one of
      them. */
  lemma {:induction false} MaxPIsMaximum(ps: seq<real>)
    ensures MaxP(ps) >= 0.0
    ensures forall i :: 0 <= i < |ps| ==> ps[i] <= MaxP(ps)
    ensures MaxP(ps) == 0.0 || exists i :: 0 <= i < |ps| && ps[i] == MaxP(ps)
    decreases |ps|
  {
    if |ps| > 0 {
      var prefix := ps[..|ps| - 1];
      MaxPIsMaximum(prefix);
      assert forall i :: 0 <= i < |prefix| ==> prefix[i] == ps[i];
      if MaxP(ps) != 0.0 && ps[|ps| - 1] != MaxP(ps) {
        var i :| 0 <= i < |prefix| && prefix[i] == MaxP(prefix);
        assert ps[i] == MaxP(ps);
      }
    }
  }

  /** An outcome is kept exactly when no outcome, the no-op included, is
      more likely, and its probability is not below 0 (the initial
      `max_p`). */
  lemma MostLikelyIff(ps: seq<real>, i: nat)
    ensures i in MostLikelySet(ps) <==>
      i < |ps| && ps[i] >= 0.0 && (forall j :: 0 <= j < |ps| ==> ps[j] <= ps[i]) && 1.0 - Sum(ps) <= ps[i]
  {
    MaxPIsMaximum(ps);
    if i < |ps| && ps[i] >= 0.0 && (forall j :: 0 <= j < |ps| ==> ps[j] <= ps[i]) {
      if MaxP(ps) != 0.0 {
        var k :| 0 <= k < |ps| && ps[k] == MaxP(ps);
        assert ps[k] <= ps[i];
      }
      assert ps[i] == MaxP(ps);
    }
  }

  /** One pass of the selection loop over outcome `i`. */
  method KeepIfLikely(ps: seq<real>, i: nat, keep: set<nat>, maxP: real) returns (keep': set<nat>, maxP': real)
    requires i < |ps| && maxP == MaxP(ps[..i])
    requires keep == set k | 0 <= k < i && ps[k] == maxP
    ensures maxP' == MaxP(ps[..i + 1])
    ensures keep' == set k | 0 <= k < i + 1 && ps[k] == maxP'
  {
    assert ps[..i + 1][..i] == ps[..i];
    var p := ps[i];
    MaxPIsMaximum(ps[..i]);
    assert forall k :: 0 <= k < i ==> ps[..i][k] == ps[k];
    if p > maxP {
      keep', maxP' := {i}, p;
    } else if p == maxP {
      keep', maxP' := keep + {i}, maxP;
    } else {
      keep', maxP' := keep, maxP;
    }
  }

  /** The selection of `most_likely_effs`. */
  method MostLikely(ps: seq<real>) returns (keep: set<nat>)
    ensures keep == MostLikelySet(ps)
  {
    var maxP := 0.0;
    var pNoop := 1.0;
    keep := {};
    var i := 0;
    while i < |ps|
      invariant 0 <= i <= |ps|
      invariant maxP == MaxP(ps[..i]) && pNoop == 1.0 - Sum(ps[..i])
      invariant keep == set k | 0 <= k < i && ps[k] == maxP
    {
      assert ps[..i + 1][..i] == ps[..i];
      pNoop := pNoop - ps[i];
      keep, maxP := KeepIfLikely(ps, i, keep, maxP);
      i := i + 1;
    }
    assert ps[..i] == ps;
    if pNoop > maxP {
      keep := {};
    }
  }

  // ---------------------------------------------------------------------
  // Emitting the outcomes of a probabilistic action
  // ---------------------------------------------------------------------

  /** The outcomes, in order, that become deterministic actions: the kept
      ones under the most-likely determinization (all of them otherwise)
      whose printed effect has a `(`, that is, changes something. */
  function Emitted(effects: seq<string>, mostLikely: bool, keep: set<nat>): (r: seq<nat>)
    ensures forall k :: 0 <= k < |r| ==> r[k] < |effects|
    decreases |effects|
  {
    if |effects| == 0 then []
    else
      var n := |effects| - 1;
      Emitted(effects[..n], mostLikely, keep)
        + (if (!mostLikely || n in keep) && '(' in effects[n] then [n] else [])
  }

  /** The emitted outcomes are exactly the chosen outcomes with a non-empty
      effect, in increasing order. */
  lemma {:induction false} EmittedIff(effects: seq<string>, mostLikely: bool, keep: set<nat>)
    ensures forall i :: i in Emitted(effects, mostLikely, keep) <==>
      0 <= i < |effects| && (!mostLikely || i in keep) && '(' in effects[i]
    ensures forall a, b :: 0 <= a < b < |Emitted(effects, mostLikely, keep)| ==>
      Emitted(effects, mostLikely, keep)[a] < Emitted(effects, mostLikely, keep)[b]
    decreases |effects|
  {
    if |effects| > 0 {
      var n := |effects| - 1;
      EmittedIff(effects[..n], mostLikely, keep);
      assert forall i :: 0 <= i < n ==> effects[..n][i] == effects[i];
    }
  }

  /** The name of the deterministic action of outcome `ei`:
      `<schema>_<ei>`. */
  function OutcomeName(schema: string, ei: nat): string {
    schema + "_" + Rationals.NatToString(ei)
  }

  /** The table after registering the emitted outcomes, one after the
      other. */
  function Registered(m: ActionNameToInfo, schema: string, ps: seq<real>, emitted: seq<nat>): ActionNameToInfo
    requires forall k :: 0 <= k < |emitted| ==> emitted[k] < |ps|
    decreases |emitted|
  {
    if |emitted| == 0 then m
    else
      var e := emitted[|emitted| - 1];
      Insert(Registered(m, schema, ps, emitted[..|emitted| - 1]), OutcomeName(schema, e), DetActionInfo(ps[e], schema))
  }

  /** One more outcome: it is emitted after those before it when it is
      chosen and changes something. */
  lemma EmittedSnoc(effects: seq<string>, mostLikely: bool, keep: set<nat>, ei: nat)
    requires ei < |effects|
    ensures Emitted(effects[..ei + 1], mostLikely, keep) == Emitted(effects[..ei], mostLikely, keep)
      + (if (!mostLikely || ei in keep) && '(' in effects[ei] then [ei] else [])
  {
    assert effects[..ei + 1][..ei] == effects[..ei] && effects[..ei + 1][ei] == effects[ei];
  }

  lemma RegisteredSnoc(m: ActionNameToInfo, schema: string, ps: seq<real>, emitted: seq<nat>, e: nat)
    requires e < |ps| && forall k :: 0 <= k < |emitted| ==> emitted[k] < |ps|
    ensures Registered(m, schema, ps, emitted + [e])
      == Insert(Registered(m, schema, ps, emitted), OutcomeName(schema, e), DetActionInfo(ps[e], schema))
  {
    assert (emitted + [e])[..|emitted|] == emitted;
  }

  /** The emission loop: each emitted outcome is registered under its name
      with its probability. */
  method EmitOutcomes(m: ActionNameToInfo, schema: string, ps: seq<real>, effects: seq<string>, mostLikely: bool, keep: set<nat>)
    returns (m': ActionNameToInfo)
    requires |ps| == |effects|
    ensures m' == Registered(m, schema, ps, Emitted(effects, mostLikely, keep))
  {
    m' := m;
    var ei := 0;
    while ei < |effects|
      invariant 0 <= ei <= |effects|
      invariant m' == Registered(m, schema, ps, Emitted(effects[..ei], mostLikely, keep))
    {
      ghost var before := Emitted(effects[..ei], mostLikely, keep);
      EmittedSnoc(effects, mostLikely, keep, ei);
      if mostLikely && ei !in keep {
        assert before + [] == before;
        ei := ei + 1;
        continue;
      }
      if '(' in effects[ei] {
        RegisteredSnoc(m, schema, ps, before, ei);
        m' := Insert(m', OutcomeName(schema, ei), DetActionInfo(ps[ei], schema));
      } else {
        assert before + [] == before;
      }
      ei := ei + 1;
    }
    assert effects[..ei] == effects;
  }

  lemma LowerOutcomeName(schema: string, ei: nat)
    ensures LowerString(OutcomeName(schema, ei)) == LowerString(schema) + "_" + Rationals.NatToString(ei)
  {
    var d := Rationals.NatToString(ei);
    LowerStringAppend(schema + "_", d);
    LowerStringAppend(schema, "_");
    assert LowerString("_") == "_";
    assert IsLowerCase(d) by {
      forall i | 0 <= i < |d| ensures !('A' <= d[i] <= 'Z') {
        assert Rationals.IsDigit(d[i]);
      }
    }
    LowerStringIdempotent(d);
  }

  /** The names of two different outcomes of a schema differ, even up to
      case. */
  lemma OutcomeNamesDiffer(schema: string, a: nat, b: nat)
    requires a != b
    ensures !EqCase(OutcomeName(schema, a), OutcomeName(schema, b))
  {
    EqCaseIsLowerEquality(OutcomeName(schema, a), OutcomeName(schema, b));
    LowerOutcomeName(schema, a);
    LowerOutcomeName(schema, b);
    var da, db := Rationals.NatToString(a), Rationals.NatToString(b);
    var l := LowerString(schema) + "_";
    if LowerString(OutcomeName(schema, a)) == LowerString(OutcomeName(schema, b)) {
      assert (l + da)[|l|..] == da && (l + db)[|l|..] == db;
      Rationals.DigitsValueOfNat(a);
      Rationals.DigitsValueOfNat(b);
      assert false;
    }
  }

  /** After the emission loop, the name of every emitted outcome finds
      that outcome's probability and schema. */
  lemma {:induction false} RegisteredFind(m: ActionNameToInfo, schema: string, ps: seq<real>, emitted: seq<nat>, k: nat)
    requires forall j :: 0 <= j < |emitted| ==> emitted[j] < |ps|
    requires forall a, b :: 0 <= a < b < |emitted| ==> emitted[a] < emitted[b]
    requires k < |emitted|
    ensures Find(Registered(m, schema, ps, emitted), OutcomeName(schema, emitted[k]))
      == Some(DetActionInfo(ps[emitted[k]], schema))
    decreases |emitted|
  {
    var n := |emitted| - 1;
    var prefix := emitted[..n];
    FindAfterInsert(Registered(m, schema, ps, prefix), OutcomeName(schema, emitted[n]),
      DetActionInfo(ps[emitted[n]], schema), OutcomeName(schema, emitted[k]));
    if k < n {
      OutcomeNamesDiffer(schema, emitted[n], emitted[k]);
      assert prefix[k] == emitted[k];
      RegisteredFind(m, schema, ps, prefix, k);
    } else {
      EqCaseEquivalence(OutcomeName(schema, emitted[k]), OutcomeName(schema, emitted[k]), "");
    }
  }

  // ---------------------------------------------------------------------
  // executionTrace
  // ---------------------------------------------------------------------

  /** A state: the atoms that hold. */
  type State = set<nat>

  /** What an instantiated deterministic effect does in a state: the atoms
      it adds and deletes, and whether all its assignments are reward
      reassignments. */
  datatype Change = Change(adds: set<nat>, dels: set<nat>, onlyRewardAssignments: bool)

  /** The instantiated effect of a schema with the given arguments in a
      state, or `None` when an argument names no object of the problem (a
      `DIE` in the source). */
  type Instantiation = (string, seq<string>, State) -> Option<Change>

  /** The next state: deletes first, then adds. */
  function Successor(s: State, c: Change): State {
    (s - c.dels) + c.adds
  }

  /** The entries pushed on the trace by the rest of a plan, from state `s`
      with likelihood `lik` so far: each step multiplies the likelihood by
      its probability, the trace ends before the first step that takes it
      below the cutoff, and a step the table does not know, an unknown
      object or an assignment other than a reward reassignment stops the
      process. */
  function TraceFrom(s: State, lik: real, plan: seq<string>, m: ActionNameToInfo,
                     instantiate: Instantiation, cutoff: real): Result<seq<(real, State)>>
    decreases |plan|
  {
    if |plan| == 0 then Ok([])
    else
      var info :- StepInfo(m, plan[0]);
      var l := Times(lik, info.p);
      if l < cutoff then Ok([])
      else match instantiate(info.schema, Tokens(plan[0])[1..], s)
        case None => Err(Die)
        case Some(c) =>
          if !c.onlyRewardAssignments then Err(Die)
          else
            var next := Successor(s, c);
            var rest :- TraceFrom(next, l, plan[1..], m, instantiate, cutoff);
            Ok([(l, next)] + rest)
  }

  /** `state_trace` after pushing the entries of `r`, unless `r` failed. */
  function Prefixed(acc: seq<(real, State)>, r: Result<seq<(real, State)>>): Result<seq<(real, State)>> {
    match r
    case Err(f) => Err(f)
    case Ok(t) => Ok(acc + t)
  }

  lemma PrefixedAssociative(acc: seq<(real, State)>, x: (real, State), r: Result<seq<(real, State)>>)
    ensures Prefixed(acc, Prefixed([x], r)) == Prefixed(acc + [x], r)
  {
    if r.Ok? {
      assert acc + ([x] + r.value) == acc + [x] + r.value;
    }
  }

  /** `executionTrace(initial_state, plan, state_trace, ..., cutoff)`: the
      entries are pushed after those already on `trace`. */
  method ExecutionTrace(init: State, plan: seq<string>, m: ActionNameToInfo,
                        instantiate: Instantiation, cutoff: real, trace: seq<(real, State)>)
    returns (r: Result<seq<(real, State)>>)
    ensures r == Prefixed(trace, TraceFrom(init, 1.0, plan, m, instantiate, cutoff))
  {
    var next := init;
    var lik := 1.0;
    var acc := trace;
    var i := 0;
    assert plan[0..] == plan;
    while i < |plan|
      invariant 0 <= i <= |plan|
      invariant Prefixed(trace, TraceFrom(init, 1.0, plan, m, instantiate, cutoff))
        == Prefixed(acc, TraceFrom(next, lik, plan[i..], m, instantiate, cutoff))
    {
      var rest := plan[i..];
      assert rest[0] == plan[i] && rest[1..] == plan[i + 1..];
      var a := ParseAction(plan[i]);
      if a.Err? {
        return Err(Die);
      }
      assert Tokens(plan[i])[0] == a.value.name && Tokens(plan[i])[1..] == a.value.args;
      var it := Find(m, a.value.name);
      if it.None? {
        return Err(Die);
      }
      assert StepInfo(m, plan[i]) == Ok(it.value);
      var l := Times(lik, it.value.p);
      if l < cutoff {
        assert acc + [] == acc;
        return Ok(acc);
      }
      var c := instantiate(it.value.schema, a.value.args, next);
      if c.None? || !c.value.onlyRewardAssignments {
        return Err(Die);
      }
      var s' := Successor(next, c.value);
      PrefixedAssociative(acc, (l, s'), TraceFrom(s', l, plan[i + 1..], m, instantiate, cutoff));
      lik, next, acc := l, s', acc + [(l, s')];
      i := i + 1;
    }
    assert plan[i..] == [] && acc + [] == acc;
    return Ok(acc);
  }

  /** The `k`-th entry pushed by the steps from position `i`, entered with
      the probability of the steps before it: its likelihood is the
      probability of the plan up to that step, and at least the cutoff. */
  lemma {:induction false} TraceEntry(s: State, lik: real, plan: seq<string>, m: ActionNameToInfo,
                                      instantiate: Instantiation, cutoff: real, i: nat, k: nat)
    requires i <= |plan| && PlanLikelihood(m, plan[..i]) == Ok(lik)
    requires TraceFrom(s, lik, plan[i..], m, instantiate, cutoff).Ok?
    requires k < |TraceFrom(s, lik, plan[i..], m, instantiate, cutoff).value|
    ensures i + k < |plan|
    ensures PlanLikelihood(m, plan[..i + k + 1]) == Ok(TraceFrom(s, lik, plan[i..], m, instantiate, cutoff).value[k].0)
    ensures TraceFrom(s, lik, plan[i..], m, instantiate, cutoff).value[k].0 >= cutoff
    decreases k
  {
    var t := TraceFrom(s, lik, plan[i..], m, instantiate, cutoff).value;
    var rest := plan[i..];
    assert rest[0] == plan[i] && rest[1..] == plan[i + 1..];
    PlanLikelihoodStep(m, plan, i);
    var info := StepInfo(m, plan[i]).value;
    var l := Times(lik, info.p);
    var c := instantiate(info.schema, Tokens(plan[i])[1..], s).value;
    var next := Successor(s, c);
    var t' := TraceFrom(next, l, plan[i + 1..], m, instantiate, cutoff).value;
    assert t == [(l, next)] + t';
    if k > 0 {
      TraceEntry(next, l, plan, m, instantiate, cutoff, i + 1, k - 1);
      assert t[k] == t'[k - 1];
    }
  }

  /** The steps from position `i` push at most one entry each, and when they
      stop early, the next step takes the probability of the plan below the
      cutoff. */
  lemma {:induction false} TraceStop(s: State, lik: real, plan: seq<string>, m: ActionNameToInfo,
                                     instantiate: Instantiation, cutoff: real, i: nat)
    requires i <= |plan| && PlanLikelihood(m, plan[..i]) == Ok(lik)
    requires TraceFrom(s, lik, plan[i..], m, instantiate, cutoff).Ok?
    ensures var n := |TraceFrom(s, lik, plan[i..], m, instantiate, cutoff).value|;
      i + n <= |plan|
      && (i + n < |plan| ==> PlanLikelihood(m, plan[..i + n + 1]).Ok? && PlanLikelihood(m, plan[..i + n + 1]).value < cutoff)
    decreases |plan| - i
  {
    if i < |plan| {
      var t := TraceFrom(s, lik, plan[i..], m, instantiate, cutoff).value;
      var rest := plan[i..];
      assert rest[0] == plan[i] && rest[1..] == plan[i + 1..];
      PlanLikelihoodStep(m, plan, i);
      var info := StepInfo(m, plan[i]).value;
      var l := Times(lik, info.p);
      if l >= cutoff {
        var c := instantiate(info.schema, Tokens(plan[i])[1..], s).value;
        var next := Successor(s, c);
        TraceStop(next, l, plan, m, instantiate, cutoff, i + 1);
        var t' := TraceFrom(next, l, plan[i + 1..], m, instantiate, cutoff).value;
        assert |t| == 1 + |t'|;
      }
    }
  }

  /** The execution trace of a whole plan: every pushed likelihood is the
      probability of the plan so far and at least the cutoff; a trace as
      long as the plan ends with the probability `planProbability`
      computes. */
  lemma TraceMeetsCutoff(init: State, plan: seq<string>, m: ActionNameToInfo,
                         instantiate: Instantiation, cutoff: real)
    requires TraceFrom(init, 1.0, plan, m, instantiate, cutoff).Ok?
    ensures var t := TraceFrom(init, 1.0, plan, m, instantiate, cutoff).value;
      |t| <= |plan|
      && (forall k :: 0 <= k < |t| ==> t[k].0 >= cutoff && PlanLikelihood(m, plan[..k + 1]) == Ok(t[k].0))
      && (|t| == |plan| > 0 ==> PlanLikelihood(m, plan) == Ok(t[|t| - 1].0))
      && (|t| < |plan| ==> PlanLikelihood(m, plan[..|t| + 1]).Ok? && PlanLikelihood(m, plan[..|t| + 1]).value < cutoff)
  {
    assert plan[..0] == [] && plan[0..] == plan;
    var t := TraceFrom(init, 1.0, plan, m, instantiate, cutoff).value;
    TraceStop(init, 1.0, plan, m, instantiate, cutoff, 0);
    forall k | 0 <= k < |t|
      ensures t[k].0 >= cutoff && PlanLikelihood(m, plan[..k + 1]) == Ok(t[k].0)
    {
      TraceEntry(init, 1.0, plan, m, instantiate, cutoff, 0, k);
    }
    assert plan[..|plan|] == plan;
  }
}
