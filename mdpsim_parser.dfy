/** The hand-written semantic helpers of the MDPSim PDDL parser: the
  context of free variables (`Context`, a stack of name-to-variable
  frames), the stack of quantified variables that a quantifier opens with
  a marker and closes back to its length before the marker, the checks on
  probabilistic outcomes, `make_subtraction`, the error and warning
  reporters, the requirements the helpers assume, the declarations of
  predicates, functions, actions and objects, terms, atoms and fluents
  with their arity checks, add, delete and update effects, equality,
  negation and implication, and the problem's goal reward and default
  metric.

  The parser's globals become the fields of a `Parser` object; the
  diagnostics (`success`, `warning_level`, what is printed on the error
  stream) and the requirements of the domain being parsed are objects of
  their own, as the requirements are in the source.  Effects, formulas and
  expressions built by the unseen MDPSim libraries are datatypes whose
  leaves stand for the objects those libraries build.
*/
module MdpsimParser {
  import opened Wrappers
  import Formulas
  import Seqs

  /** A variable of the term table, by its number (the `Formulas.Variable`
      term of that number). */
  type Variable = nat

  type Frame = map<string, Variable>

  // ---------------------------------------------------------------------
  // Context
  // ---------------------------------------------------------------------

  /** The binding of `name` in the innermost frame that has one. */
  function Lookup(frames: seq<Frame>, name: string): Option<Variable>
    decreases |frames|
  {
    if |frames| == 0 then None
    else if name in frames[|frames| - 1] then Some(frames[|frames| - 1][name])
    else Lookup(frames[..|frames| - 1], name)
  }

  /** An inner binding shadows every outer one. */
  lemma {:induction false} LookupInnermost(frames: seq<Frame>, name: string, i: nat)
    requires i < |frames| && name in frames[i]
    requires forall j :: i < j < |frames| ==> name !in frames[j]
    ensures Lookup(frames, name) == Some(frames[i][name])
    decreases |frames|
  {
    if i < |frames| - 1 {
      var outer := frames[..|frames| - 1];
      assert forall j :: i < j < |outer| ==> outer[j] == frames[j];
      LookupInnermost(outer, name, i);
    }
  }

  /** A name is found exactly when some frame binds it. */
  lemma {:induction false} LookupAbsent(frames: seq<Frame>, name: string)
    ensures Lookup(frames, name).None? <==> forall i :: 0 <= i < |frames| ==> name !in frames[i]
    decreases |frames|
  {
    if |frames| > 0 {
      var outer := frames[..|frames| - 1];
      LookupAbsent(outer, name);
      assert forall i :: 0 <= i < |outer| ==> outer[i] == frames[i];
    }
  }

  /** What `std::map::insert` does: a new name is bound, a bound name
      keeps its binding. */
  function Bind(m: Frame, name: string, v: Variable): (r: Frame)
    ensures r.Keys == m.Keys + {name}
    ensures name in m ==> r == m
    ensures name !in m ==> r[name] == v && forall n :: n in m ==> r[n] == m[n]
  {
    if name in m then m else m[name := v]
  }

  /** The frames after `insert(name, v)`. */
  function InsertInto(frames: seq<Frame>, name: string, v: Variable): seq<Frame>
    requires |frames| > 0
  {
    frames[..|frames| - 1] + [Bind(frames[|frames| - 1], name, v)]
  }

  /** After an insert the name is found, bound to `v` unless the innermost
      frame already bound it, and every other name is found as before. */
  lemma LookupAfterInsert(frames: seq<Frame>, name: string, v: Variable, other: string)
    requires |frames| > 0
    ensures Lookup(InsertInto(frames, name, v), other) ==
      if other != name then Lookup(frames, other)
      else if name in frames[|frames| - 1] then Some(frames[|frames| - 1][name])
      else Some(v)
  {
    var inner := InsertInto(frames, name, v);
    assert inner[..|inner| - 1] == frames[..|frames| - 1];
  }

  /** A new empty frame hides nothing, and popping it gives the frames
      back. */
  lemma LookupAfterPush(frames: seq<Frame>, name: string)
    ensures Lookup(frames + [map[]], name) == Lookup(frames, name)
    ensures (frames + [map[]])[..|frames|] == frames
  {
    assert (frames + [map[]])[..|frames|] == frames;
  }

  /** `struct Context`: the frames of free variables, innermost last. */
  class Context {
    var frames: seq<Frame>

    constructor ()
      ensures frames == []
    {
      frames := [];
    }

    /** `push_frame()`. */
    method PushFrame()
      modifies this
      ensures frames == old(frames) + [map[]]
    {
      frames := frames + [map[]];
    }

    /** `pop_frame()`: drops the innermost frame. */
    method PopFrame()
      requires |frames| > 0
      modifies this
      ensures frames == old(frames)[..|old(frames)| - 1]
    {
      frames := frames[..|frames| - 1];
    }

    /** `insert(name, v)`: binds the name in the innermost frame unless it
        is bound there already. */
    method Insert(name: string, v: Variable)
      requires |frames| > 0
      modifies this
      ensures frames == InsertInto(old(frames), name, v)
    {
      var last := frames[|frames| - 1];
      if name !in last {
        last := last[name := v];
      }
      frames := frames[..|frames| - 1] + [last];
    }

    /** `shallow_find(name)`: the binding in the innermost frame only. */
    function ShallowFind(name: string): (r: Option<Variable>)
      reads this
      requires |frames| > 0
      ensures r.Some? ==> Lookup(frames, name) == r
      ensures r.None? <==> name !in frames[|frames| - 1]
    {
      var last := frames[|frames| - 1];
      if name in last then Some(last[name]) else None
    }

    /** `find(name)`: searches the frames from the innermost outwards. */
    method Find(name: string) returns (r: Option<Variable>)
      ensures r == Lookup(frames, name)
    {
      var i := |frames|;
      assert frames[..i] == frames;
      while i > 0
        invariant 0 <= i <= |frames|
        invariant Lookup(frames, name) == Lookup(frames[..i], name)
      {
        assert frames[..i][..i - 1] == frames[..i - 1];
        if name in frames[i - 1] {
          return Some(frames[i - 1][name]);
        }
        i := i - 1;
      }
      return None;
    }
  }

  // ---------------------------------------------------------------------
  // Diagnostics
  // ---------------------------------------------------------------------

  /** `success`, `warning_level` and the messages printed on the error
      stream (without their file and line prefix). */
  class Diagnostics {
    var success: bool
    const warningLevel: int
    var messages: seq<string>

    constructor (warningLevel: int)
      ensures success && this.warningLevel == warningLevel && messages == []
    {
      success := true;
      this.warningLevel := warningLevel;
      messages := [];
    }

    /** `yyerror(s)`: prints the message and marks the parse as failed. */
    method Error(s: string)
      modifies this
      ensures !success && messages == old(messages) + [s]
    {
      messages := messages + [s];
      success := false;
    }

    /** `yywarning(s)`: printed only above warning level 0, and a failure
        only above level 1. */
    method Warning(s: string)
      modifies this
      ensures messages == if warningLevel > 0 then old(messages) + [s] else old(messages)
      ensures success == (old(success) && warningLevel <= 1)
    {
      if warningLevel > 0 {
        messages := messages + [s];
        if warningLevel > 1 {
          success := false;
        }
      }
    }
  }

  // ---------------------------------------------------------------------
  // Requirements
  // ---------------------------------------------------------------------

  /** The requirements the helpers read, or assume when a construct needs
      them. */
  datatype Requirement =
    | Typing | Fluents | DisjunctivePreconditions | ConditionalEffects | ProbabilisticEffects
    | ExistentialPreconditions | UniversalPreconditions | Equality | NegativePreconditions | Rewards

  function RequirementName(r: Requirement): string {
    match r
    case Typing => ":typing"
    case Fluents => ":fluents"
    case DisjunctivePreconditions => ":disjunctive-preconditions"
    case ConditionalEffects => ":conditional-effects"
    case ProbabilisticEffects => ":probabilistic-effects"
    case ExistentialPreconditions => ":existential-preconditions"
    case UniversalPreconditions => ":universal-preconditions"
    case Equality => ":equality"
    case NegativePreconditions => ":negative-preconditions"
    case Rewards => ":rewards"
  }

  /** The warning for a requirement that was not declared. */
  function AssumingMessage(r: Requirement): string {
    "assuming `" + RequirementName(r) + "' requirement"
  }

  /** The messages after `yywarning(s)` at warning level `level`. */
  function Warned(messages: seq<string>, s: string, level: int): seq<string> {
    if level > 0 then messages + [s] else messages
  }

  /** The messages after a construct assumes `r` while `declared` holds the
      requirements. */
  function Assumed(messages: seq<string>, r: Requirement, declared: set<Requirement>, level: int): seq<string> {
    if r in declared then messages else Warned(messages, AssumingMessage(r), level)
  }

  /** Whether the parse still succeeds after that assumption. */
  function AssumedSuccess(success: bool, r: Requirement, declared: set<Requirement>, level: int): bool {
    success && (r in declared || level <= 1)
  }

  /** The requirements of the domain being parsed. */
  class Requirements {
    var declared: set<Requirement>

    constructor (declared: set<Requirement>)
      ensures this.declared == declared
    {
      this.declared := declared;
    }
  }

  // ---------------------------------------------------------------------
  // Declarations
  // ---------------------------------------------------------------------

  /** The names the helpers declare in the domain's tables (predicates,
      functions, actions) and the objects of the term table in use (the
      problem's while a problem is parsed, the domain's otherwise), the
      predicates and functions marked dynamic, what the problem records,
      and the flags the helpers share with the grammar actions. */
  class Declarations {
    var predicates: set<string>
    var functions: set<string>
    var actions: set<string>
    var objects: map<string, nat>
    var dynamicPredicates: set<nat>
    var dynamicFunctions: set<int>
    /** `problem != 0`: a problem, not a domain, is being parsed. */
    var problem: bool
    /** `reward_function`: -1 until the domain declares rewards. */
    var rewardFunction: int
    var repeatedPredicate: bool
    var repeatedFunction: bool
    var undeclaredAtomPredicate: bool
    var undeclaredFluentFunction: bool
    var effectFluent: bool
    var metricFluent: bool
    /** The action being parsed, by name (`action`, or 0 as `None`). */
    var action: Option<string>
    /** The problem's goal reward and its metric: the fluent's function and
        whether the metric is negated. */
    var goalReward: Option<Update>
    var metric: Option<(int, bool)>

    constructor ()
      ensures predicates == {} && functions == {} && actions == {} && objects == map[]
      ensures dynamicPredicates == {} && dynamicFunctions == {} && !problem && rewardFunction == -1
      ensures !repeatedPredicate && !repeatedFunction && !undeclaredAtomPredicate && !undeclaredFluentFunction
      ensures !effectFluent && !metricFluent && action == None && goalReward == None && metric == None
    {
      predicates, functions, actions, objects := {}, {}, {}, map[];
      dynamicPredicates, dynamicFunctions, problem, rewardFunction := {}, {}, false, -1;
      repeatedPredicate, repeatedFunction := false, false;
      undeclaredAtomPredicate, undeclaredFluentFunction := false, false;
      effectFluent, metricFluent, action, goalReward, metric := false, false, None, None, None;
    }
  }

  /** The warning for a predicate or function first seen in a formula. */
  function UndeclaredMessage(kind: string, name: string, problem: bool): string {
    if problem then "undeclared " + kind + " `" + name + "' used"
    else "implicit declaration of " + kind + " `" + name + "'"
  }

  /** The functions every domain declares itself: `total-time`,
      `goal-achieved` and, with rewards, `reward`. */
  predicate ReservedFunction(name: string, rewards: bool) {
    (rewards && name == "reward") || name == "total-time" || name == "goal-achieved"
  }

  /** A name the lexer gives for a variable starts with `?`; an empty name
      reads the string's terminating NUL, which is not one. */
  predicate VariableName(name: string) {
    |name| > 0 && name[0] == '?'
  }

  // ---------------------------------------------------------------------
  // The quantified stack
  // ---------------------------------------------------------------------

  /** An entry of `quantified`: the marker `Term(0)` a quantifier opens
      with, or a variable it binds. */
  datatype Term = Marker | Var(v: Variable)

  /** How many markers the stack holds. */
  function Markers(q: seq<Term>): nat
    decreases |q|
  {
    if |q| == 0 then 0 else Markers(q[..|q| - 1]) + (if q[|q| - 1] == Marker then 1 else 0)
  }

  /** The position of the last marker. */
  function LastMarker(q: seq<Term>): (n: nat)
    requires Marker in q
    ensures n < |q| && q[n] == Marker
    ensures forall j :: n < j < |q| ==> q[j].Var?
    decreases |q|
  {
    if q[|q| - 1] == Marker then |q| - 1
    else
      assert Marker in q[..|q| - 1] by {
        var k :| 0 <= k < |q| && q[k] == Marker;
        assert q[..|q| - 1][k] == Marker;
      }
      LastMarker(q[..|q| - 1])
  }

  /** The variables of a run of variable entries. */
  function Vars(ts: seq<Term>): (vs: seq<Variable>)
    ensures |vs| == |ts|
    ensures forall i :: 0 <= i < |ts| && ts[i].Var? ==> vs[i] == ts[i].v
  {
    seq(|ts|, i requires 0 <= i < |ts| => if ts[i].Var? then ts[i].v else 0)
  }

  /** The entries a quantifier pushes for its variables. */
  function VarTerms(vs: seq<Variable>): (ts: seq<Term>)
    ensures |ts| == |vs| && forall i :: 0 <= i < |vs| ==> ts[i] == Var(vs[i])
  {
    seq(|vs|, i requires 0 <= i < |vs| => Var(vs[i]))
  }

  /** Cutting at the last marker removes one marker. */
  lemma {:induction false} MarkersBeforeLast(q: seq<Term>)
    requires Marker in q
    ensures Markers(q[..LastMarker(q)]) + 1 == Markers(q)
    decreases |q|
  {
    var init := q[..|q| - 1];
    if q[|q| - 1] != Marker {
      assert Marker in init by {
        var k :| 0 <= k < |q| && q[k] == Marker;
        assert init[k] == Marker;
      }
      MarkersBeforeLast(init);
      assert init[..LastMarker(init)] == q[..LastMarker(q)];
    }
  }

  /** A quantifier opened on `q` and given the variables `vs` closes back to
      `q`, with exactly `vs` as its parameters. */
  lemma ScopeRoundTrip(q: seq<Term>, vs: seq<Variable>)
    ensures var s := q + [Marker] + VarTerms(vs);
      Marker in s && LastMarker(s) == |q| && s[..|q|] == q && Vars(s[|q| + 1..]) == vs
  {
    var s := q + [Marker] + VarTerms(vs);
    assert s[|q|] == Marker;
    assert forall j :: |q| < j < |s| ==> s[j] == Var(vs[j - |q| - 1]);
    LastMarkerIs(s, |q|);
    assert s[..|q|] == q;
    assert s[|q| + 1..] == VarTerms(vs);
  }

  lemma LastMarkerIs(q: seq<Term>, n: nat)
    requires n < |q| && q[n] == Marker && forall j :: n < j < |q| ==> q[j].Var?
    ensures LastMarker(q) == n
  {
  }

  // ---------------------------------------------------------------------
  // Effects, formulas and expressions
  // ---------------------------------------------------------------------

  /** A fluent: a function applied to terms. */
  datatype Fluent = Fluent(fn: int, terms: seq<Formulas.Term>)

  /** The five update operations of an effect on a fluent. */
  datatype UpdateKind = Assign | ScaleUp | ScaleDown | Increase | Decrease

  datatype Update = Update(kind: UpdateKind, fluent: Fluent, expr: Formulas.Expression)

  /** The effects the helpers build; `EffectOf` stands for one built
      elsewhere. */
  datatype Effect =
    | EmptyEffect
    | EffectOf(id: nat)
    | AddEffect(atom: Formulas.Formula)
    | DeleteEffect(atom: Formulas.Formula)
    | UpdateEffect(update: Update)
    | ProbabilisticEffect(outcomes: seq<(real, Effect)>)
    | QuantifiedEffect(parameters: seq<Variable>, body: Effect)

  /** The state formulas of `formulas.cc`. */
  type StateFormula = Formulas.Formula

  type Expression = Formulas.Expression

  /** `make_subtraction(term, opt_term)`: `term - opt_term`, or the
      negation `0 - term` without a second operand. */
  function MakeSubtraction(term: Expression, optTerm: Option<Expression>): Expression {
    if optTerm.Some? then Formulas.Subtraction(term, optTerm.value) else Formulas.Subtraction(Formulas.Value(0.0), term)
  }

  /** Whatever the leaves' values, the subtraction built evaluates to the
      difference, or to the negation without a second operand. */
  lemma MakeSubtractionValue(term: Expression, optTerm: Option<Expression>, leaf: nat -> real)
    ensures Formulas.Eval(MakeSubtraction(term, optTerm), leaf) ==
      (if optTerm.Some? then Formulas.Eval(term, leaf) - Formulas.Eval(optTerm.value, leaf) else -Formulas.Eval(term, leaf))
  {
  }

  /** The sum of the outcome probabilities. */
  function ProbSum(os: seq<(real, Effect)>): real
    decreases |os|
  {
    if |os| == 0 then 0.0 else ProbSum(os[..|os| - 1]) + os[|os| - 1].0
  }

  /** Outcome probabilities in [0, 1] that add up to at most 1. */
  predicate Distribution(os: seq<(real, Effect)>) {
    (forall i :: 0 <= i < |os| ==> 0.0 <= os[i].0 <= 1.0) && ProbSum(os) <= 1.0
  }

  /** Adding up non-negative probabilities never decreases each one's
      share: every outcome of a distribution is at most its sum. */
  lemma {:induction false} OutcomeBelowSum(os: seq<(real, Effect)>, i: nat)
    requires forall k :: 0 <= k < |os| ==> os[k].0 >= 0.0
    requires i < |os|
    ensures os[i].0 <= ProbSum(os)
    decreases |os|
  {
    var init := os[..|os| - 1];
    NonNegativeSum(init);
    if i < |os| - 1 {
      assert forall k :: 0 <= k < |init| ==> init[k] == os[k];
      OutcomeBelowSum(init, i);
    }
  }

  lemma {:induction false} NonNegativeSum(os: seq<(real, Effect)>)
    requires forall k :: 0 <= k < |os| ==> os[k].0 >= 0.0
    ensures ProbSum(os) >= 0.0
    decreases |os|
  {
    if |os| > 0 {
      var init := os[..|os| - 1];
      assert forall k :: 0 <= k < |init| ==> init[k] == os[k];
      NonNegativeSum(init);
    }
  }

  // ---------------------------------------------------------------------
  // The parser's state
  // ---------------------------------------------------------------------

  class Parser {
    const diagnostics: Diagnostics
    const requirements: Requirements
    const context: Context
    const declarations: Declarations
    /** `quantified`: the markers and variables of the open quantifiers. */
    var quantified: seq<Term>

    /** Variables are only pushed inside a quantifier, so the stack starts
        with a marker, and every marker has its own context frame. */
    ghost predicate Valid()
      reads this, context
    {
      (|quantified| > 0 ==> quantified[0] == Marker) && Markers(quantified) <= |context.frames|
    }

    constructor (warningLevel: int, declared: set<Requirement>)
      ensures Valid() && quantified == [] && context.frames == []
      ensures diagnostics.success && diagnostics.warningLevel == warningLevel && diagnostics.messages == []
      ensures requirements.declared == declared
      ensures declarations.objects == map[] && declarations.action == None && declarations.metric == None
      ensures fresh(diagnostics) && fresh(requirements) && fresh(context) && fresh(declarations)
    {
      diagnostics := new Diagnostics(warningLevel);
      requirements := new Requirements(declared);
      context := new Context();
      declarations := new Declarations();
      quantified := [];
    }

    /** A construct needs requirement `r`: when it was not declared, warn
        and assume it. */
    method AssumeRequirement(r: Requirement)
      modifies requirements, diagnostics
      ensures requirements.declared == old(requirements.declared) + {r}
      ensures r in old(requirements.declared) ==>
        diagnostics.messages == old(diagnostics.messages) && diagnostics.success == old(diagnostics.success)
      ensures r !in old(requirements.declared) ==>
        diagnostics.messages == old(diagnostics.messages) + (if diagnostics.warningLevel > 0 then [AssumingMessage(r)] else [])
        && diagnostics.success == (old(diagnostics.success) && diagnostics.warningLevel <= 1)
    {
      if r !in requirements.declared {
        diagnostics.Warning(AssumingMessage(r));
        requirements.declared := requirements.declared + {r};
      }
    }

    /** Opens a quantifier: a new context frame and a marker. */
    method OpenScope()
      requires Valid()
      modifies this, context
      ensures Valid()
      ensures context.frames == old(context.frames) + [map[]]
      ensures quantified == old(quantified) + [Marker]
    {
      context.PushFrame();
      quantified := quantified + [Marker];
      assert (quantified)[..|quantified| - 1] == old(quantified);
    }

    /** `prepare_forall_effect()`. */
    method PrepareForallEffect()
      requires Valid()
      modifies this, context, requirements, diagnostics
      ensures Valid()
      ensures requirements.declared == old(requirements.declared) + {ConditionalEffects}
      ensures diagnostics.messages == Assumed(old(diagnostics.messages), ConditionalEffects, old(requirements.declared), diagnostics.warningLevel)
      ensures diagnostics.success == AssumedSuccess(old(diagnostics.success), ConditionalEffects, old(requirements.declared), diagnostics.warningLevel)
      ensures context.frames == old(context.frames) + [map[]]
      ensures quantified == old(quantified) + [Marker]
    {
      AssumeRequirement(ConditionalEffects);
      OpenScope();
    }

    /** `prepare_exists()`. */
    method PrepareExists()
      requires Valid()
      modifies this, context, requirements, diagnostics
      ensures Valid()
      ensures requirements.declared == old(requirements.declared) + {ExistentialPreconditions}
      ensures diagnostics.messages == Assumed(old(diagnostics.messages), ExistentialPreconditions, old(requirements.declared), diagnostics.warningLevel)
      ensures diagnostics.success == AssumedSuccess(old(diagnostics.success), ExistentialPreconditions, old(requirements.declared), diagnostics.warningLevel)
      ensures context.frames == old(context.frames) + [map[]]
      ensures quantified == old(quantified) + [Marker]
    {
      AssumeRequirement(ExistentialPreconditions);
      OpenScope();
    }

    /** `prepare_forall()`. */
    method PrepareForall()
      requires Valid()
      modifies this, context, requirements, diagnostics
      ensures Valid()
      ensures requirements.declared == old(requirements.declared) + {UniversalPreconditions}
      ensures diagnostics.messages == Assumed(old(diagnostics.messages), UniversalPreconditions, old(requirements.declared), diagnostics.warningLevel)
      ensures diagnostics.success == AssumedSuccess(old(diagnostics.success), UniversalPreconditions, old(requirements.declared), diagnostics.warningLevel)
      ensures context.frames == old(context.frames) + [map[]]
      ensures quantified == old(quantified) + [Marker]
    {
      AssumeRequirement(UniversalPreconditions);
      OpenScope();
    }

    /** Closes the innermost quantifier: pops its frame, scans down from
        the top of the stack to its marker, collects the variables above
        the marker and cuts the stack back to its length before it. */
    method CloseScope() returns (parameters: seq<Variable>)
      requires Valid() && |quantified| > 0
      modifies this, context
      ensures Valid()
      ensures Marker in old(quantified)
      ensures quantified == old(quantified)[..LastMarker(old(quantified))]
      ensures parameters == Vars(old(quantified)[LastMarker(old(quantified)) + 1..])
      ensures |old(context.frames)| > 0 && context.frames == old(context.frames)[..|old(context.frames)| - 1]
    {
      var q := quantified;
      assert Marker in q by {
        assert q[0] == Marker;
      }
      MarkersBeforeLast(q);
      context.PopFrame();
      var m := |q| - 1;
      var n := m;
      while q[n].Var?
        invariant LastMarker(q) <= n <= m
        decreases n
      {
        n := n - 1;
      }
      assert n == LastMarker(q);
      parameters := [];
      var i := n + 1;
      while i <= m
        invariant n + 1 <= i <= m + 1
        invariant parameters == Vars(q[n + 1..i])
      {
        assert q[n + 1..i + 1] == q[n + 1..i] + [q[i]] by {
          Seqs.SliceSnoc(q, n + 1, i);
        }
        parameters := parameters + [q[i].v];
        i := i + 1;
      }
      assert q[n + 1..i] == q[n + 1..];
      quantified := q[..n];
    }

    /** `make_forall_effect(effect)`. */
    method MakeForallEffect(effect: Effect) returns (e: Effect)
      requires Valid() && |quantified| > 0
      modifies this, context
      ensures Valid()
      ensures Marker in old(quantified)
      ensures quantified == old(quantified)[..LastMarker(old(quantified))]
      ensures e == QuantifiedEffect(Vars(old(quantified)[LastMarker(old(quantified)) + 1..]), effect)
      ensures |old(context.frames)| > 0 && context.frames == old(context.frames)[..|old(context.frames)| - 1]
    {
      var parameters := CloseScope();
      e := QuantifiedEffect(parameters, effect);
    }

    /** `make_exists(body)`: the body itself when the quantifier bound no
        variable, and otherwise `Exists::make`, which also gives back a body
        whose truth value is already known. */
    method MakeExists(body: StateFormula) returns (f: StateFormula)
      requires Valid() && |quantified| > 0
      modifies this, context
      ensures Valid()
      ensures Marker in old(quantified)
      ensures quantified == old(quantified)[..LastMarker(old(quantified))]
      ensures var ps := Vars(old(quantified)[LastMarker(old(quantified)) + 1..]);
        f == if |ps| > 0 then Formulas.ExistsMake(ps, body) else body
      ensures Formulas.TruthinessOf(f) == Formulas.TruthinessOf(body)
      ensures f.Exists? && !body.Exists? ==>
        f.parameters == Vars(old(quantified)[LastMarker(old(quantified)) + 1..]) && f.body == body
      ensures |old(context.frames)| > 0 && context.frames == old(context.frames)[..|old(context.frames)| - 1]
    {
      var parameters := CloseScope();
      f := if |parameters| > 0 then Formulas.ExistsMake(parameters, body) else body;
      Formulas.QuantifierMakeTruthiness(parameters, body);
    }

    /** `make_forall(body)`: the body itself when the quantifier bound no
        variable, and otherwise `Forall::make`. */
    method MakeForall(body: StateFormula) returns (f: StateFormula)
      requires Valid() && |quantified| > 0
      modifies this, context
      ensures Valid()
      ensures Marker in old(quantified)
      ensures quantified == old(quantified)[..LastMarker(old(quantified))]
      ensures var ps := Vars(old(quantified)[LastMarker(old(quantified)) + 1..]);
        f == if |ps| > 0 then Formulas.ForallMake(ps, body) else body
      ensures Formulas.TruthinessOf(f) == Formulas.TruthinessOf(body)
      ensures f.Forall? && !body.Forall? ==>
        f.parameters == Vars(old(quantified)[LastMarker(old(quantified)) + 1..]) && f.body == body
      ensures |old(context.frames)| > 0 && context.frames == old(context.frames)[..|old(context.frames)| - 1]
    {
      var parameters := CloseScope();
      f := if |parameters| > 0 then Formulas.ForallMake(parameters, body) else body;
      Formulas.QuantifierMakeTruthiness(parameters, body);
    }

    /** The variable part of `add_variables` for one name: a name already
        bound in the innermost frame is an error, one bound further out a
        warning; the name is then inserted, and the variable becomes a
        quantifier's parameter when a quantifier is open and the action's
        otherwise (the result says which). */
    method AddVariable(name: string, v: Variable) returns (actionParameter: bool)
      requires Valid() && |context.frames| > 0
      modifies this, context, diagnostics
      ensures Valid()
      ensures context.frames == InsertInto(old(context.frames), name, v)
      ensures actionParameter <==> old(quantified) == []
      ensures quantified == if actionParameter then old(quantified) else old(quantified) + [Var(v)]
      ensures name in old(context.frames)[|old(context.frames)| - 1] ==>
        !diagnostics.success && diagnostics.messages == old(diagnostics.messages) + ["repetition of parameter `" + name + "'"]
      ensures name !in old(context.frames)[|old(context.frames)| - 1] && Lookup(old(context.frames), name).None? ==>
        diagnostics.messages == old(diagnostics.messages) && diagnostics.success == old(diagnostics.success)
      ensures name !in old(context.frames)[|old(context.frames)| - 1] && Lookup(old(context.frames), name).Some? ==>
        diagnostics.messages == (if diagnostics.warningLevel > 0
                                 then old(diagnostics.messages) + ["shadowing parameter `" + name + "'"]
                                 else old(diagnostics.messages)) &&
        diagnostics.success == (old(diagnostics.success) && diagnostics.warningLevel <= 1)
    {
      if context.ShallowFind(name).Some? {
        diagnostics.Error("repetition of parameter `" + name + "'");
      } else {
        var outer := context.Find(name);
        if outer.Some? {
          diagnostics.Warning("shadowing parameter `" + name + "'");
        }
      }
      context.Insert(name, v);
      if |quantified| > 0 {
        quantified := quantified + [Var(v)];
        assert quantified[..|quantified| - 1] == old(quantified);
        actionParameter := false;
      } else {
        actionParameter := true;
      }
    }

    /** `add_outcome(os, p, effect)`: a probability outside [0, 1] is an
        error; the outcome is appended either way. */
    method AddOutcome(os: seq<(real, Effect)>, p: real, effect: Effect) returns (os': seq<(real, Effect)>)
      modifies requirements, diagnostics
      ensures os' == os + [(p, effect)]
      ensures requirements.declared == old(requirements.declared) + {ProbabilisticEffects}
      ensures diagnostics.messages ==
        Assumed(old(diagnostics.messages), ProbabilisticEffects, old(requirements.declared), diagnostics.warningLevel)
        + (if p < 0.0 || p > 1.0 then ["outcome probability needs to be in the interval [0,1]"] else [])
      ensures diagnostics.success ==
        (AssumedSuccess(old(diagnostics.success), ProbabilisticEffects, old(requirements.declared), diagnostics.warningLevel)
         && 0.0 <= p <= 1.0)
    {
      AssumeRequirement(ProbabilisticEffects);
      if p < 0.0 || p > 1.0 {
        diagnostics.Error("outcome probability needs to be in the interval [0,1]");
      }
      os' := os + [(p, effect)];
    }

    /** `make_prob_effect(os)`: outcomes that add up to more than 1 are an
        error and give the empty effect. */
    method MakeProbEffect(os: seq<(real, Effect)>) returns (e: Effect)
      modifies diagnostics
      ensures ProbSum(os) > 1.0 ==>
        (e == EmptyEffect && !diagnostics.success
         && diagnostics.messages == old(diagnostics.messages) + ["effect outcome probabilities add up to more than 1"])
      ensures ProbSum(os) <= 1.0 ==>
        (e == ProbabilisticEffect(os)
         && diagnostics.success == old(diagnostics.success) && diagnostics.messages == old(diagnostics.messages))
    {
      var psum := 0.0;
      var i := 0;
      while i < |os|
        invariant 0 <= i <= |os|
        invariant psum == ProbSum(os[..i])
      {
        assert os[..i + 1][..i] == os[..i];
        psum := psum + os[i].0;
        i := i + 1;
      }
      assert os[..i] == os;
      if psum > 1.0 {
        diagnostics.Error("effect outcome probabilities add up to more than 1");
        return EmptyEffect;
      }
      return ProbabilisticEffect(os);
    }

    // -------------------------------------------------------------------
    // Declarations of predicates, functions and actions

    /** `make_predicate(name)`: declares the predicate, or warns that a
        repeated declaration is ignored. */
    method MakePredicate(name: string)
      modifies declarations`predicates, declarations`repeatedPredicate, diagnostics
      ensures declarations.predicates == old(declarations.predicates) + {name}
      ensures declarations.repeatedPredicate <==> name in old(declarations.predicates)
      ensures diagnostics.messages ==
        if name in old(declarations.predicates)
        then Warned(old(diagnostics.messages), "ignoring repeated declaration of predicate `" + name + "'", diagnostics.warningLevel)
        else old(diagnostics.messages)
      ensures diagnostics.success ==
        (old(diagnostics.success) && (name !in old(declarations.predicates) || diagnostics.warningLevel <= 1))
    {
      if name !in declarations.predicates {
        declarations.repeatedPredicate := false;
        declarations.predicates := declarations.predicates + {name};
      } else {
        declarations.repeatedPredicate := true;
        diagnostics.Warning("ignoring repeated declaration of predicate `" + name + "'");
      }
    }

    /** `make_function(name)`: declares the function; a repeated declaration
        is ignored with a warning, which calls a reserved function's name
        reserved. */
    method MakeFunction(name: string)
      modifies declarations`functions, declarations`repeatedFunction, diagnostics
      ensures declarations.functions == old(declarations.functions) + {name}
      ensures declarations.repeatedFunction <==> name in old(declarations.functions)
      ensures diagnostics.messages ==
        if name !in old(declarations.functions) then old(diagnostics.messages)
        else if ReservedFunction(name, Rewards in requirements.declared)
        then Warned(old(diagnostics.messages), "ignoring declaration of reserved function `" + name + "'", diagnostics.warningLevel)
        else Warned(old(diagnostics.messages), "ignoring repeated declaration of function `" + name + "'", diagnostics.warningLevel)
      ensures diagnostics.success ==
        (old(diagnostics.success) && (name !in old(declarations.functions) || diagnostics.warningLevel <= 1))
    {
      declarations.repeatedFunction := false;
      if name !in declarations.functions {
        declarations.functions := declarations.functions + {name};
      } else {
        declarations.repeatedFunction := true;
        if Rewards in requirements.declared && name == "reward" {
          diagnostics.Warning("ignoring declaration of reserved function `" + name + "'");
        } else if name == "total-time" || name == "goal-achieved" {
          diagnostics.Warning("ignoring declaration of reserved function `" + name + "'");
        } else {
          diagnostics.Warning("ignoring repeated declaration of function `" + name + "'");
        }
      }
    }

    /** `make_action(name)`: opens the action's frame of parameters. */
    method MakeAction(name: string)
      requires Valid()
      modifies context, declarations`action
      ensures Valid()
      ensures context.frames == old(context.frames) + [map[]]
      ensures declarations.action == Some(name)
    {
      context.PushFrame();
      declarations.action := Some(name);
    }

    /** `add_action()`: closes the action's frame and declares the action,
        or warns that a repeated declaration is ignored. */
    method AddAction()
      requires |context.frames| > 0 && declarations.action.Some?
      modifies context, declarations`actions, declarations`action, diagnostics
      ensures context.frames == old(context.frames)[..|old(context.frames)| - 1]
      ensures declarations.action == None
      ensures declarations.actions == old(declarations.actions) + {old(declarations.action).value}
      ensures var name := old(declarations.action).value;
        diagnostics.messages ==
          (if name in old(declarations.actions)
           then Warned(old(diagnostics.messages), "ignoring repeated declaration of action `" + name + "'", diagnostics.warningLevel)
           else old(diagnostics.messages)) &&
        diagnostics.success == (old(diagnostics.success) && (name !in old(declarations.actions) || diagnostics.warningLevel <= 1))
    {
      context.PopFrame();
      var name := declarations.action.value;
      if name !in declarations.actions {
        declarations.actions := declarations.actions + {name};
      } else {
        diagnostics.Warning("ignoring repeated declaration of action `" + name + "'");
      }
      declarations.action := None;
    }

    // -------------------------------------------------------------------
    // Terms, atoms and fluents

    /** `make_term(name)`: a variable name is the variable the context binds;
        an unbound one is an error, after which the new variable `newVariable` of
        the term table is bound in the innermost frame (with no frame open
        that insertion is undefined behaviour).  Any other name is the
        object of that name; an unknown one is declared implicitly, with a
        warning, as the new object `freshObject`.  Either way the name then
        resolves to the term returned. */
    method MakeTerm(name: string, newVariable: Variable, freshObject: nat) returns (r: Result<Formulas.Term>)
      modifies context, declarations`objects, diagnostics
      ensures VariableName(name) && Lookup(old(context.frames), name).Some? ==>
        r == Ok(Formulas.Variable(Lookup(old(context.frames), name).value)) && context.frames == old(context.frames)
        && diagnostics.messages == old(diagnostics.messages) && diagnostics.success == old(diagnostics.success)
      ensures VariableName(name) && Lookup(old(context.frames), name).None? ==>
        if |old(context.frames)| == 0 then r == Err(UndefinedBehaviour)
        else r == Ok(Formulas.Variable(newVariable)) && context.frames == InsertInto(old(context.frames), name, newVariable)
             && !diagnostics.success && diagnostics.messages == old(diagnostics.messages) + ["free variable `" + name + "' used"]
      ensures VariableName(name) ==> declarations.objects == old(declarations.objects)
      ensures !VariableName(name) && name in old(declarations.objects) ==>
        r == Ok(Formulas.Object(old(declarations.objects)[name])) && declarations.objects == old(declarations.objects)
        && diagnostics.messages == old(diagnostics.messages) && diagnostics.success == old(diagnostics.success)
      ensures !VariableName(name) && name !in old(declarations.objects) ==>
        r == Ok(Formulas.Object(freshObject)) && declarations.objects == old(declarations.objects)[name := freshObject]
        && diagnostics.messages == Warned(old(diagnostics.messages), "implicit declaration of object `" + name + "'", diagnostics.warningLevel)
        && diagnostics.success == (old(diagnostics.success) && diagnostics.warningLevel <= 1)
      ensures !VariableName(name) ==> context.frames == old(context.frames)
      ensures r.Ok? ==> if VariableName(name)
                        then r.value.Variable? && Lookup(context.frames, name) == Some(r.value.id)
                        else r.value.Object? && name in declarations.objects && declarations.objects[name] == r.value.id
    {
      if VariableName(name) {
        var vp := context.Find(name);
        if vp.Some? {
          return Ok(Formulas.Variable(vp.value));
        }
        if |context.frames| == 0 {
          return Err(UndefinedBehaviour);
        }
        LookupAfterInsert(context.frames, name, newVariable, name);
        context.Insert(name, newVariable);
        diagnostics.Error("free variable `" + name + "' used");
        return Ok(Formulas.Variable(newVariable));
      } else {
        if name in declarations.objects {
          return Ok(Formulas.Object(declarations.objects[name]));
        }
        declarations.objects := declarations.objects[name := freshObject];
        diagnostics.Warning("implicit declaration of object `" + name + "'");
        return Ok(Formulas.Object(freshObject));
      }
    }

    /** `prepare_atom(name)`: a predicate not declared yet is declared with a
        warning, worded for the problem or for the domain. */
    method PrepareAtom(name: string)
      modifies declarations`predicates, declarations`undeclaredAtomPredicate, diagnostics
      ensures declarations.predicates == old(declarations.predicates) + {name}
      ensures declarations.undeclaredAtomPredicate <==> name !in old(declarations.predicates)
      ensures diagnostics.messages ==
        if name in old(declarations.predicates) then old(diagnostics.messages)
        else Warned(old(diagnostics.messages), UndeclaredMessage("predicate", name, declarations.problem), diagnostics.warningLevel)
      ensures diagnostics.success ==
        (old(diagnostics.success) && (name in old(declarations.predicates) || diagnostics.warningLevel <= 1))
    {
      if name !in declarations.predicates {
        declarations.predicates := declarations.predicates + {name};
        declarations.undeclaredAtomPredicate := true;
        diagnostics.Warning(UndeclaredMessage("predicate", name, declarations.problem));
      } else {
        declarations.undeclaredAtomPredicate := false;
      }
    }

    /** `prepare_fluent(name)`: a function not declared yet is declared with
        a warning; `reward` (with rewards) may only be used in an effect or
        the metric, `total-time` and `goal-achieved` only in the metric, and
        any other function assumes the fluents requirement. */
    method PrepareFluent(name: string)
      modifies declarations`functions, declarations`undeclaredFluentFunction, requirements, diagnostics
      ensures declarations.functions == old(declarations.functions) + {name}
      ensures declarations.undeclaredFluentFunction <==> name !in old(declarations.functions)
      ensures var level := diagnostics.warningLevel;
        var messages := if name in old(declarations.functions) then old(diagnostics.messages)
                        else Warned(old(diagnostics.messages), UndeclaredMessage("function", name, declarations.problem), level);
        var success := old(diagnostics.success) && (name in old(declarations.functions) || level <= 1);
        var rewards := Rewards in old(requirements.declared);
        var misplaced := if rewards && name == "reward" then !declarations.effectFluent && !declarations.metricFluent
                         else ReservedFunction(name, rewards) && !declarations.metricFluent;
        if ReservedFunction(name, rewards) then
          requirements.declared == old(requirements.declared) &&
          (misplaced ==> diagnostics.messages == messages + ["reserved function `" + name + "' not allowed here"] && !diagnostics.success) &&
          (!misplaced ==> diagnostics.messages == messages && diagnostics.success == success)
        else
          requirements.declared == old(requirements.declared) + {Fluents} &&
          diagnostics.messages == Assumed(messages, Fluents, old(requirements.declared), level) &&
          diagnostics.success == AssumedSuccess(success, Fluents, old(requirements.declared), level)
    {
      if name !in declarations.functions {
        declarations.functions := declarations.functions + {name};
        declarations.undeclaredFluentFunction := true;
        diagnostics.Warning(UndeclaredMessage("function", name, declarations.problem));
      } else {
        declarations.undeclaredFluentFunction := false;
      }
      if Rewards in requirements.declared && name == "reward" {
        if !declarations.effectFluent && !declarations.metricFluent {
          diagnostics.Error("reserved function `" + name + "' not allowed here");
        }
      } else if name == "total-time" || name == "goal-achieved" {
        if !declarations.metricFluent {
          diagnostics.Error("reserved function `" + name + "' not allowed here");
        }
      } else {
        AssumeRequirement(Fluents);
      }
    }

    /** The arity check of `make_atom()`: `arity` is the number of
        parameters the predicate was declared with; the atom is built
        whatever the count. */
    method MakeAtom(pred: nat, name: string, arity: nat, terms: seq<Formulas.Term>) returns (f: StateFormula)
      modifies diagnostics
      ensures f == Formulas.Atom(pred, terms) && f.terms == terms
      ensures |terms| > arity ==>
        !diagnostics.success && diagnostics.messages == old(diagnostics.messages) + ["too many parameters passed to predicate `" + name + "'"]
      ensures |terms| < arity ==>
        !diagnostics.success && diagnostics.messages == old(diagnostics.messages) + ["too few parameters passed to predicate `" + name + "'"]
      ensures |terms| == arity <==>
        diagnostics.messages == old(diagnostics.messages)
      ensures |terms| == arity ==> diagnostics.success == old(diagnostics.success)
    {
      if arity < |terms| {
        diagnostics.Error("too many parameters passed to predicate `" + name + "'");
      } else if arity > |terms| {
        diagnostics.Error("too few parameters passed to predicate `" + name + "'");
      }
      f := Formulas.Atom(pred, terms);
    }

    /** The arity check of `make_fluent()`, as for atoms. */
    method MakeFluent(fn: int, name: string, arity: nat, terms: seq<Formulas.Term>) returns (fl: Fluent)
      modifies diagnostics
      ensures fl == Fluent(fn, terms)
      ensures |terms| > arity ==>
        !diagnostics.success && diagnostics.messages == old(diagnostics.messages) + ["too many parameters passed to function `" + name + "'"]
      ensures |terms| < arity ==>
        !diagnostics.success && diagnostics.messages == old(diagnostics.messages) + ["too few parameters passed to function `" + name + "'"]
      ensures |terms| == arity <==>
        diagnostics.messages == old(diagnostics.messages)
      ensures |terms| == arity ==> diagnostics.success == old(diagnostics.success)
    {
      if arity < |terms| {
        diagnostics.Error("too many parameters passed to function `" + name + "'");
      } else if arity > |terms| {
        diagnostics.Error("too few parameters passed to function `" + name + "'");
      }
      fl := Fluent(fn, terms);
    }

    // -------------------------------------------------------------------
    // Effects

    /** `make_add_effect(atom)`: the atom's predicate becomes dynamic. */
    method MakeAddEffect(atom: StateFormula) returns (e: Effect)
      requires atom.Atom?
      modifies declarations`dynamicPredicates
      ensures e == AddEffect(atom)
      ensures declarations.dynamicPredicates == old(declarations.dynamicPredicates) + {atom.pred}
    {
      declarations.dynamicPredicates := declarations.dynamicPredicates + {atom.pred};
      e := AddEffect(atom);
    }

    /** `make_delete_effect(atom)`: the atom's predicate becomes dynamic. */
    method MakeDeleteEffect(atom: StateFormula) returns (e: Effect)
      requires atom.Atom?
      modifies declarations`dynamicPredicates
      ensures e == DeleteEffect(atom)
      ensures declarations.dynamicPredicates == old(declarations.dynamicPredicates) + {atom.pred}
    {
      declarations.dynamicPredicates := declarations.dynamicPredicates + {atom.pred};
      e := DeleteEffect(atom);
    }

    /** `make_assign_effect`, `make_scale_up_effect`,
        `make_scale_down_effect`, `make_increase_effect` and
        `make_decrease_effect`: with rewards, the reward fluent may only be
        increased or decreased by a constant, and anything else is an
        error; an update of any other fluent assumes the fluents
        requirement.  The fluent's function becomes dynamic and the effect
        flag is cleared. */
    method MakeUpdateEffect(kind: UpdateKind, fluent: Fluent, expr: Expression) returns (e: Effect)
      modifies requirements, diagnostics, declarations`effectFluent, declarations`dynamicFunctions
      ensures e == UpdateEffect(Update(kind, fluent, expr))
      ensures !declarations.effectFluent
      ensures declarations.dynamicFunctions == old(declarations.dynamicFunctions) + {fluent.fn}
      ensures var reward := Rewards in old(requirements.declared) && fluent.fn == declarations.rewardFunction;
        var constantStep := (kind == Increase || kind == Decrease) && expr.Value?;
        if reward then
          requirements.declared == old(requirements.declared) &&
          (constantStep ==> diagnostics.messages == old(diagnostics.messages) && diagnostics.success == old(diagnostics.success)) &&
          (!constantStep ==>
             !diagnostics.success &&
             diagnostics.messages == old(diagnostics.messages) + ["only constant reward increments/decrements allowed"])
        else
          requirements.declared == old(requirements.declared) + {Fluents} &&
          diagnostics.messages == Assumed(old(diagnostics.messages), Fluents, old(requirements.declared), diagnostics.warningLevel) &&
          diagnostics.success == AssumedSuccess(old(diagnostics.success), Fluents, old(requirements.declared), diagnostics.warningLevel)
    {
      if Rewards in requirements.declared && fluent.fn == declarations.rewardFunction {
        if !((kind == Increase || kind == Decrease) && expr.Value?) {
          diagnostics.Error("only constant reward increments/decrements allowed");
        }
      } else {
        AssumeRequirement(Fluents);
      }
      declarations.effectFluent := false;
      declarations.dynamicFunctions := declarations.dynamicFunctions + {fluent.fn};
      e := UpdateEffect(Update(kind, fluent, expr));
    }

    // -------------------------------------------------------------------
    // Equality, negation and implication

    /** `make_equality()`: assumes the equality requirement; two numeric
        operands give `EqualTo::make`, two terms `Equality::make` when the
        type of one is a subtype of the other's (`comparable`, the type
        table's answer) and FALSE otherwise, and a term against a numeric
        expression is an error giving FALSE. */
    method MakeEquality(firstExpr: Option<Expression>, expr: Option<Expression>,
                        firstTerm: Formulas.Term, term: Formulas.Term, comparable: bool) returns (f: StateFormula)
      modifies requirements, diagnostics
      ensures requirements.declared == old(requirements.declared) + {Equality}
      ensures var messages := Assumed(old(diagnostics.messages), Equality, old(requirements.declared), diagnostics.warningLevel);
        var success := AssumedSuccess(old(diagnostics.success), Equality, old(requirements.declared), diagnostics.warningLevel);
        if firstExpr.Some? == expr.Some? then diagnostics.messages == messages && diagnostics.success == success
        else diagnostics.messages == messages + ["comparison of term and numeric expression"] && !diagnostics.success
      ensures firstExpr.Some? && expr.Some? ==> f == Formulas.EqualToMake(firstExpr.value, expr.value)
      ensures firstExpr.None? && expr.None? ==> f == if comparable then Formulas.EqualityMake(firstTerm, term) else Formulas.False
      ensures firstExpr.Some? != expr.Some? ==> f == Formulas.False
      ensures Formulas.TruthinessOf(f) == Formulas.Indeterminate ==>
        (firstExpr.Some? && expr.Some? && !(firstExpr.value.Value? && expr.value.Value?)) ||
        (firstExpr.None? && expr.None? && comparable && firstTerm != term)
    {
      AssumeRequirement(Equality);
      if firstExpr.Some? && expr.Some? {
        f := Formulas.EqualToMake(firstExpr.value, expr.value);
      } else if firstExpr.None? && expr.None? {
        f := if comparable then Formulas.EqualityMake(firstTerm, term) else Formulas.False;
      } else {
        diagnostics.Error("comparison of term and numeric expression");
        f := Formulas.False;
      }
    }

    /** `make_negation(negand)`: negating an atom assumes negative
        preconditions, negating a numeric comparison disjunctive ones;
        the negation is `Negation::make`'s, and has the negated truthiness. */
    method MakeNegation(negand: StateFormula) returns (f: StateFormula)
      modifies requirements, diagnostics
      ensures f == Formulas.NegationMake(negand)
      ensures Formulas.TruthinessOf(f) == Formulas.Not(Formulas.TruthinessOf(negand))
      ensures var r := if negand.Atom? then Some(NegativePreconditions)
                       else if negand.Comparison? then Some(DisjunctivePreconditions) else None;
        if r.None? then
          requirements.declared == old(requirements.declared) &&
          diagnostics.messages == old(diagnostics.messages) && diagnostics.success == old(diagnostics.success)
        else
          requirements.declared == old(requirements.declared) + {r.value} &&
          diagnostics.messages == Assumed(old(diagnostics.messages), r.value, old(requirements.declared), diagnostics.warningLevel) &&
          diagnostics.success == AssumedSuccess(old(diagnostics.success), r.value, old(requirements.declared), diagnostics.warningLevel)
    {
      if negand.Atom? {
        AssumeRequirement(NegativePreconditions);
      } else if negand.Comparison? {
        AssumeRequirement(DisjunctivePreconditions);
      }
      f := Formulas.NegationMake(negand);
      Formulas.NegationMakeTruthiness(negand);
    }

    /** `make_implication(f1, f2)`: assumes disjunctive preconditions and
        builds `!f1 || f2`, the two operands being distinct objects. */
    method MakeImplication(f1: StateFormula, f2: StateFormula) returns (f: StateFormula)
      modifies requirements, diagnostics
      ensures f == Formulas.FormulaOr(Formulas.NegationMake(f1), f2, false)
      ensures Formulas.TruthinessOf(f) ==
        Formulas.Or(Formulas.Not(Formulas.TruthinessOf(f1)), Formulas.TruthinessOf(f2))
      ensures requirements.declared == old(requirements.declared) + {DisjunctivePreconditions}
      ensures diagnostics.messages ==
        Assumed(old(diagnostics.messages), DisjunctivePreconditions, old(requirements.declared), diagnostics.warningLevel)
      ensures diagnostics.success ==
        AssumedSuccess(old(diagnostics.success), DisjunctivePreconditions, old(requirements.declared), diagnostics.warningLevel)
    {
      AssumeRequirement(DisjunctivePreconditions);
      var negation := Formulas.NegationMake(f1);
      Formulas.NegationMakeTruthiness(f1);
      f := Formulas.FormulaOr(negation, f2, false);
      Formulas.FormulaOrTruthiness(negation, f2, false);
    }

    // -------------------------------------------------------------------
    // The problem's goal reward and metric

    /** `set_goal_reward(goal_reward)`: without the rewards requirement an
        error; otherwise the goal increases the reward fluent by the given
        amount, and the reward function becomes dynamic. */
    method SetGoalReward(goalReward: Expression)
      modifies diagnostics, declarations`goalReward, declarations`dynamicFunctions
      ensures Rewards !in requirements.declared ==>
        !diagnostics.success && diagnostics.messages == old(diagnostics.messages) + ["goal reward only allowed with the `:rewards' requirement"]
        && declarations.goalReward == old(declarations.goalReward) && declarations.dynamicFunctions == old(declarations.dynamicFunctions)
      ensures Rewards in requirements.declared ==>
        diagnostics.success == old(diagnostics.success) && diagnostics.messages == old(diagnostics.messages)
        && declarations.goalReward == Some(Update(Increase, Fluent(declarations.rewardFunction, []), goalReward))
        && declarations.dynamicFunctions == old(declarations.dynamicFunctions) + {declarations.rewardFunction}
    {
      if Rewards !in requirements.declared {
        diagnostics.Error("goal reward only allowed with the `:rewards' requirement");
      } else {
        declarations.dynamicFunctions := declarations.dynamicFunctions + {declarations.rewardFunction};
        declarations.goalReward := Some(Update(Increase, Fluent(declarations.rewardFunction, []), goalReward));
      }
    }

    /** `set_default_metric()`: the reward with rewards, otherwise
        `goal-achieved` with probabilistic effects, otherwise the negated
        `total-time`; `totalTime` and `goalAchieved` are the domain's
        functions of those names. */
    method SetDefaultMetric(totalTime: int, goalAchieved: int)
      modifies declarations`metric
      ensures declarations.metric.Some?
      ensures declarations.metric.value.1 <==>
        Rewards !in requirements.declared && ProbabilisticEffects !in requirements.declared
      ensures declarations.metric.value.0 ==
        if Rewards in requirements.declared then declarations.rewardFunction
        else if ProbabilisticEffects in requirements.declared then goalAchieved
        else totalTime
    {
      if Rewards in requirements.declared {
        declarations.metric := Some((declarations.rewardFunction, false));
      } else if ProbabilisticEffects in requirements.declared {
        declarations.metric := Some((goalAchieved, false));
      } else {
        declarations.metric := Some((totalTime, true));
      }
    }
  }

  /** Outcomes that passed `add_outcome` without an error and
      `make_prob_effect` form a distribution. */
  lemma AcceptedOutcomesDistribution(os: seq<(real, Effect)>)
    requires forall i :: 0 <= i < |os| ==> 0.0 <= os[i].0 <= 1.0
    requires ProbSum(os) <= 1.0
    ensures Distribution(os)
    ensures forall i :: 0 <= i < |os| ==> os[i].0 <= ProbSum(os)
  {
    forall i | 0 <= i < |os| ensures os[i].0 <= ProbSum(os) {
      OutcomeBelowSum(os, i);
    }
  }
}
