/** MDPSim's three-valued static truth values and the smart constructors of
  state formulas (mdpsim/formulas.cc).

  A `Truthiness` says what is known about a formula before any state is
  seen: it holds everywhere, nowhere, or it depends.  The smart constructors
  use it to simplify formulas as they are built.
*/
module Formulas {
  import opened Wrappers

  datatype Truthiness = Contradiction | Indeterminate | Tautology

  /** The truth values a formula of the given truthiness can take in some
      state: the reference meaning the three-valued operators abstract. */
  function Values(t: Truthiness): (vs: set<bool>)
    ensures vs != {}
  {
    match t
    case Contradiction => {false}
    case Indeterminate => {false, true}
    case Tautology => {true}
  }

  /** operator&&: a contradiction absorbs, two tautologies make one. */
  function And(a: Truthiness, b: Truthiness): Truthiness {
    if a == Contradiction || b == Contradiction then Contradiction
    else if a == Tautology && b == Tautology then Tautology
    else Indeterminate
  }

  /** operator||: the dual of And. */
  function Or(a: Truthiness, b: Truthiness): Truthiness {
    if a == Tautology || b == Tautology then Tautology
    else if a == Contradiction && b == Contradiction then Contradiction
    else Indeterminate
  }

  /** operator!: swaps the two constants and fixes Indeterminate. */
  function Not(a: Truthiness): Truthiness {
    match a
    case Tautology => Contradiction
    case Contradiction => Tautology
    case Indeterminate => Indeterminate
  }

  /** operator<, written as the source's switch on the right operand. */
  predicate Less(a: Truthiness, b: Truthiness) {
    match b
    case Contradiction => false
    case Indeterminate => a == Contradiction
    case Tautology => a == Contradiction || a == Indeterminate
  }

  /** The rank of a truth value in the order false < unknown < true. */
  function Rank(t: Truthiness): (n: nat)
    ensures n <= 2
  {
    match t
    case Contradiction => 0
    case Indeterminate => 1
    case Tautology => 2
  }

  /** And is exact: its values are precisely the conjunctions of the
      operands' possible values. */
  lemma AndExact(a: Truthiness, b: Truthiness)
    ensures Values(And(a, b)) == set x, y | x in Values(a) && y in Values(b) :: x && y
  {
    var s := set x, y | x in Values(a) && y in Values(b) :: x && y;
    assert false in Values(a) && false in Values(b) ==> (false && false) in s;
    assert true in Values(a) && true in Values(b) ==> (true && true) in s;
    assert false in Values(a) && true in Values(b) ==> (false && true) in s;
    assert true in Values(a) && false in Values(b) ==> (true && false) in s;
  }

  /** Or is exact in the same sense. */
  lemma OrExact(a: Truthiness, b: Truthiness)
    ensures Values(Or(a, b)) == set x, y | x in Values(a) && y in Values(b) :: x || y
  {
    var s := set x, y | x in Values(a) && y in Values(b) :: x || y;
    assert false in Values(a) && false in Values(b) ==> (false || false) in s;
    assert true in Values(a) && true in Values(b) ==> (true || true) in s;
    assert false in Values(a) && true in Values(b) ==> (false || true) in s;
    assert true in Values(a) && false in Values(b) ==> (true || false) in s;
  }

  /** Not is exact: its values are the negations of the operand's values. */
  lemma NotExact(a: Truthiness)
    ensures Values(Not(a)) == set x | x in Values(a) :: !x
  {
    var s := set x | x in Values(a) :: !x;
    assert false in Values(a) ==> !false in s;
    assert true in Values(a) ==> !true in s;
  }

  lemma AndCommutativeAssociative(a: Truthiness, b: Truthiness, c: Truthiness)
    ensures And(a, b) == And(b, a)
    ensures And(And(a, b), c) == And(a, And(b, c))
    ensures And(a, a) == a && And(Tautology, a) == a
  {
  }

  lemma OrCommutativeAssociative(a: Truthiness, b: Truthiness, c: Truthiness)
    ensures Or(a, b) == Or(b, a)
    ensures Or(Or(a, b), c) == Or(a, Or(b, c))
    ensures Or(a, a) == a && Or(Contradiction, a) == a
  {
  }

  lemma NotInvolutionDeMorgan(a: Truthiness, b: Truthiness)
    ensures Not(Not(a)) == a
    ensures Not(And(a, b)) == Or(Not(a), Not(b))
    ensures Not(Or(a, b)) == And(Not(a), Not(b))
  {
  }

  /** operator< is the strict total order given by Rank. */
  lemma LessIsRankOrder(a: Truthiness, b: Truthiness, c: Truthiness)
    ensures Less(a, b) <==> Rank(a) < Rank(b)
    ensures !Less(a, a)
    ensures Less(a, b) && Less(b, c) ==> Less(a, c)
    ensures a == b || Less(a, b) || Less(b, a)
  {
  }

  // ---------------------------------------------------------------------
  // Folds used by Conjunction::truthiness and Disjunction::truthiness.

  /** The left fold of And starting from Tautology. */
  function FoldAnd(ts: seq<Truthiness>): Truthiness {
    if ts == [] then Tautology else And(FoldAnd(ts[..|ts| - 1]), ts[|ts| - 1])
  }

  /** The left fold of Or starting from Contradiction. */
  function FoldOr(ts: seq<Truthiness>): Truthiness {
    if ts == [] then Contradiction else Or(FoldOr(ts[..|ts| - 1]), ts[|ts| - 1])
  }

  /** A conjunction is contradictory iff some conjunct is, and a tautology
      iff every conjunct is (so the empty conjunction is a tautology). */
  lemma {:induction false} FoldAndMeaning(ts: seq<Truthiness>)
    ensures FoldAnd(ts) == Contradiction <==> Contradiction in ts
    ensures FoldAnd(ts) == Tautology <==> forall i :: 0 <= i < |ts| ==> ts[i] == Tautology
  {
    if ts != [] {
      var init := ts[..|ts| - 1];
      FoldAndMeaning(init);
      assert ts == init + [ts[|ts| - 1]];
    }
  }

  /** The dual statement for disjunctions. */
  lemma {:induction false} FoldOrMeaning(ts: seq<Truthiness>)
    ensures FoldOr(ts) == Tautology <==> Tautology in ts
    ensures FoldOr(ts) == Contradiction <==> forall i :: 0 <= i < |ts| ==> ts[i] == Contradiction
  {
    if ts != [] {
      var init := ts[..|ts| - 1];
      FoldOrMeaning(init);
      assert ts == init + [ts[|ts| - 1]];
    }
  }

  lemma {:induction false} FoldAndConcat(a: seq<Truthiness>, b: seq<Truthiness>)
    ensures FoldAnd(a + b) == And(FoldAnd(a), FoldAnd(b))
    decreases |b|
  {
    if b == [] {
      assert a + b == a;
    } else {
      var binit := b[..|b| - 1];
      assert (a + b)[..|a + b| - 1] == a + binit;
      FoldAndConcat(a, binit);
      AndCommutativeAssociative(FoldAnd(a), FoldAnd(binit), b[|b| - 1]);
    }
  }

  lemma {:induction false} FoldOrConcat(a: seq<Truthiness>, b: seq<Truthiness>)
    ensures FoldOr(a + b) == Or(FoldOr(a), FoldOr(b))
    decreases |b|
  {
    if b == [] {
      assert a + b == a;
    } else {
      var binit := b[..|b| - 1];
      assert (a + b)[..|a + b| - 1] == a + binit;
      FoldOrConcat(a, binit);
      OrCommutativeAssociative(FoldOr(a), FoldOr(binit), b[|b| - 1]);
    }
  }

  // ---------------------------------------------------------------------
  // State formulas.

  /** A term is an object constant or a variable. */
  datatype Term = Object(id: nat) | Variable(id: nat)

  /** A numeric expression: a constant, one built elsewhere (a fluent or an
      operation of the expression library), or a subtraction. */
  datatype Expression =
    | Value(value: real)
    | ExpressionOf(id: nat)
    | Subtraction(minuend: Expression, subtrahend: Expression)

  /** The value of an expression, given the values of its leaves. */
  function Eval(e: Expression, leaf: nat -> real): real {
    match e
    case Value(q) => q
    case ExpressionOf(id) => leaf(id)
    case Subtraction(a, b) => Eval(a, leaf) - Eval(b, leaf)
  }

  /** The numeric comparisons. */
  datatype ComparisonOp = LessThan | LessThanOrEqualTo | EqualTo | GreaterThanOrEqualTo | GreaterThan

  /** The kinds of state formula whose construction is modelled.  A
      TruthyWrapper pins a formula to a known constant truth value. */
  datatype Formula =
    | Constant(value: bool)
    | Atom(pred: nat, terms: seq<Term>)
    | Equality(term1: Term, term2: Term)
    | Comparison(op: ComparisonOp, expr1: Expression, expr2: Expression)
    | Negation(negand: Formula)
    | Conjunction(conjuncts: seq<Formula>)
    | Disjunction(disjuncts: seq<Formula>)
    | Exists(parameters: seq<nat>, body: Formula)
    | Forall(parameters: seq<nat>, body: Formula)
    | TruthyWrapper(wrapped: Formula, truth: Truthiness)

  /** The constants TRUE and FALSE. */
  const True: Formula := Constant(true)
  const False: Formula := Constant(false)

  /** truthiness(): constants and wrappers know their value, conjunctions
      and disjunctions fold their members, everything else is unknown
      statically. */
  function TruthinessOf(f: Formula): Truthiness
    decreases f, 1
  {
    match f
    case Constant(v) => if v then Tautology else Contradiction
    case Conjunction(cs) => FoldAnd(Truths(cs))
    case Disjunction(ds) => FoldOr(Truths(ds))
    case TruthyWrapper(_, t) => t
    case _ => Indeterminate
  }

  /** The truthiness of each member of a formula list, in order. */
  function Truths(fs: seq<Formula>): (ts: seq<Truthiness>)
    ensures |ts| == |fs|
    ensures forall i :: 0 <= i < |fs| ==> ts[i] == TruthinessOf(fs[i])
    decreases fs, 0
  {
    if fs == [] then [] else [TruthinessOf(fs[0])] + Truths(fs[1..])
  }

  predicate IsTautology(f: Formula) { TruthinessOf(f) == Tautology }
  predicate IsContradiction(f: Formula) { TruthinessOf(f) == Contradiction }

  /** Conjunction::truthiness: a loop from Tautology that stops early at
      the first contradiction.  The early exit does not change the result. */
  method ConjunctionTruthiness(conjuncts: seq<Formula>) returns (t: Truthiness)
    ensures t == TruthinessOf(Conjunction(conjuncts))
    ensures t == Contradiction <==> exists i :: 0 <= i < |conjuncts| && IsContradiction(conjuncts[i])
  {
    ghost var ts := Truths(conjuncts);
    t := Tautology;
    var i := 0;
    while i < |conjuncts| && t != Contradiction
      invariant 0 <= i <= |conjuncts|
      invariant t == FoldAnd(ts[..i])
    {
      assert ts[..i + 1][..i] == ts[..i];
      t := And(t, TruthinessOf(conjuncts[i]));
      i := i + 1;
    }
    if i < |conjuncts| {
      FoldAndMeaning(ts[..i]);
      FoldAndMeaning(ts);
      assert Contradiction in ts;
    }
    assert ts[..|conjuncts|] == ts;
    FoldAndMeaning(ts);
  }

  /** Disjunction::truthiness: the dual loop, stopping at a tautology. */
  method DisjunctionTruthiness(disjuncts: seq<Formula>) returns (t: Truthiness)
    ensures t == TruthinessOf(Disjunction(disjuncts))
    ensures t == Tautology <==> exists i :: 0 <= i < |disjuncts| && IsTautology(disjuncts[i])
  {
    ghost var ts := Truths(disjuncts);
    t := Contradiction;
    var i := 0;
    while i < |disjuncts| && t != Tautology
      invariant 0 <= i <= |disjuncts|
      invariant t == FoldOr(ts[..i])
    {
      assert ts[..i + 1][..i] == ts[..i];
      t := Or(t, TruthinessOf(disjuncts[i]));
      i := i + 1;
    }
    if i < |disjuncts| {
      FoldOrMeaning(ts[..i]);
      FoldOrMeaning(ts);
      assert Tautology in ts;
    }
    assert ts[..|disjuncts|] == ts;
    FoldOrMeaning(ts);
  }

  /** The value of a term once every variable is given an object. */
  function Ground(t: Term, assignment: nat -> nat): nat {
    match t
    case Object(id) => id
    case Variable(v) => assignment(v)
  }

  /** Equality::make: identical terms give TRUE, two distinct objects give
      FALSE, anything else stays an equality to be decided later. */
  function EqualityMake(term1: Term, term2: Term): (r: Formula)
    ensures r == True || r == False || r == Equality(term1, term2)
  {
    if term1 == term2 then True
    else if term1.Object? && term2.Object? && term1 != term2 then False
    else Equality(term1, term2)
  }

  /** The static answer of Equality::make is sound for every assignment of
      the variables, and it is definite whenever both terms are objects. */
  lemma EqualityMakeSound(term1: Term, term2: Term, assignment: nat -> nat)
    ensures IsTautology(EqualityMake(term1, term2)) ==> Ground(term1, assignment) == Ground(term2, assignment)
    ensures IsContradiction(EqualityMake(term1, term2)) ==> Ground(term1, assignment) != Ground(term2, assignment)
    ensures term1.Object? && term2.Object? ==> TruthinessOf(EqualityMake(term1, term2)) != Indeterminate
  {
  }

  /** The conjuncts a formula contributes when spliced into a conjunction. */
  function Conjuncts(f: Formula): seq<Formula> {
    if f.Conjunction? then f.conjuncts else [f]
  }

  /** The disjuncts a formula contributes when spliced into a disjunction. */
  function Disjuncts(f: Formula): seq<Formula> {
    if f.Disjunction? then f.disjuncts else [f]
  }

  /** Splicing does not change truthiness. */
  lemma ConjunctsTruth(f: Formula)
    ensures FoldAnd(Truths(Conjuncts(f))) == TruthinessOf(f)
  {
    if !f.Conjunction? {
      assert Truths([f]) == [TruthinessOf(f)];
      assert [TruthinessOf(f)][..0] == [];
    }
  }

  lemma DisjunctsTruth(f: Formula)
    ensures FoldOr(Truths(Disjuncts(f))) == TruthinessOf(f)
  {
    if !f.Disjunction? {
      assert Truths([f]) == [TruthinessOf(f)];
      assert [TruthinessOf(f)][..0] == [];
    }
  }

  lemma TruthsConcat(a: seq<Formula>, b: seq<Formula>)
    ensures Truths(a + b) == Truths(a) + Truths(b)
  {
    var whole, parts := Truths(a + b), Truths(a) + Truths(b);
    forall i | 0 <= i < |a + b|
      ensures whole[i] == parts[i]
    {
      if i < |a| {
        assert (a + b)[i] == a[i];
      } else {
        assert (a + b)[i] == b[i - |a|];
      }
    }
    assert whole == parts;
  }

  /** operator&& on formulas.  `sameObject` says that both arguments are one
      and the same object in memory (the source compares addresses): then
      the argument comes back unchanged.  Otherwise the result is a new
      conjunction of the conjuncts of f1 followed by those of f2. */
  function FormulaAnd(f1: Formula, f2: Formula, sameObject: bool): (r: Formula)
    requires sameObject ==> f1 == f2
  {
    if sameObject then f1 else Conjunction(Conjuncts(f1) + Conjuncts(f2))
  }

  /** operator|| on formulas, the dual of FormulaAnd. */
  function FormulaOr(f1: Formula, f2: Formula, sameObject: bool): (r: Formula)
    requires sameObject ==> f1 == f2
  {
    if sameObject then f1 else Disjunction(Disjuncts(f1) + Disjuncts(f2))
  }

  /** Building a conjunction of formulas conjoins their truthiness, and
      keeps all parts of f1 before all parts of f2. */
  lemma FormulaAndTruthiness(f1: Formula, f2: Formula, sameObject: bool)
    requires sameObject ==> f1 == f2
    ensures TruthinessOf(FormulaAnd(f1, f2, sameObject)) == And(TruthinessOf(f1), TruthinessOf(f2))
    ensures !sameObject ==> FormulaAnd(f1, f2, sameObject).conjuncts[..|Conjuncts(f1)|] == Conjuncts(f1)
  {
    if !sameObject {
      TruthsConcat(Conjuncts(f1), Conjuncts(f2));
      FoldAndConcat(Truths(Conjuncts(f1)), Truths(Conjuncts(f2)));
      ConjunctsTruth(f1);
      ConjunctsTruth(f2);
    }
  }

  lemma FormulaOrTruthiness(f1: Formula, f2: Formula, sameObject: bool)
    requires sameObject ==> f1 == f2
    ensures TruthinessOf(FormulaOr(f1, f2, sameObject)) == Or(TruthinessOf(f1), TruthinessOf(f2))
    ensures !sameObject ==> FormulaOr(f1, f2, sameObject).disjuncts[..|Disjuncts(f1)|] == Disjuncts(f1)
  {
    if !sameObject {
      TruthsConcat(Disjuncts(f1), Disjuncts(f2));
      FoldOrConcat(Truths(Disjuncts(f1)), Truths(Disjuncts(f2)));
      DisjunctsTruth(f1);
      DisjunctsTruth(f2);
    }
  }

  /** A conjunction whose conjuncts are not themselves conjunctions. */
  predicate FlatConjunction(f: Formula) {
    f.Conjunction? && forall i :: 0 <= i < |f.conjuncts| ==> !f.conjuncts[i].Conjunction?
  }

  /** Conjoining two distinct formulas, each flat or not a conjunction at
      all, gives a flat conjunction. */
  lemma FormulaAndFlat(f1: Formula, f2: Formula)
    requires f1.Conjunction? ==> FlatConjunction(f1)
    requires f2.Conjunction? ==> FlatConjunction(f2)
    ensures FlatConjunction(FormulaAnd(f1, f2, false))
  {
    var r := FormulaAnd(f1, f2, false);
    forall i | 0 <= i < |r.conjuncts| ensures !r.conjuncts[i].Conjunction? {
      if i < |Conjuncts(f1)| {
        assert r.conjuncts[i] == Conjuncts(f1)[i];
      } else {
        assert r.conjuncts[i] == Conjuncts(f2)[i - |Conjuncts(f1)|];
      }
    }
  }

  /** The TruthyWrapper constructor, which throws std::domain_error unless it
      is given one of the two constants. */
  function NewTruthyWrapper(wrapped: Formula, truth: Truthiness): (r: Result<Formula>)
    ensures r.Err? <==> truth == Indeterminate
    ensures r.Ok? ==> IsTautology(r.value) || IsContradiction(r.value)
  {
    if truth == Indeterminate then Err(DomainError)
    else Ok(TruthyWrapper(wrapped, truth))
  }

  /** TruthyWrapper::make: an unknown truth value leaves the formula alone;
      a constant one wraps it. */
  function TruthyWrapperMake(wrapped: Formula, truth: Truthiness): Formula {
    if truth == Indeterminate then wrapped else TruthyWrapper(wrapped, truth)
  }

  /** make never reaches the throwing constructor, and the formula it returns
      has the requested truthiness (the wrapped one's when that is unknown). */
  lemma TruthyWrapperMakeSafe(wrapped: Formula, truth: Truthiness)
    ensures truth != Indeterminate ==> NewTruthyWrapper(wrapped, truth) == Ok(TruthyWrapperMake(wrapped, truth))
    ensures TruthinessOf(TruthyWrapperMake(wrapped, truth)) ==
      (if truth == Indeterminate then TruthinessOf(wrapped) else truth)
  {
  }

  // ---------------------------------------------------------------------
  // Negations and numeric equality.

  /** Negation::make: a new negation, pinned by TruthyWrapper::make to the
      opposite constant when the negand's value is already known. */
  function NegationMake(negand: Formula): Formula {
    if IsTautology(negand) then TruthyWrapperMake(Negation(negand), Contradiction)
    else if IsContradiction(negand) then TruthyWrapperMake(Negation(negand), Tautology)
    else Negation(negand)
  }

  /** The negation built has the negated truthiness of its negand, and it
      is the plain negation or that negation pinned to a constant. */
  lemma NegationMakeTruthiness(negand: Formula)
    ensures TruthinessOf(NegationMake(negand)) == Not(TruthinessOf(negand))
    ensures NegationMake(negand) == Negation(negand) ||
      (TruthinessOf(negand) != Indeterminate &&
       NegationMake(negand) == TruthyWrapper(Negation(negand), Not(TruthinessOf(negand))))
  {
  }

  /** EqualTo::make: two constants give TRUE or FALSE at once, anything else
      stays a comparison to be decided later. */
  function EqualToMake(expr1: Expression, expr2: Expression): Formula {
    if expr1.Value? && expr2.Value? then Constant(expr1.value == expr2.value)
    else Comparison(EqualTo, expr1, expr2)
  }

  /** The static answer of EqualTo::make is sound whatever the values of the
      expressions' leaves, and it is definite whenever both are constants. */
  lemma EqualToMakeSound(expr1: Expression, expr2: Expression, leaf: nat -> real)
    ensures IsTautology(EqualToMake(expr1, expr2)) ==> Eval(expr1, leaf) == Eval(expr2, leaf)
    ensures IsContradiction(EqualToMake(expr1, expr2)) ==> Eval(expr1, leaf) != Eval(expr2, leaf)
    ensures expr1.Value? && expr2.Value? <==> TruthinessOf(EqualToMake(expr1, expr2)) != Indeterminate
  {
  }

  /** Exists::make: no parameters, or a body whose value is already known,
      makes the quantifier pointless and the body is returned. */
  function ExistsMake(parameters: seq<nat>, body: Formula): Formula {
    if parameters == [] || IsTautology(body) || IsContradiction(body) then body
    else Exists(parameters, body)
  }

  /** Forall::make, with the same simplification. */
  function ForallMake(parameters: seq<nat>, body: Formula): Formula {
    if parameters == [] || IsTautology(body) || IsContradiction(body) then body
    else Forall(parameters, body)
  }

  /** The quantifier constructors never change the static truth value, and
      they only build a quantifier over a non-empty parameter list and a body
      of unknown value. */
  lemma QuantifierMakeTruthiness(parameters: seq<nat>, body: Formula)
    ensures TruthinessOf(ExistsMake(parameters, body)) == TruthinessOf(body)
    ensures TruthinessOf(ForallMake(parameters, body)) == TruthinessOf(body)
    ensures ExistsMake(parameters, body).Exists? && !body.Exists? ==>
      parameters != [] && TruthinessOf(body) == Indeterminate
    ensures ForallMake(parameters, body).Forall? && !body.Forall? ==>
      parameters != [] && TruthinessOf(body) == Indeterminate
  {
  }
}
