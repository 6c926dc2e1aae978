/** The effects of MGPT's lifted problems (`effects.cc`): add and delete
    effects, reward assignments, conjunctions, conditional effects and
    probabilistic effects; their equality, their smart constructors, their
    deterministic state change, their translation into the grounded
    effects of `actions.h`, and the flattening and cross product of
    probabilistic effects.

    An effect that is built and then only read is a value of the datatype
    `Effect`; the two effects the code fills in place while building them,
    `ConjunctiveEffect` and `ProbabilisticEffect`, are classes whose
    `Value()` gives the finished effect.  Pointers and reference counts are
    not modelled.  An atom is the index `atom_hash_get` gives it.  A
    probability is an exact real, and the parallel vectors `w_` and
    `effects_` are one sequence of outcomes.  A condition is a formula of
    module `Formulas`; whether it holds in a state, and the list of atom
    lists it translates into, are parameters.
*/
module Effects {
  import opened Wrappers
  import opened AtomLists
  import opened EffectLists
  import Formulas

  // ---------------------------------------------------------------------
  // Effects
  // ---------------------------------------------------------------------

  /** The operators of `Assignment`, in the order of its enum. */
  datatype AssignOp = AssignOp | ScaleUpOp | ScaleDownOp | IncreaseOp | DecreaseOp

  /** The right-hand side of an assignment: a constant `Value`, or any
      other expression, told apart from the others by `id` (two other
      expressions are equal exactly when their ids are). */
  datatype Expression = Value(value: real) | OtherExpression(id: nat)

  /** `Assignment`: the operator, the application it changes (its
      function and its terms), the expression of the change and whether it
      is a reward assignment. */
  datatype Assignment = Assignment(op: AssignOp, fn: nat, terms: seq<int>, expr: Expression, reward: bool)

  datatype Effect =
    | AddEffect(atom: Atom)
    | DeleteEffect(atom: Atom)
    | AssignmentEffect(assignment: Assignment)
    | Conjunction(conjuncts: seq<Effect>)
    | ConditionalEffect(condition: Formulas.Formula, effect: Effect)
    | Probabilistic(outcomes: seq<Outcome>, sumUpToOne: bool)

  /** One entry of `w_` and `effects_`. */
  datatype Outcome = Outcome(p: real, effect: Effect)

  /** No conjunct of the list is itself a conjunction. */
  predicate NoConjunction(cs: seq<Effect>) {
    forall i :: 0 <= i < |cs| ==> !cs[i].Conjunction?
  }

  /** The shape every effect built by these classes has: the conjuncts of a
      conjunction are never conjunctions, all the way down. */
  predicate Shaped(e: Effect)
    decreases e
  {
    match e
    case Conjunction(cs) => NoConjunction(cs) && forall i :: 0 <= i < |cs| ==> Shaped(cs[i])
    case ConditionalEffect(_, f) => Shaped(f)
    case Probabilistic(os, _) => forall i :: 0 <= i < |os| ==> Shaped(os[i].effect)
    case _ => true
  }

  // ---------------------------------------------------------------------
  // operator==
  // ---------------------------------------------------------------------

  /** `operator==` of each effect class.  `fallback` is what a conjunction
      answers when the other effect is not a conjunction of its size: the
      code answers `true` there (`Equal(a, b, true)`), the evident intent
      is `false`.  Probabilistic effects compare their effects only, not
      their probabilities. */
  predicate Equal(a: Effect, b: Effect, fallback: bool)
    decreases a, 1
  {
    match a
    case AddEffect(x) => b.AddEffect? && b.atom == x
    case DeleteEffect(x) => b.DeleteEffect? && b.atom == x
    case AssignmentEffect(x) => b.AssignmentEffect? && b.assignment == x
    case Conjunction(cs) =>
      if b.Conjunction? && |cs| == |b.conjuncts| then AllEqual(cs, b.conjuncts, fallback) else fallback
    case ConditionalEffect(c, f) => b.ConditionalEffect? && b.condition == c && Equal(f, b.effect, fallback)
    case Probabilistic(os, _) =>
      b.Probabilistic? && |os| == |b.outcomes| && AllOutcomesEqual(os, b.outcomes, fallback)
  }

  /** The loop of `ConjunctiveEffect::operator==`: position by position. */
  predicate AllEqual(cs: seq<Effect>, ds: seq<Effect>, fallback: bool)
    requires |cs| == |ds|
    decreases cs, 0
  {
    |cs| == 0 || (Equal(cs[0], ds[0], fallback) && AllEqual(cs[1..], ds[1..], fallback))
  }

  /** The loop of `ProbabilisticEffect::operator==`. */
  predicate AllOutcomesEqual(os: seq<Outcome>, qs: seq<Outcome>, fallback: bool)
    requires |os| == |qs|
    decreases os, 0
  {
    |os| == 0 ||
    (OutcomeEqual(os[0], qs[0], fallback) && AllOutcomesEqual(os[1..], qs[1..], fallback))
  }

  /** One step of that loop: the effects of two outcomes compared. */
  predicate OutcomeEqual(o: Outcome, q: Outcome, fallback: bool)
    decreases o, 2
  {
    Equal(o.effect, q.effect, fallback)
  }

  /** `operator==` run by its loops, one class at a time. */
  method Equals(a: Effect, b: Effect, fallback: bool) returns (r: bool)
    ensures r == Equal(a, b, fallback)
    decreases a
  {
    match a
    case Conjunction(cs) =>
      if !(b.Conjunction? && |cs| == |b.conjuncts|) {
        return fallback;
      }
      var i := 0;
      while i < |cs|
        invariant i <= |cs|
        invariant AllEqual(cs, b.conjuncts, fallback) == AllEqual(cs[i..], b.conjuncts[i..], fallback)
      {
        var e := Equals(cs[i], b.conjuncts[i], fallback);
        assert cs[i..][1..] == cs[i + 1..] && b.conjuncts[i..][1..] == b.conjuncts[i + 1..];
        if !e {
          return false;
        }
        i := i + 1;
      }
      return true;
    case ConditionalEffect(c, f) =>
      if !(b.ConditionalEffect? && b.condition == c) {
        return false;
      }
      r := Equals(f, b.effect, fallback);
    case Probabilistic(os, _) =>
      if !(b.Probabilistic? && |os| == |b.outcomes|) {
        return false;
      }
      var i := 0;
      while i < |os|
        invariant i <= |os|
        invariant AllOutcomesEqual(os, b.outcomes, fallback) == AllOutcomesEqual(os[i..], b.outcomes[i..], fallback)
      {
        var e := Equals(os[i].effect, b.outcomes[i].effect, fallback);
        assert os[i..][1..] == os[i + 1..] && b.outcomes[i..][1..] == b.outcomes[i + 1..];
        if !e {
          return false;
        }
        i := i + 1;
      }
      return true;
    case _ =>
      r := Equal(a, b, fallback);
  }

  /** Every effect equals itself, whichever fallback is used. */
  lemma {:induction false} EqualReflexive(a: Effect, fallback: bool)
    ensures Equal(a, a, fallback)
    decreases a, 1
  {
    match a
    case Conjunction(cs) => AllEqualReflexive(cs, fallback);
    case ConditionalEffect(_, f) => EqualReflexive(f, fallback);
    case Probabilistic(os, _) => AllOutcomesEqualReflexive(os, fallback);
    case _ =>
  }

  lemma {:induction false} AllEqualReflexive(cs: seq<Effect>, fallback: bool)
    ensures AllEqual(cs, cs, fallback)
    decreases cs, 0
  {
    if |cs| > 0 {
      EqualReflexive(cs[0], fallback);
      AllEqualReflexive(cs[1..], fallback);
    }
  }

  lemma {:induction false} AllOutcomesEqualReflexive(os: seq<Outcome>, fallback: bool)
    ensures AllOutcomesEqual(os, os, fallback)
    decreases os, 0
  {
    if |os| > 0 {
      OutcomeEqualReflexive(os[0], fallback);
      AllOutcomesEqualReflexive(os[1..], fallback);
    }
  }

  lemma {:induction false} OutcomeEqualReflexive(o: Outcome, fallback: bool)
    ensures OutcomeEqual(o, o, fallback)
    decreases o, 2
  {
    EqualReflexive(o.effect, fallback);
  }

  /** With the intended fallback, equality is symmetric. */
  lemma {:induction false} EqualSymmetric(a: Effect, b: Effect)
    ensures Equal(a, b, false) == Equal(b, a, false)
    decreases a, 1
  {
    match a
    case Conjunction(cs) =>
      if b.Conjunction? && |cs| == |b.conjuncts| {
        AllEqualSymmetric(cs, b.conjuncts);
      }
    case ConditionalEffect(c, f) =>
      if b.ConditionalEffect? {
        EqualSymmetric(f, b.effect);
      }
    case Probabilistic(os, _) =>
      if b.Probabilistic? && |os| == |b.outcomes| {
        AllOutcomesEqualSymmetric(os, b.outcomes);
      }
    case _ =>
  }

  lemma {:induction false} AllEqualSymmetric(cs: seq<Effect>, ds: seq<Effect>)
    requires |cs| == |ds|
    ensures AllEqual(cs, ds, false) == AllEqual(ds, cs, false)
    decreases cs, 0
  {
    if |cs| > 0 {
      EqualSymmetric(cs[0], ds[0]);
      AllEqualSymmetric(cs[1..], ds[1..]);
    }
  }

  lemma {:induction false} AllOutcomesEqualSymmetric(os: seq<Outcome>, qs: seq<Outcome>)
    requires |os| == |qs|
    ensures AllOutcomesEqual(os, qs, false) == AllOutcomesEqual(qs, os, false)
    decreases os, 0
  {
    if |os| > 0 {
      OutcomeEqualSymmetric(os[0], qs[0]);
      AllOutcomesEqualSymmetric(os[1..], qs[1..]);
    }
  }

  lemma {:induction false} OutcomeEqualSymmetric(o: Outcome, q: Outcome)
    ensures OutcomeEqual(o, q, false) == OutcomeEqual(q, o, false)
    decreases o, 2
  {
    EqualSymmetric(o.effect, q.effect);
  }

  /** Two assignment effects are equal exactly when their operators,
      applications (function and terms), expressions and reward flags are. */
  lemma AssignmentEqualMeaning(x: Assignment, y: Assignment, fallback: bool)
    ensures Equal(AssignmentEffect(x), AssignmentEffect(y), fallback) <==>
      x.op == y.op && x.fn == y.fn && x.terms == y.terms && x.expr == y.expr && x.reward == y.reward
  {
  }

  /** With the intended fallback, equal effects are of the same class. */
  lemma EqualSameClass(a: Effect, b: Effect)
    requires Equal(a, b, false)
    ensures a.AddEffect? == b.AddEffect? && a.DeleteEffect? == b.DeleteEffect?
    ensures a.AssignmentEffect? == b.AssignmentEffect? && a.Conjunction? == b.Conjunction?
    ensures a.ConditionalEffect? == b.ConditionalEffect? && a.Probabilistic? == b.Probabilistic?
  {
  }

  /** As written, the empty conjunction equals an add effect, but not the
      other way round: `operator==` is not symmetric. */
  lemma ConjunctionEqualityAsWrittenAsymmetric()
    ensures Equal(Conjunction([]), AddEffect(0), true)
    ensures !Equal(AddEffect(0), Conjunction([]), true)
    ensures !Equal(Conjunction([]), AddEffect(0), false)
  {
  }

  // ---------------------------------------------------------------------
  // state_change
  // ---------------------------------------------------------------------

  /** The lists `state_change` appends to: added atoms, deleted atoms and
      assignments, in order. */
  datatype Change = Change(adds: seq<Atom>, deletes: seq<Atom>, assignments: seq<Assignment>)

  const NoChange := Change([], [], [])

  /** One change after another. */
  function Join(a: Change, b: Change): Change {
    Change(a.adds + b.adds, a.deletes + b.deletes, a.assignments + b.assignments)
  }

  /** An effect without probabilistic parts, whose state change needs no
      random draw. */
  predicate Deterministic(e: Effect)
    decreases e
  {
    match e
    case Conjunction(cs) => forall i :: 0 <= i < |cs| ==> Deterministic(cs[i])
    case ConditionalEffect(_, f) => Deterministic(f)
    case Probabilistic(_, _) => false
    case _ => true
  }

  /** `state_change(adds, deletes, assignments, state)` of a deterministic
      effect, where `holds` says which conditions hold in `state`: an add
      or delete effect appends its atom, an assignment itself, a
      conjunction its conjuncts' changes in order, a conditional effect
      its effect's change when its condition holds. */
  function StateChange(e: Effect, holds: Formulas.Formula -> bool): Change
    requires Deterministic(e)
    decreases e, 1
  {
    match e
    case AddEffect(a) => Change([a], [], [])
    case DeleteEffect(a) => Change([], [a], [])
    case AssignmentEffect(x) => Change([], [], [x])
    case Conjunction(cs) => ChangesOf(cs, holds)
    case ConditionalEffect(c, f) => if holds(c) then StateChange(f, holds) else NoChange
  }

  /** The loop of `ConjunctiveEffect::state_change`. */
  function ChangesOf(cs: seq<Effect>, holds: Formulas.Formula -> bool): Change
    requires forall i :: 0 <= i < |cs| ==> Deterministic(cs[i])
    decreases cs, 0
  {
    if |cs| == 0 then NoChange
    else Join(ChangesOf(cs[..|cs| - 1], holds), StateChange(cs[|cs| - 1], holds))
  }

  /** The changes of two lists of conjuncts, one after the other. */
  lemma {:induction false} ChangesOfConcat(cs: seq<Effect>, ds: seq<Effect>, holds: Formulas.Formula -> bool)
    requires forall i :: 0 <= i < |cs| ==> Deterministic(cs[i])
    requires forall i :: 0 <= i < |ds| ==> Deterministic(ds[i])
    ensures forall i :: 0 <= i < |cs + ds| ==> Deterministic((cs + ds)[i])
    ensures ChangesOf(cs + ds, holds) == Join(ChangesOf(cs, holds), ChangesOf(ds, holds))
    decreases |ds|
  {
    DeterministicConcat(cs, ds);
    if |ds| == 0 {
      assert cs + ds == cs;
    } else {
      var init := ds[..|ds| - 1];
      assert (cs + ds)[..|cs + ds| - 1] == cs + init;
      assert (cs + ds)[|cs + ds| - 1] == ds[|ds| - 1];
      ChangesOfConcat(cs, init, holds);
      JoinAssociative(ChangesOf(cs, holds), ChangesOf(init, holds), StateChange(ds[|ds| - 1], holds));
    }
  }

  /** Two lists of deterministic effects make one. */
  lemma DeterministicConcat(cs: seq<Effect>, ds: seq<Effect>)
    requires forall i :: 0 <= i < |cs| ==> Deterministic(cs[i])
    requires forall i :: 0 <= i < |ds| ==> Deterministic(ds[i])
    ensures forall i :: 0 <= i < |cs + ds| ==> Deterministic((cs + ds)[i])
  {
    forall i | 0 <= i < |cs + ds| ensures Deterministic((cs + ds)[i]) {
      if i < |cs| {
        assert (cs + ds)[i] == cs[i];
      } else {
        assert (cs + ds)[i] == ds[i - |cs|];
      }
    }
  }

  lemma JoinAssociative(x: Change, y: Change, z: Change)
    ensures Join(Join(x, y), z) == Join(x, Join(y, z))
  {
    assert (x.adds + y.adds) + z.adds == x.adds + (y.adds + z.adds);
    assert (x.deletes + y.deletes) + z.deletes == x.deletes + (y.deletes + z.deletes);
    assert (x.assignments + y.assignments) + z.assignments == x.assignments + (y.assignments + z.assignments);
  }

  /** The changes of a list of conjuncts, taken from the front. */
  lemma ChangesOfCons(cs: seq<Effect>, holds: Formulas.Formula -> bool)
    requires |cs| > 0 && forall i :: 0 <= i < |cs| ==> Deterministic(cs[i])
    ensures forall i :: 0 <= i < |cs[1..]| ==> Deterministic(cs[1..][i])
    ensures ChangesOf(cs, holds) == Join(StateChange(cs[0], holds), ChangesOf(cs[1..], holds))
  {
    assert cs == [cs[0]] + cs[1..];
    ChangesOfConcat([cs[0]], cs[1..], holds);
    assert ChangesOf([cs[0]], holds) == Join(NoChange, StateChange(cs[0], holds)) by {
      assert [cs[0]][..0] == [];
    }
    JoinNoChange(StateChange(cs[0], holds));
  }

  lemma JoinNoChange(c: Change)
    ensures Join(NoChange, c) == c
  {
    assert [] + c.adds == c.adds && [] + c.deletes == c.deletes && [] + c.assignments == c.assignments;
  }

  // ---------------------------------------------------------------------
  // ConditionalEffect::make
  // ---------------------------------------------------------------------

  /** `ConditionalEffect::make(condition, effect)`: the effect itself under
      a tautology, the empty conjunction under a contradiction, and the
      conditional effect otherwise. */
  function MakeConditional(condition: Formulas.Formula, effect: Effect): (r: Effect)
    ensures Shaped(effect) ==> Shaped(r)
    ensures Deterministic(effect) ==> Deterministic(r)
  {
    if Formulas.IsTautology(condition) then effect
    else if Formulas.IsContradiction(condition) then Conjunction([])
    else ConditionalEffect(condition, effect)
  }

  /** `make` changes nothing about what the effect does, in every state the
      condition's static truth value allows. */
  lemma MakeConditionalMeaning(condition: Formulas.Formula, effect: Effect, holds: Formulas.Formula -> bool)
    requires Deterministic(effect)
    requires holds(condition) in Formulas.Values(Formulas.TruthinessOf(condition))
    ensures StateChange(MakeConditional(condition, effect), holds) ==
            StateChange(ConditionalEffect(condition, effect), holds)
  {
  }

  // ---------------------------------------------------------------------
  // ConjunctiveEffect
  // ---------------------------------------------------------------------

  /** What `add_conjunct(c)` appends: the conjuncts of a conjunction, or `c`
      itself. */
  function Spliced(c: Effect): seq<Effect> {
    if c.Conjunction? then c.conjuncts else [c]
  }

  /** A conjunctive effect being built. */
  class ConjunctiveEffect {
    var conjuncts: seq<Effect>

    /** No stored conjunct is a conjunction, and every one is shaped. */
    ghost predicate Valid()
      reads this
    {
      NoConjunction(conjuncts) && forall i :: 0 <= i < |conjuncts| ==> Shaped(conjuncts[i])
    }

    constructor ()
      ensures Valid() && conjuncts == []
    {
      conjuncts := [];
    }

    /** The finished effect. */
    function Value(): (e: Effect)
      reads this
      ensures e.Conjunction? && e.conjuncts == conjuncts
      ensures Valid() ==> Shaped(e)
    {
      Conjunction(conjuncts)
    }

    /** `add_conjunct(conjunct)`: a conjunction is spliced in member by
        member, any other effect appended. */
    method AddConjunct(conjunct: Effect)
      requires Valid() && Shaped(conjunct)
      modifies this
      ensures Valid()
      ensures conjuncts == old(conjuncts) + Spliced(conjunct)
    {
      if conjunct.Conjunction? {
        var i := 0;
        while i < |conjunct.conjuncts|
          invariant i <= |conjunct.conjuncts|
          invariant conjuncts == old(conjuncts) + conjunct.conjuncts[..i]
          invariant Valid()
        {
          conjuncts := conjuncts + [conjunct.conjuncts[i]];
          i := i + 1;
        }
        assert conjunct.conjuncts[..i] == conjunct.conjuncts;
      } else {
        conjuncts := conjuncts + [conjunct];
      }
    }
  }

  /** Splicing changes nothing about what a conjunction does: appending the
      members of a conjunction acts as appending the conjunction. */
  lemma SplicedMeaning(cs: seq<Effect>, c: Effect, holds: Formulas.Formula -> bool)
    requires forall i :: 0 <= i < |cs| ==> Deterministic(cs[i])
    requires Deterministic(c)
    ensures Deterministic(Conjunction(cs + Spliced(c))) && Deterministic(Conjunction(cs + [c]))
    ensures StateChange(Conjunction(cs + Spliced(c)), holds) == StateChange(Conjunction(cs + [c]), holds)
  {
    ChangesOfConcat(cs, [c], holds);
    assert ChangesOf([c], holds) == Join(NoChange, StateChange(c, holds)) by {
      assert [c][..0] == [];
    }
    if c.Conjunction? {
      ChangesOfConcat(cs, c.conjuncts, holds);
    }
  }

  // ---------------------------------------------------------------------
  // translate(s_effect, c_effect): into the solver's effect lists
  // ---------------------------------------------------------------------

  /** An assignment the translation accepts: `increase` or `decrease` by a
      constant value. */
  predicate Supported(a: Assignment) {
    (a.op == IncreaseOp || a.op == DecreaseOp) && a.expr.Value?
  }

  /** The amount an accepted assignment adds to its function's cost. */
  function CostDelta(a: Assignment): real
    requires Supported(a)
  {
    if a.op == IncreaseOp then a.expr.value else -a.expr.value
  }

  /** `AssignmentEffect::translate`: an unsupported assignment stops the
      program; an accepted one moves the cost of its function by its amount
      when action costs are in use, and changes nothing else. */
  function TranslateAssignment(a: Assignment, s: StripsEffect, useActionCost: bool): (r: Result<StripsEffect>)
    requires a.fn < |s.cost|
    ensures r.Ok? <==> Supported(a)
    ensures r.Ok? ==> r.value.add == s.add && r.value.del == s.del && |r.value.cost| == |s.cost|
    ensures r.Ok? ==> forall k :: 0 <= k < |s.cost| && k != a.fn ==> r.value.cost[k] == s.cost[k]
    ensures r.Ok? ==> r.value.cost[a.fn] == s.cost[a.fn] + (if useActionCost then CostDelta(a) else 0.0)
  {
    if !Supported(a) then Err(Die)
    else Ok(IncreaseCostBy(s, CostDelta(a), a.fn, useActionCost))
  }

  /** An increase followed by the decrease by the same value leaves the
      effect as it was. */
  lemma IncreaseThenDecreaseCancel(fn: nat, ts: seq<int>, v: real, rw: bool, s: StripsEffect, useActionCost: bool)
    requires fn < |s.cost|
    ensures var up := TranslateAssignment(Assignment(IncreaseOp, fn, ts, Value(v), rw), s, useActionCost);
            up.Ok? &&
            TranslateAssignment(Assignment(DecreaseOp, fn, ts, Value(v), rw), up.value, useActionCost) == Ok(s)
  {
    var up := TranslateAssignment(Assignment(IncreaseOp, fn, ts, Value(v), rw), s, useActionCost);
    var down := TranslateAssignment(Assignment(DecreaseOp, fn, ts, Value(v), rw), up.value, useActionCost);
    assert down.value.cost == s.cost;
  }

  /** `atomList_t::insert` on an atom list. */
  function InsertAtom(s: seq<Atom>, a: Atom): (r: seq<Atom>)
    ensures forall x :: x in r <==> x == a || x in s
  {
    InsertedMembers(s, a);
    Inserted(s, a)
  }

  /** The unconditional part of the solver's effect and the list of its
      conditional effects. */
  datatype Translation = Translation(strips: StripsEffect, conds: seq<CondEffect>)

  /** A fresh `stripsEffect_t`: no atom, a zero cost per function. */
  function Blank(functionCount: nat): (r: StripsEffect)
    ensures r.add == [] && r.del == [] && |r.cost| == functionCount
    ensures forall k :: 0 <= k < functionCount ==> r.cost[k] == 0.0
  {
    StripsEffect([], [], seq(functionCount, _ => 0.0))
  }

  /** Every assignment names a function of the domain. */
  predicate CostsFit(e: Effect, functionCount: nat)
    decreases e
  {
    match e
    case AssignmentEffect(x) => x.fn < functionCount
    case Conjunction(cs) => forall i :: 0 <= i < |cs| ==> CostsFit(cs[i], functionCount)
    case ConditionalEffect(_, f) => CostsFit(f, functionCount)
    case _ => true
  }

  /** An effect the translation accepts: no probabilistic part and no
      unsupported assignment. */
  predicate Translatable(e: Effect)
    decreases e
  {
    match e
    case AssignmentEffect(x) => Supported(x)
    case Conjunction(cs) => forall i :: 0 <= i < |cs| ==> Translatable(cs[i])
    case ConditionalEffect(_, f) => Translatable(f)
    case Probabilistic(_, _) => false
    case _ => true
  }

  /** `translate(s_effect, c_effect)` of every effect kind, where `dnf` is
      the translation of a condition into `precondition`: atoms go into the
      sorted add and delete lists, assignments into the costs, the
      conjuncts one after another, and a conditional effect translates its
      effect into a fresh `stripsEffect_t` (conditional effects nested in it
      join the outer list) and is then inserted into the outer list; a
      probabilistic effect stops the program. */
  function Translated(e: Effect, s: StripsEffect, cs: seq<CondEffect>,
                      dnf: Formulas.Formula -> seq<seq<Atom>>, useActionCost: bool): (r: Result<Translation>)
    requires CostsFit(e, |s.cost|)
    ensures r.Ok? ==> |r.value.strips.cost| == |s.cost|
    decreases e, 1
  {
    match e
    case AddEffect(a) => Ok(Translation(s.(add := InsertAtom(s.add, a)), cs))
    case DeleteEffect(a) => Ok(Translation(s.(del := InsertAtom(s.del, a)), cs))
    case AssignmentEffect(x) =>
      var t :- TranslateAssignment(x, s, useActionCost);
      Ok(Translation(t, cs))
    case Conjunction(ds) => TranslatedAll(ds, s, cs, dnf, useActionCost)
    case ConditionalEffect(c, f) =>
      var inner :- Translated(f, Blank(|s.cost|), cs, dnf, useActionCost);
      Ok(Translation(s, CondInserted(inner.conds, CondEffect(dnf(c), inner.strips))))
    case Probabilistic(_, _) => Err(Die)
  }

  /** The loop of `ConjunctiveEffect::translate`. */
  function TranslatedAll(ds: seq<Effect>, s: StripsEffect, cs: seq<CondEffect>,
                         dnf: Formulas.Formula -> seq<seq<Atom>>, useActionCost: bool): (r: Result<Translation>)
    requires forall i :: 0 <= i < |ds| ==> CostsFit(ds[i], |s.cost|)
    ensures r.Ok? ==> |r.value.strips.cost| == |s.cost|
    decreases ds, 0
  {
    if |ds| == 0 then Ok(Translation(s, cs))
    else
      var first := Translated(ds[0], s, cs, dnf, useActionCost);
      if first.Err? then Err(Die)
      else
        TranslatedAll(ds[1..], first.value.strips, first.value.conds, dnf, useActionCost)
  }

  /** The translation stops the program exactly on a probabilistic part or
      an unsupported assignment. */
  lemma {:induction false} TranslatedOk(e: Effect, s: StripsEffect, cs: seq<CondEffect>,
                                        dnf: Formulas.Formula -> seq<seq<Atom>>, useActionCost: bool)
    requires CostsFit(e, |s.cost|)
    ensures Translated(e, s, cs, dnf, useActionCost).Ok? <==> Translatable(e)
    decreases e, 1
  {
    match e
    case Conjunction(ds) => TranslatedAllOk(ds, s, cs, dnf, useActionCost);
    case ConditionalEffect(c, f) => TranslatedOk(f, Blank(|s.cost|), cs, dnf, useActionCost);
    case _ =>
  }

  /** `TranslatedOk` for the conjuncts of a conjunction. */
  lemma {:induction false} TranslatedAllOk(ds: seq<Effect>, s: StripsEffect, cs: seq<CondEffect>,
                                           dnf: Formulas.Formula -> seq<seq<Atom>>, useActionCost: bool)
    requires forall i :: 0 <= i < |ds| ==> CostsFit(ds[i], |s.cost|)
    ensures TranslatedAll(ds, s, cs, dnf, useActionCost).Ok? <==> forall i :: 0 <= i < |ds| ==> Translatable(ds[i])
    decreases ds, 0
  {
    if |ds| > 0 {
      TranslatedOk(ds[0], s, cs, dnf, useActionCost);
      var first := Translated(ds[0], s, cs, dnf, useActionCost);
      if first.Ok? {
        assert forall i :: 1 <= i < |ds| ==> ds[1..][i - 1] == ds[i];
        TranslatedAllOk(ds[1..], first.value.strips, first.value.conds, dnf, useActionCost);
      }
    }
  }

  /** An evaluation of conditions under which none holds: the state change
      of the unconditional part of an effect. */
  function NeverHolds(c: Formulas.Formula): bool {
    false
  }

  /** Every effect the translation accepts is deterministic. */
  lemma {:induction false} TranslatableDeterministic(e: Effect)
    requires Translatable(e)
    ensures Deterministic(e)
    decreases e
  {
    match e
    case Conjunction(cs) =>
      forall i | 0 <= i < |cs| ensures Deterministic(cs[i]) {
        TranslatableDeterministic(cs[i]);
      }
    case ConditionalEffect(_, f) => TranslatableDeterministic(f);
    case _ =>
  }

  /** The translation agrees with `state_change`: its unconditional add and
      delete lists gain exactly the atoms the effect adds and deletes when
      no condition holds, and the conditional effects already in the list
      stay in front. */
  lemma {:induction false} TranslatedAtoms(e: Effect, s: StripsEffect, cs: seq<CondEffect>,
                                           dnf: Formulas.Formula -> seq<seq<Atom>>, useActionCost: bool)
    requires CostsFit(e, |s.cost|) && Translatable(e)
    ensures Deterministic(e) && Translated(e, s, cs, dnf, useActionCost).Ok?
    ensures var r := Translated(e, s, cs, dnf, useActionCost).value;
            var c := StateChange(e, NeverHolds);
            (forall x :: x in r.strips.add <==> x in s.add || x in c.adds) &&
            (forall x :: x in r.strips.del <==> x in s.del || x in c.deletes) &&
            |cs| <= |r.conds| && r.conds[..|cs|] == cs
    decreases e, 1
  {
    TranslatableDeterministic(e);
    TranslatedOk(e, s, cs, dnf, useActionCost);
    match e
    case Conjunction(ds) =>
      TranslatedAllAtoms(ds, s, cs, dnf, useActionCost);
    case ConditionalEffect(c, f) =>
      TranslatedAtoms(f, Blank(|s.cost|), cs, dnf, useActionCost);
      var inner := Translated(f, Blank(|s.cost|), cs, dnf, useActionCost).value;
      CondInsertedMeaning(inner.conds, CondEffect(dnf(c), inner.strips));
      assert CondInserted(inner.conds, CondEffect(dnf(c), inner.strips))[..|cs|] == cs by {
        assert inner.conds[..|cs|] == cs;
      }
    case _ =>
  }

  /** `TranslatedAtoms` for the conjuncts of a conjunction. */
  lemma {:induction false} TranslatedAllAtoms(ds: seq<Effect>, s: StripsEffect, cs: seq<CondEffect>,
                                              dnf: Formulas.Formula -> seq<seq<Atom>>, useActionCost: bool)
    requires forall i :: 0 <= i < |ds| ==> CostsFit(ds[i], |s.cost|) && Translatable(ds[i])
    ensures forall i :: 0 <= i < |ds| ==> Deterministic(ds[i])
    ensures TranslatedAll(ds, s, cs, dnf, useActionCost).Ok?
    ensures var r := TranslatedAll(ds, s, cs, dnf, useActionCost).value;
            var c := ChangesOf(ds, NeverHolds);
            (forall x :: x in r.strips.add <==> x in s.add || x in c.adds) &&
            (forall x :: x in r.strips.del <==> x in s.del || x in c.deletes) &&
            |cs| <= |r.conds| && r.conds[..|cs|] == cs
    decreases ds, 0
  {
    forall i | 0 <= i < |ds| ensures Deterministic(ds[i]) {
      TranslatableDeterministic(ds[i]);
    }
    TranslatedAllOk(ds, s, cs, dnf, useActionCost);
    if |ds| > 0 {
      TranslatedAtoms(ds[0], s, cs, dnf, useActionCost);
      var first := Translated(ds[0], s, cs, dnf, useActionCost).value;
      assert forall i :: 0 <= i < |ds[1..]| ==> ds[1..][i] == ds[i + 1];
      TranslatedAllAtoms(ds[1..], first.strips, first.conds, dnf, useActionCost);
      ChangesOfCons(ds, NeverHolds);
      var rest := TranslatedAll(ds[1..], first.strips, first.conds, dnf, useActionCost).value;
      assert rest.conds[..|cs|] == cs by {
        assert rest.conds[..|first.conds|][..|cs|] == rest.conds[..|cs|];
      }
    }
  }

  // ---------------------------------------------------------------------
  // ProbabilisticEffect: add_outcome
  // ---------------------------------------------------------------------

  /** The sum of the probabilities of a list of outcomes, front to back. */
  function SumP(os: seq<Outcome>): real {
    if |os| == 0 then 0.0 else SumP(os[..|os| - 1]) + os[|os| - 1].p
  }

  lemma {:induction false} SumPConcat(a: seq<Outcome>, b: seq<Outcome>)
    ensures SumP(a + b) == SumP(a) + SumP(b)
    decreases |b|
  {
    if |b| == 0 {
      assert a + b == a;
    } else {
      assert (a + b)[..|a + b| - 1] == a + b[..|b| - 1];
      SumPConcat(a, b[..|b| - 1]);
    }
  }

  lemma SumPStep(os: seq<Outcome>, i: nat)
    requires i < |os|
    ensures SumP(os[..i + 1]) == SumP(os[..i]) + os[i].p
  {
    assert os[..i + 1][..i] == os[..i];
  }

  /** An outcome as `add_outcome` stores it: a positive probability and a
      shaped effect that is not itself probabilistic. */
  predicate Stored(o: Outcome) {
    o.p > 0.0 && !o.effect.Probabilistic? && Shaped(o.effect)
  }

  /** What `add_outcome(p, effect)` appends, or `Die`: nothing below the
      threshold; the outcomes of a probabilistic effect, each scaled by `p`,
      recursively; any other effect once, unless `p` is zero; a negative
      probability stops the program. */
  function Flattened(p: real, e: Effect, threshold: real): Result<seq<Outcome>>
    decreases e, 1
  {
    if p < threshold then Ok([])
    else if e.Probabilistic? then FlattenedAll(p, e.outcomes, threshold)
    else if p != 0.0 then (if p > 0.0 then Ok([Outcome(p, e)]) else Err(Die))
    else Ok([])
  }

  /** The loop of `add_outcome` over the outcomes of a probabilistic effect. */
  function FlattenedAll(p: real, os: seq<Outcome>, threshold: real): Result<seq<Outcome>>
    decreases os, 0
  {
    if |os| == 0 then Ok([])
    else
      var init :- FlattenedAll(p, os[..|os| - 1], threshold);
      var last :- FlattenedOne(p, os[|os| - 1], threshold);
      Ok(init + last)
  }

  /** One step of that loop: `probability(i)` stops the program unless it is
      positive, and a scaled probability below the threshold is skipped. */
  function FlattenedOne(p: real, o: Outcome, threshold: real): Result<seq<Outcome>>
    decreases o, 2
  {
    if o.p <= 0.0 then Err(Die)
    else if p * o.p < threshold then Ok([])
    else Flattened(p * o.p, o.effect, threshold)
  }

  lemma FlattenedOneUnfold(p: real, o: Outcome, threshold: real)
    ensures FlattenedOne(p, o, threshold) ==
            if o.p <= 0.0 then Err(Die)
            else if p * o.p < threshold then Ok([])
            else Flattened(p * o.p, o.effect, threshold)
  {
  }

  lemma MulNonNegative(a: real, b: real)
    requires a >= 0.0 && b >= 0.0
    ensures a * b >= 0.0
  {
  }

  lemma MulAssociates(a: real, b: real, c: real)
    ensures (a * b) * c == a * (b * c)
  {
  }

  /** Once the loop dies it stays dead. */
  lemma {:induction false} FlattenedAllPrefixErr(p: real, os: seq<Outcome>, k: nat, threshold: real)
    requires k <= |os| && FlattenedAll(p, os[..k], threshold).Err?
    ensures FlattenedAll(p, os, threshold).Err?
    decreases |os| - k
  {
    if k < |os| {
      var init := os[..|os| - 1];
      assert init[..k] == os[..k];
      if k < |init| {
        FlattenedAllPrefixErr(p, init, k, threshold);
      } else {
        assert init == os[..k];
      }
    } else {
      assert os[..k] == os;
    }
  }

  /** Every outcome `add_outcome` appends is stored as a valid outcome, at or
      above the threshold. */
  lemma {:induction false} FlattenedStored(p: real, e: Effect, threshold: real)
    requires Shaped(e)
    ensures var r := Flattened(p, e, threshold);
            r.Ok? ==> forall i :: 0 <= i < |r.value| ==> Stored(r.value[i]) && r.value[i].p >= threshold
    decreases e, 1
  {
    if p >= threshold && e.Probabilistic? {
      FlattenedAllStored(p, e.outcomes, threshold);
    }
  }

  lemma {:induction false} FlattenedAllStored(p: real, os: seq<Outcome>, threshold: real)
    requires forall i :: 0 <= i < |os| ==> Shaped(os[i].effect)
    ensures var r := FlattenedAll(p, os, threshold);
            r.Ok? ==> forall i :: 0 <= i < |r.value| ==> Stored(r.value[i]) && r.value[i].p >= threshold
    decreases os, 0
  {
    if |os| > 0 {
      FlattenedAllStored(p, os[..|os| - 1], threshold);
      FlattenedOneStored(p, os[|os| - 1], threshold);
    }
  }

  lemma {:induction false} FlattenedOneStored(p: real, o: Outcome, threshold: real)
    requires Shaped(o.effect)
    ensures var r := FlattenedOne(p, o, threshold);
            r.Ok? ==> forall i :: 0 <= i < |r.value| ==> Stored(r.value[i]) && r.value[i].p >= threshold
    decreases o, 2
  {
    FlattenedOneUnfold(p, o, threshold);
    if o.p > 0.0 && p * o.p >= threshold {
      FlattenedStored(p * o.p, o.effect, threshold);
    }
  }

  /** An effect that is not probabilistic, with a positive probability, is
      appended once when it reaches the threshold. */
  lemma FlattenedPlain(p: real, e: Effect, threshold: real)
    requires !e.Probabilistic? && p > 0.0
    ensures Flattened(p, e, threshold) == if p < threshold then Ok([]) else Ok([Outcome(p, e)])
  {
  }

  /** Every probability inside a probabilistic effect is positive, all the
      way down. */
  predicate Positive(e: Effect)
    decreases e, 1
  {
    e.Probabilistic? ==> forall i :: 0 <= i < |e.outcomes| ==> PositiveOutcome(e.outcomes[i])
  }

  predicate PositiveOutcome(o: Outcome)
    decreases o, 2
  {
    o.p > 0.0 && Positive(o.effect)
  }

  /** The probability mass of an effect: one for a plain effect, the
      weighted mass of the outcomes for a probabilistic one. */
  function MassOf(e: Effect): real
    decreases e, 1
  {
    if e.Probabilistic? then MassAll(e.outcomes) else 1.0
  }

  function MassAll(os: seq<Outcome>): real
    decreases os, 0
  {
    if |os| == 0 then 0.0 else MassAll(os[..|os| - 1]) + MassOne(os[|os| - 1])
  }

  function MassOne(o: Outcome): real
    decreases o, 2
  {
    o.p * MassOf(o.effect)
  }

  /** The mass of outcomes scaled by `p`, outcome by outcome, as flattening
      scales them. */
  function ScaledMassAll(p: real, os: seq<Outcome>): real {
    if |os| == 0 then 0.0 else ScaledMassAll(p, os[..|os| - 1]) + ScaledMassOne(p, os[|os| - 1])
  }

  function ScaledMassOne(p: real, o: Outcome): real {
    (p * o.p) * MassOf(o.effect)
  }

  /** Scaling outcome by outcome is scaling the whole mass. */
  lemma {:induction false} ScaledMassAllIs(p: real, os: seq<Outcome>)
    ensures ScaledMassAll(p, os) == p * MassAll(os)
  {
    if |os| > 0 {
      var init, o := os[..|os| - 1], os[|os| - 1];
      ScaledMassAllIs(p, init);
      MulAssociates(p, o.p, MassOf(o.effect));
      MulDistributes(p, MassAll(os), MassAll(init), MassOne(o));
    }
  }

  /** With no threshold, flattening never dies on positive probabilities and
      keeps the probability mass: the appended outcomes weigh `p` times the
      mass of the effect. */
  lemma {:induction false} FlattenedMass(p: real, e: Effect, threshold: real)
    requires p >= 0.0 && threshold <= 0.0 && Positive(e)
    ensures Flattened(p, e, threshold).Ok?
    ensures SumP(Flattened(p, e, threshold).value) == p * MassOf(e)
    decreases e, 1
  {
    if e.Probabilistic? {
      FlattenedAllMass(p, e.outcomes, threshold);
      ScaledMassAllIs(p, e.outcomes);
    } else if p == 0.0 {
      assert SumP([]) == 0.0;
    } else {
      assert SumP([Outcome(p, e)]) == SumP([]) + p;
    }
  }

  lemma {:induction false} FlattenedAllMass(p: real, os: seq<Outcome>, threshold: real)
    requires p >= 0.0 && threshold <= 0.0
    requires forall i :: 0 <= i < |os| ==> PositiveOutcome(os[i])
    ensures FlattenedAll(p, os, threshold).Ok?
    ensures SumP(FlattenedAll(p, os, threshold).value) == ScaledMassAll(p, os)
    decreases os, 0
  {
    if |os| > 0 {
      var init := os[..|os| - 1];
      var o := os[|os| - 1];
      FlattenedAllMass(p, init, threshold);
      FlattenedOneMass(p, o, threshold);
      var a := FlattenedAll(p, init, threshold).value;
      var b := FlattenedOne(p, o, threshold).value;
      FlattenedAllStep(p, os, threshold);
      SumPConcat(a, b);
    }
  }

  /** One unfolding of `FlattenedAll` when neither part fails. */
  lemma FlattenedAllStep(p: real, os: seq<Outcome>, threshold: real)
    requires |os| > 0
    requires FlattenedAll(p, os[..|os| - 1], threshold).Ok?
    requires FlattenedOne(p, os[|os| - 1], threshold).Ok?
    ensures FlattenedAll(p, os, threshold) ==
            Ok(FlattenedAll(p, os[..|os| - 1], threshold).value + FlattenedOne(p, os[|os| - 1], threshold).value)
  {
  }

  lemma {:induction false} FlattenedOneMass(p: real, o: Outcome, threshold: real)
    requires p >= 0.0 && threshold <= 0.0 && PositiveOutcome(o)
    ensures FlattenedOne(p, o, threshold).Ok?
    ensures SumP(FlattenedOne(p, o, threshold).value) == ScaledMassOne(p, o)
    decreases o, 2
  {
    assert p * o.p >= 0.0 by {
      MulNonNegative(p, o.p);
    }
    FlattenedOneUnfold(p, o, threshold);
    FlattenedMass(p * o.p, o.effect, threshold);
  }

  /** A probabilistic effect being built: `w_` and `effects_` as one list of
      outcomes, and whether it is known to sum up to one. */
  class ProbabilisticEffect {
    var outcomes: seq<Outcome>
    var sumUpToOne: bool

    /** Every stored outcome is as `add_outcome` stores it. */
    ghost predicate Valid()
      reads this
    {
      forall i :: 0 <= i < |outcomes| ==> Stored(outcomes[i])
    }

    constructor ()
      ensures Valid() && outcomes == [] && !sumUpToOne
    {
      outcomes := [];
      sumUpToOne := false;
    }

    /** The finished effect. */
    function Value(): (e: Effect)
      reads this
      ensures e.Probabilistic? && e.outcomes == outcomes && e.sumUpToOne == sumUpToOne
      ensures Valid() ==> Shaped(e) && Positive(e)
    {
      Probabilistic(outcomes, sumUpToOne)
    }

    /** `add_outcome(p, effect)`: `Die` when flattening dies, and otherwise
        the flattened outcomes appended and `true`. */
    method AddOutcome(p: real, e: Effect, threshold: real) returns (r: Result<bool>)
      requires Valid() && Shaped(e)
      modifies this
      ensures r.Ok? <==> Flattened(p, e, threshold).Ok?
      ensures r.Ok? ==> r.value && Valid() && sumUpToOne == old(sumUpToOne) &&
                        outcomes == old(outcomes) + Flattened(p, e, threshold).value
      decreases e, 1
    {
      FlattenedStored(p, e, threshold);
      if p < threshold {
        assert outcomes == old(outcomes) + [];
        return Ok(true);
      }
      if e.Probabilistic? {
        var os := e.outcomes;
        var i := 0;
        while i < |os|
          invariant 0 <= i <= |os|
          invariant FlattenedAll(p, os[..i], threshold).Ok?
          invariant Valid() && sumUpToOne == old(sumUpToOne)
          invariant outcomes == old(outcomes) + FlattenedAll(p, os[..i], threshold).value
        {
          assert os[..i + 1][..i] == os[..i];
          var sub := AddOne(p, os[i], threshold);
          if sub.Err? {
            FlattenedAllPrefixErr(p, os, i + 1, threshold);
            return sub;
          }
          i := i + 1;
        }
        assert os[..i] == os;
        return Ok(true);
      }
      if p != 0.0 {
        if !(p > 0.0) {
          return Err(Die);
        }
        outcomes := outcomes + [Outcome(p, e)];
      } else {
        assert outcomes == outcomes + [];
      }
      return Ok(true);
    }

    /** One turn of the loop of `add_outcome` over a probabilistic
        effect: `Die` unless the outcome's probability is positive, and the
        outcome's effect added with the scaled probability when that
        reaches the threshold. */
    method AddOne(p: real, o: Outcome, threshold: real) returns (r: Result<bool>)
      requires Valid() && Shaped(o.effect)
      modifies this
      ensures r.Ok? <==> FlattenedOne(p, o, threshold).Ok?
      ensures r.Ok? ==> r.value && Valid() && sumUpToOne == old(sumUpToOne) &&
                        outcomes == old(outcomes) + FlattenedOne(p, o, threshold).value
      decreases o, 2
    {
      FlattenedOneUnfold(p, o, threshold);
      if o.p <= 0.0 {
        return Err(Die);
      }
      var q := p * o.p;
      if q >= threshold {
        r := AddOutcome(q, o.effect, threshold);
      } else {
        assert outcomes == outcomes + [];
        r := Ok(true);
      }
    }

    /** `translate(plist)`: each outcome translated into a fresh
        probabilistic effect of its probability and inserted into `plist`
        (merging with an equal one), then, unless the effect is known to
        sum up to one, the missing mass as an empty effect; `dies` when a
        translation stops the program. */
    method Translate(plist: ProbEffectList, dnf: Formulas.Formula -> seq<seq<Atom>>,
                     functionCount: nat, useActionCost: bool) returns (dies: bool)
      requires Valid() && plist.Valid()
      requires forall i :: 0 <= i < |outcomes| ==> CostsFit(outcomes[i].effect, functionCount)
      modifies plist, plist.data
      ensures plist.Valid()
      ensures var r := TranslatedOutcomes(outcomes, old(plist.Contents()), dnf, functionCount, useActionCost);
              (dies <==> r.Err?) && (!dies ==> plist.Contents() == Completion(r.value, outcomes, sumUpToOne, functionCount))
    {
      var sum;
      dies, sum := TranslateOutcomes(plist, dnf, functionCount, useActionCost);
      if !dies {
        CompletionAt(plist.Contents(), outcomes, sumUpToOne, functionCount, sum);
        if !sumUpToOne && sum < 1.0 {
          var _ := plist.Insert(ProbEffect(1.0 - sum, DetEffect(Blank(functionCount), [])));
        }
      }
    }

    /** The loop of `translate(plist)`, which also sums the probabilities. */
    method TranslateOutcomes(plist: ProbEffectList, dnf: Formulas.Formula -> seq<seq<Atom>>,
                             functionCount: nat, useActionCost: bool) returns (dies: bool, sum: real)
      requires Valid() && plist.Valid()
      requires forall i :: 0 <= i < |outcomes| ==> CostsFit(outcomes[i].effect, functionCount)
      modifies plist, plist.data
      ensures plist.Valid()
      ensures plist.data == old(plist.data) || fresh(plist.data)
      ensures var r := TranslatedOutcomes(outcomes, old(plist.Contents()), dnf, functionCount, useActionCost);
              (dies <==> r.Err?) && (!dies ==> plist.Contents() == r.value && sum == SumP(outcomes))
    {
      ghost var start := plist.Contents();
      var os := outcomes;
      sum := 0.0;
      var i := 0;
      while i < |os|
        invariant 0 <= i <= |os|
        invariant plist.Valid()
        invariant plist.data == old(plist.data) || fresh(plist.data)
        invariant TranslatedOutcomes(os[..i], start, dnf, functionCount, useActionCost) == Ok(plist.Contents())
        invariant sum == SumP(os[..i])
      {
        dies := TranslateStep(plist, os, i, start, dnf, functionCount, useActionCost);
        if dies {
          return true, sum;
        }
        assert SumP(os[..i + 1]) == sum + os[i].p by { SumPStep(os, i); }
        sum := sum + os[i].p;
        i := i + 1;
      }
      assert os[..i] == os;
      return false, sum;
    }

    /** The inner loop of `cross_product` for outcome `o` of this effect:
        the pairs that reach the threshold appended, with the probability
        of the argument's outcomes kept (`kept`) and of the pairs (`mass`). */
    method AddRow(o: Outcome, qs: seq<Outcome>, threshold: real) returns (kept: real, mass: real)
      requires Valid() && Stored(o) && forall j :: 0 <= j < |qs| ==> Stored(qs[j])
      modifies this
      ensures Valid() && sumUpToOne == old(sumUpToOne)
      ensures outcomes == old(outcomes) + Row(o, qs, threshold)
      ensures kept == KeptWeight(o, qs, threshold) && mass == SumP(Row(o, qs, threshold))
    {
      kept, mass := 0.0, 0.0;
      var j := 0;
      while j < |qs|
        invariant 0 <= j <= |qs|
        invariant Valid() && sumUpToOne == old(sumUpToOne)
        invariant outcomes == old(outcomes) + Row(o, qs[..j], threshold)
        invariant kept == KeptWeight(o, qs[..j], threshold) && mass == SumP(Row(o, qs[..j], threshold))
      {
        RowStep(o, qs, j, threshold);
        var k, m := AddPair(o, qs[j], threshold);
        AppendAssoc(old(outcomes), Row(o, qs[..j], threshold), Paired(o, qs[j], threshold));
        kept, mass := kept + k, mass + m;
        j := j + 1;
      }
      assert qs[..j] == qs;
    }

    /** The body of the inner loop of `cross_product`: the pair of `o`
        and `q` added unless it falls below the threshold, with the
        probabilities it adds to `total_prob_of_arg_peff` (`kept`) and to
        `total_prob_cross_prod` (`mass`). */
    method AddPair(o: Outcome, q: Outcome, threshold: real) returns (kept: real, mass: real)
      requires Valid() && Stored(o) && Stored(q)
      modifies this
      ensures Valid() && sumUpToOne == old(sumUpToOne)
      ensures outcomes == old(outcomes) + Paired(o, q, threshold)
      ensures kept == KeptOne(o, q, threshold) && mass == SumP(Paired(o, q, threshold))
    {
      var p := o.p * q.p;
      if p < threshold {
        assert outcomes == old(outcomes) + [];
        return 0.0, 0.0;
      }
      var conjunction := PairConjunction(o.effect, q.effect);
      FlattenedPaired(o, q, conjunction, threshold);
      var _ := AddOutcome(p, conjunction, threshold);
      assert SumP(Paired(o, q, threshold)) == SumP([]) + p;
      return q.p, p;
    }

    /** A completion loop of `cross_product`: each outcome of `qs` scaled by
        `c` and added, with the mass `c` times theirs. */
    method AddScaled(c: real, qs: seq<Outcome>, threshold: real) returns (mass: real)
      requires Valid() && c > 0.0 && forall j :: 0 <= j < |qs| ==> Stored(qs[j])
      modifies this
      ensures Valid() && sumUpToOne == old(sumUpToOne)
      ensures outcomes == old(outcomes) + Scaled(c, qs, threshold)
      ensures mass == ScaledMass(c, qs)
    {
      mass := 0.0;
      var j := 0;
      while j < |qs|
        invariant 0 <= j <= |qs|
        invariant Valid() && sumUpToOne == old(sumUpToOne)
        invariant outcomes == old(outcomes) + Scaled(c, qs[..j], threshold)
        invariant mass == ScaledMass(c, qs[..j])
      {
        var q := qs[j];
        var p := c * q.p;
        ScaledStep(c, qs, j, threshold);
        FlattenedScaled(c, q, threshold);
        var _ := AddOutcome(p, q.effect, threshold);
        AppendAssoc(old(outcomes), Scaled(c, qs[..j], threshold), ScaledOne(c, q, threshold));
        mass := mass + p;
        j := j + 1;
      }
      assert qs[..j] == qs;
    }

    /** A completion loop of `cross_product`, when `run`: the outcomes
        `qs` scaled by the missing mass `c`, with what they add to
        `total_prob_cross_prod`. */
    method AddCompletion(run: bool, c: real, qs: seq<Outcome>, threshold: real) returns (mass: real)
      requires Valid() && (run ==> c > 0.0) && forall j :: 0 <= j < |qs| ==> Stored(qs[j])
      modifies this
      ensures Valid() && sumUpToOne == old(sumUpToOne)
      ensures outcomes == old(outcomes) + CompletionOutcomes(run, c, qs, threshold)
      ensures mass == CompletionWeight(run, c, qs)
    {
      if run {
        mass := AddScaled(c, qs, threshold);
      } else {
        mass := 0.0;
        assert outcomes == outcomes + [];
      }
    }

    /** The loops of `cross_product` before its last `add_outcome`: the
        pairs, then each completion that runs, with the mass they add up to. */
    method AddCrossBody(os: seq<Outcome>, qs: seq<Outcome>, sumA: bool, sumB: bool, threshold: real)
      returns (completeThis: bool, completeArg: bool, cross: real)
      requires Valid() && outcomes == []
      requires forall i :: 0 <= i < |os| ==> Stored(os[i])
      requires forall j :: 0 <= j < |qs| ==> Stored(qs[j])
      modifies this
      ensures Valid() && sumUpToOne == old(sumUpToOne)
      ensures completeThis == (!sumA && SumP(os) < 1.0)
      ensures completeArg == (!sumB && ArgTotal(os, qs, threshold) < 1.0)
      ensures outcomes == Pairs(os, qs, threshold)
                          + CompletionOutcomes(completeThis, 1.0 - SumP(os), qs, threshold)
                          + CompletionOutcomes(completeArg, 1.0 - ArgTotal(os, qs, threshold), os, threshold)
      ensures cross == CrossTotal(os, qs, completeThis, completeArg, threshold)
    {
      var totalThis, totalArg;
      cross, totalThis, totalArg := AddPairs(os, qs, threshold);
      completeThis := !sumA && totalThis < 1.0;
      var mass := AddCompletion(completeThis, 1.0 - totalThis, qs, threshold);
      cross := cross + mass;
      completeArg := !sumB && totalArg < 1.0;
      mass := AddCompletion(completeArg, 1.0 - totalArg, os, threshold);
      cross := cross + mass;
    }

    /** The nested loops of `cross_product`, into an empty effect: the
        pairs appended, with the probability of the pairs (`cross`) and of
        the argument's outcomes paired with the first outcome of `os`
        (`totalArg`). */
    method AddPairs(os: seq<Outcome>, qs: seq<Outcome>, threshold: real) returns (cross: real, totalThis: real, totalArg: real)
      requires Valid() && outcomes == []
      requires forall i :: 0 <= i < |os| ==> Stored(os[i])
      requires forall j :: 0 <= j < |qs| ==> Stored(qs[j])
      modifies this
      ensures Valid() && sumUpToOne == old(sumUpToOne)
      ensures outcomes == Pairs(os, qs, threshold) && cross == SumP(outcomes)
      ensures totalThis == SumP(os)
      ensures totalArg == if |os| == 0 then 0.0 else KeptWeight(os[0], qs, threshold)
    {
      cross, totalThis, totalArg := 0.0, 0.0, 0.0;
      var i := 0;
      while i < |os|
        invariant 0 <= i <= |os|
        invariant Valid() && sumUpToOne == old(sumUpToOne)
        invariant outcomes == Pairs(os[..i], qs, threshold)
        invariant cross == SumP(Pairs(os[..i], qs, threshold))
        invariant totalThis == SumP(os[..i])
        invariant totalArg == if i == 0 then 0.0 else KeptWeight(os[0], qs, threshold)
      {
        PairsStep(os, qs, i, threshold);
        SumPStep(os, i);
        var kept, mass := AddRow(os[i], qs, threshold);
        if i == 0 {
          totalArg := kept;
        }
        cross := cross + mass;
        totalThis := totalThis + os[i].p;
        i := i + 1;
      }
      assert os[..i] == os;
    }

    /** `cross_product(other)`: the conjunction of every pair of outcomes
        that reaches the threshold, then the completions of an effect that
        is not known to sum up to one by the other's outcomes, then, when
        both fall short, the empty effect with the missing mass; the result
        sums up to one.  `dies` when the last `add_outcome` stops the
        program. */
    method CrossProduct(other: ProbabilisticEffect, threshold: real) returns (result: ProbabilisticEffect, dies: bool)
      requires Valid() && other.Valid()
      ensures fresh(result)
      ensures var r := CrossOutcomes(outcomes, other.outcomes, sumUpToOne, other.sumUpToOne, threshold);
              (dies <==> r.Err?) && (!dies ==> result.Valid() && result.outcomes == r.value && result.sumUpToOne)
    {
      result := new ProbabilisticEffect();
      var os, qs := outcomes, other.outcomes;
      var completeThis, completeArg, cross := result.AddCrossBody(os, qs, sumUpToOne, other.sumUpToOne, threshold);
      ghost var body := result.outcomes;
      CrossOutcomesParts(os, qs, sumUpToOne, other.sumUpToOne, threshold, completeThis, completeArg, body, cross);
      dies := false;
      if completeThis && completeArg {
        dies := result.AddEmptyOutcome(cross, threshold);
      }
      result.sumUpToOne := true;
    }

    /** The last step of `*`: when both sides were incomplete, the outcome
        of the empty effect with the probability that no pair covers. */
    method AddEmptyOutcome(cross: real, threshold: real) returns (dies: bool)
      requires Valid()
      modifies this
      ensures var last := Flattened(1.0 - cross, Conjunction([]), threshold);
              (dies <==> last.Err?) && (!dies ==> Valid() && outcomes == old(outcomes) + last.value)
    {
      var empty := new ConjunctiveEffect();
      var e := empty.Value();
      var added := AddOutcome(1.0 - cross, e, threshold);
      dies := added.Err?;
    }
  }

  // ---------------------------------------------------------------------
  // ProbabilisticEffect: translate(plist)
  // ---------------------------------------------------------------------

  /** One turn of the loop of `translate(plist)`: the outcome's effect
      translated into a fresh probabilistic effect of its probability, which
      `plist.insert` appends or merges; `dies` when the translation stops
      the program. */
  method InsertTranslated(plist: ProbEffectList, o: Outcome, dnf: Formulas.Formula -> seq<seq<Atom>>,
                          functionCount: nat, useActionCost: bool) returns (dies: bool)
    requires plist.Valid() && CostsFit(o.effect, functionCount)
    modifies plist, plist.data
    ensures plist.Valid() && (plist.data == old(plist.data) || fresh(plist.data))
    ensures var t := Translated(o.effect, Blank(functionCount), [], dnf, useActionCost);
            (dies <==> t.Err?) &&
            (!dies ==> plist.Contents() == ProbInserted(old(plist.Contents()), ProbEffect(o.p, DetEffect(t.value.strips, t.value.conds))))
  {
    var t := Translated(o.effect, Blank(functionCount), [], dnf, useActionCost);
    if t.Err? {
      return true;
    }
    var _ := plist.Insert(ProbEffect(o.p, DetEffect(t.value.strips, t.value.conds)));
    return false;
  }

  /** One turn of the loop of `translate(plist)` on the list built from the
      first `i` outcomes: the list then holds the first `i + 1`, or the
      whole loop dies. */
  method TranslateStep(plist: ProbEffectList, os: seq<Outcome>, i: nat, ghost start: seq<ProbEffect>,
                       dnf: Formulas.Formula -> seq<seq<Atom>>, functionCount: nat, useActionCost: bool)
    returns (dies: bool)
    requires i < |os| && forall k :: 0 <= k < |os| ==> CostsFit(os[k].effect, functionCount)
    requires plist.Valid() && TranslatedOutcomes(os[..i], start, dnf, functionCount, useActionCost) == Ok(plist.Contents())
    modifies plist, plist.data
    ensures plist.Valid() && (plist.data == old(plist.data) || fresh(plist.data))
    ensures dies ==> TranslatedOutcomes(os, start, dnf, functionCount, useActionCost).Err?
    ensures !dies ==> TranslatedOutcomes(os[..i + 1], start, dnf, functionCount, useActionCost) == Ok(plist.Contents())
  {
    TranslatedOutcomesStep(os, i, start, dnf, functionCount, useActionCost);
    dies := InsertTranslated(plist, os[i], dnf, functionCount, useActionCost);
  }

  /** The list after the loop of `translate(plist)`, or `Die`. */
  function TranslatedOutcomes(os: seq<Outcome>, ps: seq<ProbEffect>, dnf: Formulas.Formula -> seq<seq<Atom>>,
                              functionCount: nat, useActionCost: bool): Result<seq<ProbEffect>>
    requires forall i :: 0 <= i < |os| ==> CostsFit(os[i].effect, functionCount)
  {
    if |os| == 0 then Ok(ps)
    else
      var o := os[|os| - 1];
      var init := TranslatedOutcomes(os[..|os| - 1], ps, dnf, functionCount, useActionCost);
      assert forall i :: 0 <= i < |os| - 1 ==> os[..|os| - 1][i] == os[i];
      if init.Err? then Err(Die)
      else
        var t := Translated(o.effect, Blank(functionCount), [], dnf, useActionCost);
        if t.Err? then Err(Die)
        else Ok(ProbInserted(init.value, ProbEffect(o.p, DetEffect(t.value.strips, t.value.conds))))
  }

  /** One more turn of that loop. */
  lemma TranslatedOutcomesStep(os: seq<Outcome>, i: nat, ps: seq<ProbEffect>,
                               dnf: Formulas.Formula -> seq<seq<Atom>>, functionCount: nat, useActionCost: bool)
    requires i < |os| && forall k :: 0 <= k < |os| ==> CostsFit(os[k].effect, functionCount)
    requires TranslatedOutcomes(os[..i], ps, dnf, functionCount, useActionCost).Ok?
    ensures var t := Translated(os[i].effect, Blank(functionCount), [], dnf, useActionCost);
            var r := TranslatedOutcomes(os[..i + 1], ps, dnf, functionCount, useActionCost);
            (t.Err? ==> TranslatedOutcomes(os, ps, dnf, functionCount, useActionCost).Err?) &&
            (t.Ok? ==> r == Ok(ProbInserted(TranslatedOutcomes(os[..i], ps, dnf, functionCount, useActionCost).value,
                                            ProbEffect(os[i].p, DetEffect(t.value.strips, t.value.conds)))))
  {
    assert os[..i + 1][..i] == os[..i];
    if Translated(os[i].effect, Blank(functionCount), [], dnf, useActionCost).Err? {
      TranslatedOk(os[i].effect, Blank(functionCount), [], dnf, useActionCost);
      TranslatedOutcomesOk(os, ps, dnf, functionCount, useActionCost);
    }
  }

  /** What `translate(plist)` adds after its loop: unless the effect is
      known to sum up to one, the missing probability mass as an empty
      effect. */
  function Completion(xs: seq<ProbEffect>, os: seq<Outcome>, sumUpToOne: bool, functionCount: nat): seq<ProbEffect> {
    if !sumUpToOne && SumP(os) < 1.0 then
      ProbInserted(xs, ProbEffect(1.0 - SumP(os), DetEffect(Blank(functionCount), [])))
    else xs
  }

  lemma CompletionAt(xs: seq<ProbEffect>, os: seq<Outcome>, sumUpToOne: bool, functionCount: nat, sum: real)
    requires sum == SumP(os)
    ensures Completion(xs, os, sumUpToOne, functionCount) ==
            if !sumUpToOne && sum < 1.0 then ProbInserted(xs, ProbEffect(1.0 - sum, DetEffect(Blank(functionCount), []))) else xs
  {
  }

  /** The outcomes translate exactly when each of them does. */
  lemma {:induction false} TranslatedOutcomesOk(os: seq<Outcome>, ps: seq<ProbEffect>,
                                                dnf: Formulas.Formula -> seq<seq<Atom>>,
                                                functionCount: nat, useActionCost: bool)
    requires forall i :: 0 <= i < |os| ==> CostsFit(os[i].effect, functionCount)
    ensures TranslatedOutcomes(os, ps, dnf, functionCount, useActionCost).Ok? <==>
            forall i :: 0 <= i < |os| ==> Translatable(os[i].effect)
  {
    if |os| > 0 {
      var init := os[..|os| - 1];
      assert forall i :: 0 <= i < |os| - 1 ==> init[i] == os[i];
      TranslatedOutcomesOk(init, ps, dnf, functionCount, useActionCost);
      TranslatedOk(os[|os| - 1].effect, Blank(functionCount), [], dnf, useActionCost);
    }
  }

  /** The loop adds the outcomes' probability mass to the list. */
  lemma {:induction false} TranslatedOutcomesMass(os: seq<Outcome>, ps: seq<ProbEffect>,
                                                  dnf: Formulas.Formula -> seq<seq<Atom>>,
                                                  functionCount: nat, useActionCost: bool)
    requires forall i :: 0 <= i < |os| ==> CostsFit(os[i].effect, functionCount) && Translatable(os[i].effect)
    ensures TranslatedOutcomes(os, ps, dnf, functionCount, useActionCost).Ok?
    ensures TotalProb(TranslatedOutcomes(os, ps, dnf, functionCount, useActionCost).value) == TotalProb(ps) + SumP(os)
  {
    if |os| > 0 {
      var o := os[|os| - 1];
      assert forall i :: 0 <= i < |os| - 1 ==> os[..|os| - 1][i] == os[i];
      TranslatedOk(o.effect, Blank(functionCount), [], dnf, useActionCost);
      TranslatedOutcomesMass(os[..|os| - 1], ps, dnf, functionCount, useActionCost);
      var init := TranslatedOutcomes(os[..|os| - 1], ps, dnf, functionCount, useActionCost).value;
      var t := Translated(o.effect, Blank(functionCount), [], dnf, useActionCost).value;
      ProbInsertedMass(init, ProbEffect(o.p, DetEffect(t.strips, t.conds)));
    }
  }

  /** `translate(plist)` adds exactly one unit of probability mass to the
      list when the effect is not known to sum up to one and falls short,
      and else the mass of its outcomes. */
  lemma TranslatedListMass(os: seq<Outcome>, sumUpToOne: bool, ps: seq<ProbEffect>,
                           dnf: Formulas.Formula -> seq<seq<Atom>>, functionCount: nat, useActionCost: bool)
    requires forall i :: 0 <= i < |os| ==> CostsFit(os[i].effect, functionCount) && Translatable(os[i].effect)
    ensures TranslatedOutcomes(os, ps, dnf, functionCount, useActionCost).Ok?
    ensures TotalProb(Completion(TranslatedOutcomes(os, ps, dnf, functionCount, useActionCost).value, os, sumUpToOne, functionCount)) ==
            TotalProb(ps) + (if !sumUpToOne && SumP(os) < 1.0 then 1.0 else SumP(os))
  {
    TranslatedOutcomesMass(os, ps, dnf, functionCount, useActionCost);
    var xs := TranslatedOutcomes(os, ps, dnf, functionCount, useActionCost).value;
    ProbInsertedMass(xs, ProbEffect(1.0 - SumP(os), DetEffect(Blank(functionCount), [])));
  }

  // ---------------------------------------------------------------------
  // ProbabilisticEffect: cross_product
  // ---------------------------------------------------------------------

  lemma AppendAssoc<T>(a: seq<T>, b: seq<T>, c: seq<T>)
    ensures (a + b) + c == a + (b + c)
  {
  }

  /** The pair of `o` with `q`, where its probability reaches the
      threshold: the conjunction of both effects, spliced. */
  function Paired(o: Outcome, q: Outcome, threshold: real): seq<Outcome> {
    var p := o.p * q.p;
    if p < threshold then [] else [Outcome(p, Conjunction(Spliced(o.effect) + Spliced(q.effect)))]
  }

  /** The pairs of `o` with each of `qs`, in order. */
  function Row(o: Outcome, qs: seq<Outcome>, threshold: real): seq<Outcome> {
    if |qs| == 0 then [] else Row(o, qs[..|qs| - 1], threshold) + Paired(o, qs[|qs| - 1], threshold)
  }

  /** The probability of those of `qs` that pair with `o`. */
  function KeptWeight(o: Outcome, qs: seq<Outcome>, threshold: real): real {
    if |qs| == 0 then 0.0 else KeptWeight(o, qs[..|qs| - 1], threshold) + KeptOne(o, qs[|qs| - 1], threshold)
  }

  /** The probability of `q` when it pairs with `o`, else zero. */
  function KeptOne(o: Outcome, q: Outcome, threshold: real): real {
    if o.p * q.p < threshold then 0.0 else q.p
  }

  /** The pairs of each of `os` with each of `qs`, row by row. */
  function Pairs(os: seq<Outcome>, qs: seq<Outcome>, threshold: real): seq<Outcome> {
    if |os| == 0 then [] else Pairs(os[..|os| - 1], qs, threshold) + Row(os[|os| - 1], qs, threshold)
  }

  /** Each of `qs` scaled by `c`, where it reaches the threshold. */
  function Scaled(c: real, qs: seq<Outcome>, threshold: real): seq<Outcome> {
    if |qs| == 0 then [] else Scaled(c, qs[..|qs| - 1], threshold) + ScaledOne(c, qs[|qs| - 1], threshold)
  }

  function ScaledOne(c: real, q: Outcome, threshold: real): seq<Outcome> {
    if c * q.p < threshold then [] else [Outcome(c * q.p, q.effect)]
  }

  lemma RowStep(o: Outcome, qs: seq<Outcome>, j: nat, threshold: real)
    requires j < |qs|
    ensures Row(o, qs[..j + 1], threshold) == Row(o, qs[..j], threshold) + Paired(o, qs[j], threshold)
    ensures KeptWeight(o, qs[..j + 1], threshold) == KeptWeight(o, qs[..j], threshold) + KeptOne(o, qs[j], threshold)
    ensures SumP(Row(o, qs[..j + 1], threshold)) == SumP(Row(o, qs[..j], threshold)) + SumP(Paired(o, qs[j], threshold))
  {
    assert qs[..j + 1][..j] == qs[..j];
    SumPConcat(Row(o, qs[..j], threshold), Paired(o, qs[j], threshold));
  }

  /** The mass the completion loops of `cross_product` add to
      `total_prob_cross_prod`: each probability scaled by `c`, whether kept
      or not. */
  function ScaledMass(c: real, qs: seq<Outcome>): real {
    if |qs| == 0 then 0.0 else ScaledMass(c, qs[..|qs| - 1]) + c * qs[|qs| - 1].p
  }

  lemma ScaledStep(c: real, qs: seq<Outcome>, j: nat, threshold: real)
    requires j < |qs|
    ensures Scaled(c, qs[..j + 1], threshold) == Scaled(c, qs[..j], threshold) + ScaledOne(c, qs[j], threshold)
    ensures ScaledMass(c, qs[..j + 1]) == ScaledMass(c, qs[..j]) + c * qs[j].p
  {
    assert qs[..j + 1][..j] == qs[..j];
  }

  /** The scaled mass is the scaled sum. */
  lemma {:induction false} ScaledMassIsScaledSum(c: real, qs: seq<Outcome>)
    ensures ScaledMass(c, qs) == c * SumP(qs)
  {
    if |qs| > 0 {
      ScaledMassIsScaledSum(c, qs[..|qs| - 1]);
      ScaledLast(c, qs);
      MulDistributes(c, SumP(qs), SumP(qs[..|qs| - 1]), qs[|qs| - 1].p);
    }
  }

  lemma FlattenedScaled(c: real, q: Outcome, threshold: real)
    requires c > 0.0 && Stored(q)
    ensures Flattened(c * q.p, q.effect, threshold) == Ok(ScaledOne(c, q, threshold))
  {
    MulPositive(c, q.p);
    FlattenedPlain(c * q.p, q.effect, threshold);
    if c * q.p < threshold {
      assert ScaledOne(c, q, threshold) == [];
    } else {
      assert ScaledOne(c, q, threshold) == [Outcome(c * q.p, q.effect)];
    }
  }

  lemma FlattenedPaired(o: Outcome, q: Outcome, e: Effect, threshold: real)
    requires Stored(o) && Stored(q) && e == Conjunction(Spliced(o.effect) + Spliced(q.effect))
    requires o.p * q.p >= threshold
    ensures Flattened(o.p * q.p, e, threshold) == Ok(Paired(o, q, threshold))
  {
    MulPositive(o.p, q.p);
    FlattenedPlain(o.p * q.p, e, threshold);
    assert Paired(o, q, threshold) == [Outcome(o.p * q.p, e)];
  }

  lemma PairsStep(os: seq<Outcome>, qs: seq<Outcome>, i: nat, threshold: real)
    requires i < |os|
    ensures Pairs(os[..i + 1], qs, threshold) == Pairs(os[..i], qs, threshold) + Row(os[i], qs, threshold)
    ensures SumP(Pairs(os[..i + 1], qs, threshold)) ==
            SumP(Pairs(os[..i], qs, threshold)) + SumP(Row(os[i], qs, threshold))
    ensures i == 0 ==> os[..i + 1][0] == os[0]
  {
    assert os[..i + 1][..i] == os[..i];
    SumPConcat(Pairs(os[..i], qs, threshold), Row(os[i], qs, threshold));
  }

  /** The conjunction `cross_product` builds for a pair: a fresh
      conjunctive effect given both effects by `add_conjunct`. */
  method PairConjunction(a: Effect, b: Effect) returns (e: Effect)
    requires Shaped(a) && Shaped(b)
    ensures e == Conjunction(Spliced(a) + Spliced(b)) && Shaped(e)
  {
    var conjunction := new ConjunctiveEffect();
    conjunction.AddConjunct(a);
    conjunction.AddConjunct(b);
    assert [] + Spliced(a) == Spliced(a);
    e := conjunction.Value();
  }

  /** What a completion loop of `cross_product` adds, when it runs. */
  function CompletionOutcomes(run: bool, c: real, qs: seq<Outcome>, threshold: real): seq<Outcome> {
    if run then Scaled(c, qs, threshold) else []
  }

  /** `total_prob_of_arg_peff`: the argument's probability, counted with
      the pairs of the first outcome of `os` that reach the threshold. */
  function ArgTotal(os: seq<Outcome>, qs: seq<Outcome>, threshold: real): real {
    if |os| == 0 then 0.0 else KeptWeight(os[0], qs, threshold)
  }

  /** What a completion loop adds to `total_prob_cross_prod`, when it runs. */
  function CompletionWeight(run: bool, c: real, qs: seq<Outcome>): real {
    if run then ScaledMass(c, qs) else 0.0
  }

  /** `total_prob_cross_prod` after the completions: the pairs kept, and
      the completions whether kept or not. */
  function CrossTotal(os: seq<Outcome>, qs: seq<Outcome>, completeThis: bool, completeArg: bool, threshold: real): real {
    SumP(Pairs(os, qs, threshold))
    + CompletionWeight(completeThis, 1.0 - SumP(os), qs)
    + CompletionWeight(completeArg, 1.0 - ArgTotal(os, qs, threshold), os)
  }

  /** `cross_product` of outcomes `os` (known to sum up to one when
      `sumA`) with outcomes `qs` (when `sumB`), or `Die`. */
  function CrossOutcomes(os: seq<Outcome>, qs: seq<Outcome>, sumA: bool, sumB: bool, threshold: real): Result<seq<Outcome>> {
    var completeThis := !sumA && SumP(os) < 1.0;
    var completeArg := !sumB && ArgTotal(os, qs, threshold) < 1.0;
    var body := Pairs(os, qs, threshold)
                + CompletionOutcomes(completeThis, 1.0 - SumP(os), qs, threshold)
                + CompletionOutcomes(completeArg, 1.0 - ArgTotal(os, qs, threshold), os, threshold);
    if completeThis && completeArg then
      var last := Flattened(1.0 - CrossTotal(os, qs, completeThis, completeArg, threshold), Conjunction([]), threshold);
      if last.Err? then Err(Die) else Ok(body + last.value)
    else Ok(body)
  }


  /** `CrossOutcomes` from the parts the code computes. */
  lemma CrossOutcomesParts(os: seq<Outcome>, qs: seq<Outcome>, sumA: bool, sumB: bool, threshold: real,
                           completeThis: bool, completeArg: bool, body: seq<Outcome>, cross: real)
    requires completeThis == (!sumA && SumP(os) < 1.0)
    requires completeArg == (!sumB && ArgTotal(os, qs, threshold) < 1.0)
    requires body == Pairs(os, qs, threshold)
                     + CompletionOutcomes(completeThis, 1.0 - SumP(os), qs, threshold)
                     + CompletionOutcomes(completeArg, 1.0 - ArgTotal(os, qs, threshold), os, threshold)
    requires cross == CrossTotal(os, qs, completeThis, completeArg, threshold)
    ensures !(completeThis && completeArg) ==> CrossOutcomes(os, qs, sumA, sumB, threshold) == Ok(body)
    ensures completeThis && completeArg ==>
            var last := Flattened(1.0 - cross, Conjunction([]), threshold);
            CrossOutcomes(os, qs, sumA, sumB, threshold) == if last.Err? then Err(Die) else Ok(body + last.value)
  {
  }

  // Arithmetic facts the solver needs spelled out

  lemma MulPositive(a: real, b: real)
    requires a > 0.0 && b > 0.0
    ensures a * b > 0.0
  {
  }

  lemma MulDistributes(c: real, s: real, x: real, y: real)
    requires s == x + y
    ensures c * s == c * x + c * y
  {
  }

  lemma ScaledLast(c: real, qs: seq<Outcome>)
    requires |qs| > 0
    ensures ScaledMass(c, qs) == ScaledMass(c, qs[..|qs| - 1]) + c * qs[|qs| - 1].p
  {
  }

}
