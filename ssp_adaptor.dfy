/** `SSPAdaptor` (`ssp_adaptor.h`): an SSP seen through functors that can add
    goals, forbid actions and override costs, together with the common
    functors.

    The adaptor is itself an SSP, so `Adapt` returns one. The functors'
    `assert`s on the stored costs are the well-formedness predicates
    `PositiveCosts` and `NonNegativeCosts` of the tables.
*/
module SspAdaptor {
  import opened SspIface
  import opened PyOps

  /** The constructor's arguments besides the wrapped SSP. A negative cost
      from a cost functor means "use the original cost". */
  datatype Functors<!S, !A> = Functors(
    newS0: S,
    isGoal: S -> bool,
    isApplicable: (S, A) -> bool,
    cost: (S, A) -> real,
    terminalCost: S -> real)

  /** The adaptor's answers. `applicableActions` iterates the original
      range and keeps the actions the adaptor's own `isApplicable`
      accepts. */
  function Adapt<S(==), A(==)>(ssp: Ssp<S, A>, f: Functors<S, A>): Ssp<S, A> {
    Ssp(
      f.newS0,
      s => f.isGoal(s) || ssp.isGoal(s),
      s => Filter(ssp.actions(s), KeepFor(ssp, f, s)),
      (s, a) => KeepFor(ssp, f, s)(a),
      ssp.successors,
      (s, a) => if f.cost(s, a) > 0.0 then f.cost(s, a) else ssp.cost(s, a),
      s => if f.terminalCost(s) >= 0.0 then f.terminalCost(s) else ssp.terminalCost(s))
  }

  /** The adaptor's `isApplicable` at `s`. */
  function KeepFor<S(==), A(==)>(ssp: Ssp<S, A>, f: Functors<S, A>, s: S): A -> bool {
    a => f.isApplicable(s, a) && ssp.isApplicable(s, a)
  }

  /** The adaptor only adds goals and only removes actions: a goal of the
      wrapped SSP stays a goal, a listed action of the adaptor is a listed
      and applicable action of the wrapped SSP that the functor accepts,
      every action the adaptor lists is applicable to it, and the cost and
      terminal cost are the functor's when it gives a positive
      (respectively non-negative) value and the original ones otherwise. */
  lemma AdaptMeaning<S(!new), A(!new)>(ssp: Ssp<S, A>, f: Functors<S, A>, s: S, a: A)
    ensures Adapt(ssp, f).s0 == f.newS0
    ensures Adapt(ssp, f).isGoal(s) <==> f.isGoal(s) || ssp.isGoal(s)
    ensures ssp.isGoal(s) ==> Adapt(ssp, f).isGoal(s)
    ensures Adapt(ssp, f).isApplicable(s, a) <==> f.isApplicable(s, a) && ssp.isApplicable(s, a)
    ensures a in Adapt(ssp, f).actions(s) <==>
      a in ssp.actions(s) && f.isApplicable(s, a) && ssp.isApplicable(s, a)
    ensures a in Adapt(ssp, f).actions(s) ==> Adapt(ssp, f).isApplicable(s, a)
    ensures HasApplicableActions(Adapt(ssp, f), s) <==>
      exists b :: b in ssp.actions(s) && f.isApplicable(s, b) && ssp.isApplicable(s, b)
    ensures Adapt(ssp, f).successors(a, s) == ssp.successors(a, s)
    ensures Adapt(ssp, f).cost(s, a) == if f.cost(s, a) > 0.0 then f.cost(s, a) else ssp.cost(s, a)
    ensures Adapt(ssp, f).terminalCost(s) ==
      if f.terminalCost(s) >= 0.0 then f.terminalCost(s) else ssp.terminalCost(s)
  {
    FilterMembers(ssp.actions(s), KeepFor(ssp, f, s));
    var r := Filter(ssp.actions(s), KeepFor(ssp, f, s));
    if |r| > 0 {
      assert r[0] in r;
      assert r[0] in ssp.actions(s) && f.isApplicable(s, r[0]) && ssp.isApplicable(s, r[0]);
    }
    if b :| b in ssp.actions(s) && f.isApplicable(s, b) && ssp.isApplicable(s, b) {
      assert b in r;
    }
  }

  // ---------------------------------------------------------------------
  // No extra restriction
  // ---------------------------------------------------------------------

  function SameGoals<S>(s: S): bool { false }
  function SameApplicableActions<S, A>(s: S, a: A): bool { true }
  function SameActionCost<S, A>(s: S, a: A): real { -1.0 }
  function SameTerminalCost<S>(s: S): real { -1.0 }

  function SameFunctors<S(==), A(==)>(newS0: S): Functors<S, A> {
    Functors(newS0, SameGoals, SameApplicableActions, SameActionCost, SameTerminalCost)
  }

  /** With the identity functors the adaptor agrees with the wrapped SSP
      on goals, applicability, actions, successors and costs; only the
      initial state is the supplied one. */
  lemma SameFunctorsChangeNothing<S(!new), A(!new)>(ssp: Ssp<S, A>, newS0: S, s: S, a: A)
    requires ActionsApplicable(ssp)
    ensures Adapt(ssp, SameFunctors(newS0)).isGoal(s) == ssp.isGoal(s)
    ensures Adapt(ssp, SameFunctors(newS0)).isApplicable(s, a) == ssp.isApplicable(s, a)
    ensures Adapt(ssp, SameFunctors<S, A>(newS0)).actions(s) == ssp.actions(s)
    ensures Adapt(ssp, SameFunctors(newS0)).successors(a, s) == ssp.successors(a, s)
    ensures Adapt(ssp, SameFunctors(newS0)).cost(s, a) == ssp.cost(s, a)
    ensures Adapt(ssp, SameFunctors<S, A>(newS0)).terminalCost(s) == ssp.terminalCost(s)
  {
    AdaptMeaning(ssp, SameFunctors(newS0), s, a);
    FilterKeepsAll(ssp.actions(s), KeepFor(ssp, SameFunctors(newS0), s));
  }

  /** A filter that keeps every item is the identity. */
  lemma {:induction false} FilterKeepsAll<T(!new)>(xs: seq<T>, keep: T -> bool)
    requires forall x :: x in xs ==> keep(x)
    ensures Filter(xs, keep) == xs
    decreases |xs|
  {
    if |xs| > 0 {
      assert xs[0] in xs;
      assert forall x :: x in xs[1..] ==> x in xs;
      FilterKeepsAll(xs[1..], keep);
      assert xs == [xs[0]] + xs[1..];
    }
  }

  // ---------------------------------------------------------------------
  // Functors from tables
  // ---------------------------------------------------------------------

  /** `ExtraGoalsFromSet`: the states of the set become goals. */
  function ExtraGoalsFromSet<S(==)>(newGoals: set<S>): S -> bool
  {
    s => s in newGoals
  }

  /** `ActionsToIgnoreFromHash`: an action is denied exactly when it is
      recorded for its state. */
  function ActionsToIgnoreFromHash<S(==), A(==)>(pairs: map<S, set<A>>): (S, A) -> bool
  {
    (s, a) => !(s in pairs && a in pairs[s])
  }

  /** `ActionCostFromHash`: the recorded cost of the pair, or -1. */
  function ActionCostFromHash<S(==), A(==)>(newCost: map<S, map<A, real>>): (S, A) -> real
  {
    (s, a) => if s in newCost && a in newCost[s] then newCost[s][a] else -1.0
  }

  /** `TerminalCostFromHash`: the recorded cost of the state, or -1. The
      functor `TerminalCostFromV` is the same over the stored values of a
      value table. */
  function TerminalCostFromHash<S(==)>(newCost: map<S, real>): S -> real
  {
    s => if s in newCost then newCost[s] else -1.0
  }

  /** What the cost functors assert of their tables. */
  predicate PositiveCosts<S, A>(newCost: map<S, map<A, real>>) {
    forall s :: s in newCost ==> forall a :: a in newCost[s] ==> newCost[s][a] > 0.0
  }

  predicate NonNegativeCosts<S>(newCost: map<S, real>) {
    forall s :: s in newCost ==> newCost[s] >= 0.0
  }

  /** The adaptor built from tables: the set's states are extra goals, the
      recorded actions are denied, and a recorded (positive) cost or
      (non-negative) terminal cost replaces the original one while every
      other pair keeps its original cost. */
  lemma FromTablesMeaning<S(!new), A(!new)>(ssp: Ssp<S, A>, newS0: S, newGoals: set<S>,
                                        pairs: map<S, set<A>>, newCost: map<S, map<A, real>>,
                                        newTerminal: map<S, real>, s: S, a: A)
    requires PositiveCosts(newCost) && NonNegativeCosts(newTerminal)
    ensures var ad := Adapt(ssp, Functors(newS0, ExtraGoalsFromSet(newGoals), ActionsToIgnoreFromHash(pairs),
                                          ActionCostFromHash(newCost), TerminalCostFromHash(newTerminal)));
      && (ad.isGoal(s) <==> s in newGoals || ssp.isGoal(s))
      && (ad.isApplicable(s, a) <==> !(s in pairs && a in pairs[s]) && ssp.isApplicable(s, a))
      && ad.cost(s, a) == (if s in newCost && a in newCost[s] then newCost[s][a] else ssp.cost(s, a))
      && ad.terminalCost(s) == (if s in newTerminal then newTerminal[s] else ssp.terminalCost(s))
  {
    var f := Functors(newS0, ExtraGoalsFromSet(newGoals), ActionsToIgnoreFromHash(pairs),
                      ActionCostFromHash(newCost), TerminalCostFromHash(newTerminal));
    AdaptMeaning(ssp, f, s, a);
  }
}
