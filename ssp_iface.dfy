/** The stochastic shortest-path problem (SSP) as the planners see it: an
    initial state, goal states, the actions applicable in a state, the
    successors an action can lead to, and costs.

    The solver reaches these through an interface with type-erased
    iterators; here an SSP is the value of the answers it gives.
    `successors(a, s)` lists the events of the distribution `expand(a, s)`
    fills, and `actions(s)` is the range `applicableActions(s)` iterates.
    Costs are exact rationals in the solver and reals here.
*/
module SspIface {

  datatype Ssp<!S(==), !A(==)> = Ssp(
    s0: S,
    isGoal: S -> bool,
    actions: S -> seq<A>,
    isApplicable: (S, A) -> bool,
    successors: (A, S) -> seq<S>,
    cost: (S, A) -> real,
    terminalCost: S -> real)

  /** The range of applicable actions lists only applicable actions. */
  ghost predicate ActionsApplicable<S(!new), A(!new)>(ssp: Ssp<S, A>) {
    forall s, a :: a in ssp.actions(s) ==> ssp.isApplicable(s, a)
  }

  /** `hasApplicableActions(s)`: the range is not empty. */
  predicate HasApplicableActions<S(==), A(==)>(ssp: Ssp<S, A>, s: S) {
    |ssp.actions(s)| > 0
  }

  /** `t` is one step from `s`: `s` is not a goal and some applicable
      action of `s` can lead to `t`. This is the step every search over
      the SSP takes. */
  predicate Step<S(==), A(==)>(ssp: Ssp<S, A>, s: S, t: S) {
    !ssp.isGoal(s) && exists a :: a in ssp.actions(s) && t in ssp.successors(a, s)
  }

  /** Every successor of a non-goal state of `space` is in `space`. */
  ghost predicate ClosedUnderSteps<S(!new), A>(ssp: Ssp<S, A>, space: set<S>) {
    forall s, t :: s in space && Step(ssp, s, t) ==> t in space
  }
}
