/** `reachableStatesFrom` (`ssp_utils.cc`): the states reachable from a root
    by breadth-first search, never expanding goal states.

    States are sets of atoms of a fixed problem, so there are finitely many;
    the search is given a finite set `universe` of states closed under
    successors that contains the root, which is what makes it stop.
*/
module SspUtils {
  import opened SspIface

  /** No state occurs twice. */
  ghost predicate NoDuplicates<S>(xs: seq<S>) {
    forall i, j :: 0 <= i < j < |xs| ==> xs[i] != xs[j]
  }

  /** Each state after the first is one step from an earlier one: the
      order in which the search discovers states. */
  ghost predicate Discovered<S(!new), A(!new)>(ssp: Ssp<S, A>, order: seq<S>) {
    forall j :: 0 < j < |order| ==> exists i :: 0 <= i < j && Step(ssp, order[i], order[j])
  }

  /** Every state one step from `s` is in `reachable`. */
  ghost predicate Expanded<S(!new), A(!new)>(ssp: Ssp<S, A>, s: S, reachable: set<S>) {
    forall t :: Step(ssp, s, t) ==> t in reachable
  }

  /** `added` lists, without repeats, states of `from` that were not in
      `before`, and `after` is `before` with them. */
  ghost predicate NewStates<S(!new)>(added: seq<S>, from: S -> bool, before: set<S>, after: set<S>) {
    && (forall i :: 0 <= i < |added| ==> added[i] !in before && from(added[i]))
    && NoDuplicates(added)
    && (forall x :: x in after <==> x in before || x in added)
  }

  /** Every state discovered from the root lies in any set that contains
      the root and is closed under steps. */
  lemma {:induction false} DiscoveredWithin<S(!new), A(!new)>(ssp: Ssp<S, A>, order: seq<S>, c: set<S>, j: nat)
    requires 0 < |order| && order[0] in c && ClosedUnderSteps(ssp, c)
    requires Discovered(ssp, order) && j < |order|
    ensures order[j] in c
    decreases j
  {
    if j > 0 {
      var i :| 0 <= i < j && Step(ssp, order[i], order[j]);
      DiscoveredWithin(ssp, order, c, i);
    }
  }

  /** One expansion of the search keeps its invariants: the states it adds
      are discovered from the expanded state, none repeats an earlier one,
      and the expanded states so far stay expanded. */
  lemma ExtendDiscovery<S(!new), A(!new)>(ssp: Ssp<S, A>, order: seq<S>, done: nat, added: seq<S>,
                                          reachable: set<S>, r2: set<S>)
    requires done < |order| && Discovered(ssp, order) && NoDuplicates(order)
    requires forall x :: x in reachable <==> x in order
    requires NewStates(added, t => Step(ssp, order[done], t), reachable, r2)
    requires forall i :: 0 <= i < done ==> Expanded(ssp, order[i], reachable)
    requires Expanded(ssp, order[done], r2) && reachable <= r2
    ensures Discovered(ssp, order + added) && NoDuplicates(order + added)
    ensures forall x :: x in r2 <==> x in order + added
    ensures forall i :: 0 <= i < done + 1 ==> Expanded(ssp, (order + added)[i], r2)
  {
    var order2 := order + added;
    assert forall j :: |order| <= j < |order2| ==> Step(ssp, order2[done], order2[j]) by {
      forall j | |order| <= j < |order2|
        ensures Step(ssp, order2[done], order2[j])
      {
        assert order2[j] == added[j - |order|];
      }
    }
    assert Discovered(ssp, order2) by {
      forall j | 0 < j < |order2|
        ensures exists i :: 0 <= i < j && Step(ssp, order2[i], order2[j])
      {
        if j < |order| {
          var i :| 0 <= i < j && Step(ssp, order[i], order[j]);
          assert order2[i] == order[i] && order2[j] == order[j];
        } else {
          assert 0 <= done < j && Step(ssp, order2[done], order2[j]);
        }
      }
    }
    forall i, j | 0 <= i < j < |order2|
      ensures order2[i] != order2[j]
    {
      if j >= |order| {
        assert order2[j] == added[j - |order|];
        if i < |order| {
          assert order2[i] in reachable;
        } else {
          assert order2[i] == added[i - |order|];
        }
      }
    }
    forall i | 0 <= i < done + 1
      ensures Expanded(ssp, order2[i], r2)
    {
      if i < done {
        assert order2[i] == order[i];
        assert Expanded(ssp, order[i], reachable);
      }
    }
  }

  lemma SliceOfConcat<T>(xs: seq<T>, ys: seq<T>, k: nat)
    requires k <= |xs|
    ensures (xs + ys)[k..] == xs[k..] + ys
  {
  }

  lemma SliceOfSlice<T>(xs: seq<T>, k: nat)
    requires k < |xs|
    ensures xs[k..][1..] == xs[k + 1..]
  {
  }

  /** A strictly larger part of a finite set leaves strictly less of it. */
  lemma LessLeft<S(!new)>(universe: set<S>, a: set<S>, b: set<S>, x: S)
    requires a <= b <= universe && x in b && x !in a
    ensures |universe - b| < |universe - a|
  {
    var d := (universe - a) - (universe - b);
    assert x in d;
    assert universe - a == (universe - b) + d;
    assert (universe - b) * d == {};
  }

  /** The inner loop over the events of one expansion: each successor not
      yet reachable is added to the set and pushed on the queue. */
  method AddSuccessors<S(==,!new), A(!new)>(ssp: Ssp<S, A>, s: S, a: A, reachable: set<S>, queue: seq<S>,
                                           ghost universe: set<S>)
    returns (reachable': set<S>, queue': seq<S>)
    requires reachable <= universe && forall t :: t in ssp.successors(a, s) ==> t in universe
    ensures reachable <= reachable' <= universe
    ensures forall t :: t in ssp.successors(a, s) ==> t in reachable'
    ensures |queue| <= |queue'| && queue'[..|queue|] == queue
    ensures NewStates(queue'[|queue|..], t => t in ssp.successors(a, s), reachable, reachable')
  {
    var succs := ssp.successors(a, s);
    reachable', queue' := reachable, queue;
    var k := 0;
    while k < |succs|
      invariant 0 <= k <= |succs|
      invariant reachable <= reachable' <= universe
      invariant forall m :: 0 <= m < k ==> succs[m] in reachable'
      invariant |queue| <= |queue'| && queue'[..|queue|] == queue
      invariant NewStates(queue'[|queue|..], t => t in succs, reachable, reachable')
    {
      var t := succs[k];
      if t !in reachable' {
        ghost var added := queue'[|queue|..];
        reachable' := reachable' + {t};
        queue' := queue' + [t];
        assert queue'[|queue|..] == added + [t];
      }
      k := k + 1;
    }
  }

  /** The loop over the applicable actions of a non-goal state `s`:
      afterwards every state one step from `s` is reachable, and the pushed
      states are new, each one step from `s`. */
  method ExpandState<S(==,!new), A(!new)>(ssp: Ssp<S, A>, s: S, reachable: set<S>, queue: seq<S>,
                                         ghost universe: set<S>)
    returns (reachable': set<S>, queue': seq<S>)
    requires !ssp.isGoal(s) && s in universe && reachable <= universe && ClosedUnderSteps(ssp, universe)
    ensures reachable <= reachable' <= universe
    ensures Expanded(ssp, s, reachable')
    ensures |queue| <= |queue'| && queue'[..|queue|] == queue
    ensures NewStates(queue'[|queue|..], t => Step(ssp, s, t), reachable, reachable')
  {
    var acts := ssp.actions(s);
    reachable', queue' := reachable, queue;
    var i := 0;
    while i < |acts|
      invariant 0 <= i <= |acts|
      invariant reachable <= reachable' <= universe
      invariant forall b, t :: b in acts[..i] && t in ssp.successors(b, s) ==> t in reachable'
      invariant |queue| <= |queue'| && queue'[..|queue|] == queue
      invariant NewStates(queue'[|queue|..], t => Step(ssp, s, t), reachable, reachable')
    {
      var a := acts[i];
      forall t | t in ssp.successors(a, s)
        ensures t in universe
      {
        assert Step(ssp, s, t);
      }
      ghost var before, added := reachable', queue'[|queue|..];
      var r2, q2 := AddSuccessors(ssp, s, a, reachable', queue', universe);
      ghost var more := q2[|queue'|..];
      assert q2[|queue|..] == added + more;
      forall m | 0 <= m < |more|
        ensures Step(ssp, s, more[m])
      {
        assert more[m] in ssp.successors(a, s);
      }
      assert acts[..i + 1] == acts[..i] + [a];
      reachable', queue' := r2, q2;
      i := i + 1;
    }
    assert acts[..i] == acts;
  }

  /** The loop invariant of the search: `order` lists the pushed states,
      each once and the root first, discovered from earlier ones; the
      queue is its unprocessed tail; `reachable` holds exactly the pushed
      states; and every processed state is expanded into `reachable`. */
  ghost predicate SearchInvariant<S(!new), A(!new)>(ssp: Ssp<S, A>, root: S, universe: set<S>, reachable: set<S>,
                                                    queue: seq<S>, order: seq<S>, done: nat) {
    && 0 < |order| && order[0] == root && NoDuplicates(order)
    && done <= |order| && queue == order[done..]
    && (forall x :: x in reachable <==> x in order)
    && reachable <= universe
    && Discovered(ssp, order)
    && (forall i :: 0 <= i < done ==> Expanded(ssp, order[i], reachable))
  }

  /** Expanding the front state `order[done]` into `r2` and `q2` keeps the
      invariant once the front is popped, and leaves less of the universe
      unreached unless nothing was added. */
  lemma ExpandKeepsInvariant<S(!new), A(!new)>(ssp: Ssp<S, A>, root: S, universe: set<S>, reachable: set<S>,
                                               queue: seq<S>, order: seq<S>, done: nat, r2: set<S>, q2: seq<S>)
    requires |queue| > 0 && SearchInvariant(ssp, root, universe, reachable, queue, order, done)
    requires reachable <= r2 <= universe && Expanded(ssp, order[done], r2)
    requires |queue| <= |q2| && q2[..|queue|] == queue
    requires NewStates(q2[|queue|..], t => Step(ssp, order[done], t), reachable, r2)
    ensures SearchInvariant(ssp, root, universe, r2, q2[1..], order + q2[|queue|..], done + 1)
    ensures |universe - r2| < |universe - reachable| || (r2 == reachable && |q2[1..]| < |queue|)
  {
    var added := q2[|queue|..];
    ExtendDiscovery(ssp, order, done, added, reachable, r2);
    QueueAfterExpand(queue, order, done, q2);
    FewerLeft(universe, reachable, r2, added);
  }

  /** The queue after pushing past its old end and popping its front is the
      tail of the extended order after `done + 1`. */
  lemma QueueAfterExpand<S>(queue: seq<S>, order: seq<S>, done: nat, q2: seq<S>)
    requires done <= |order| && queue == order[done..] && |queue| > 0
    requires |queue| <= |q2| && q2[..|queue|] == queue
    ensures q2[1..] == (order + q2[|queue|..])[done + 1..]
  {
    var added := q2[|queue|..];
    assert q2 == queue + added;
    SliceOfConcat(order, added, done);
    SliceOfSlice(order + added, done);
  }

  /** Adding states leaves less of the universe unreached, unless nothing
      was added. */
  lemma FewerLeft<S(!new)>(universe: set<S>, reachable: set<S>, r2: set<S>, added: seq<S>)
    requires reachable <= r2 <= universe
    requires forall i :: 0 <= i < |added| ==> added[i] !in reachable
    requires forall x :: x in r2 <==> x in reachable || x in added
    ensures |universe - r2| < |universe - reachable| || (r2 == reachable && |added| == 0)
  {
    if |added| > 0 {
      LessLeft(universe, reachable, r2, added[0]);
    } else {
      assert r2 == reachable;
    }
  }

  /** Popping a goal state keeps the invariant: a goal has no steps. */
  lemma GoalKeepsInvariant<S(!new), A(!new)>(ssp: Ssp<S, A>, root: S, universe: set<S>, reachable: set<S>,
                                             queue: seq<S>, order: seq<S>, done: nat)
    requires |queue| > 0 && SearchInvariant(ssp, root, universe, reachable, queue, order, done)
    requires ssp.isGoal(queue[0])
    ensures SearchInvariant(ssp, root, universe, reachable, queue[1..], order, done + 1)
  {
    assert queue[0] == order[done];
    assert Expanded(ssp, order[done], reachable);
    SliceOfSlice(order, done);
  }

  /** One iteration of the search: take the front of the queue and, unless
      it is a goal, expand it. */
  method Visit<S(==,!new), A(!new)>(ssp: Ssp<S, A>, root: S, ghost universe: set<S>, reachable: set<S>,
                                   queue: seq<S>, ghost order: seq<S>, ghost done: nat)
    returns (reachable': set<S>, queue': seq<S>, ghost order': seq<S>, ghost done': nat)
    requires ClosedUnderSteps(ssp, universe)
    requires |queue| > 0 && SearchInvariant(ssp, root, universe, reachable, queue, order, done)
    ensures SearchInvariant(ssp, root, universe, reachable', queue', order', done')
    ensures |universe - reachable'| < |universe - reachable| || (reachable' == reachable && |queue'| < |queue|)
  {
    var s := queue[0];
    assert s == order[done] && s in universe;
    if !ssp.isGoal(s) {
      var r2, q2 := ExpandState(ssp, s, reachable, queue, universe);
      ExpandKeepsInvariant(ssp, root, universe, reachable, queue, order, done, r2, q2);
      reachable', queue', order' := r2, q2[1..], order + q2[|queue|..];
    } else {
      GoalKeepsInvariant(ssp, root, universe, reachable, queue, order, done);
      reachable', queue', order' := reachable, queue[1..], order;
    }
    done' := done + 1;
  }

  /** When the queue is empty, the invariant gives the result's meaning. */
  lemma SearchDone<S(!new), A(!new)>(ssp: Ssp<S, A>, root: S, universe: set<S>, reachable: set<S>,
                                     order: seq<S>, done: nat)
    requires SearchInvariant(ssp, root, universe, reachable, [], order, done)
    ensures ClosedUnderSteps(ssp, reachable)
    ensures forall c :: root in c && ClosedUnderSteps(ssp, c) ==> reachable <= c
  {
    assert done == |order|;
    forall c | root in c && ClosedUnderSteps(ssp, c)
      ensures reachable <= c
    {
      forall x | x in reachable
        ensures x in c
      {
        var j :| 0 <= j < |order| && order[j] == x;
        DiscoveredWithin(ssp, order, c, j);
      }
    }
    forall s, t | s in reachable && Step(ssp, s, t)
      ensures t in reachable
    {
      var j :| 0 <= j < |order| && order[j] == s;
      assert Expanded(ssp, order[j], reachable);
    }
  }

  /** `reachableStatesFrom(ssp, root)`. The result contains the root, is
      closed under the successors of its non-goal states, and is the least
      such set: every state in it is reached from the root through
      non-goal states. `order` is the order in which states are pushed on
      the queue, each exactly once. */
  method ReachableStatesFrom<S(==,!new), A(!new)>(ssp: Ssp<S, A>, root: S, ghost universe: set<S>)
    returns (reachable: set<S>, ghost order: seq<S>)
    requires root in universe && ClosedUnderSteps(ssp, universe)
    ensures root in reachable && reachable <= universe
    ensures ClosedUnderSteps(ssp, reachable)
    ensures forall c :: root in c && ClosedUnderSteps(ssp, c) ==> reachable <= c
    ensures 0 < |order| && order[0] == root && NoDuplicates(order)
    ensures forall x :: x in reachable <==> x in order
  {
    var queue := [root];
    reachable := {root};
    order := [root];
    ghost var done := 0;
    while |queue| > 0
      invariant SearchInvariant(ssp, root, universe, reachable, queue, order, done)
      decreases |universe - reachable|, |queue|
    {
      reachable, queue, order, done := Visit(ssp, root, universe, reachable, queue, order, done);
    }
    SearchDone(ssp, root, universe, reachable, order, done);
  }
}
