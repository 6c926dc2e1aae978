/** Short-sighted SSPs (`short_sighted_ssps.h`, `short_sighted_ssps.cc`): the
    part of an SSP around a state, in which every state is either INTERNAL
    or FRINGE, and the fringe states are goals (original or artificial).

    The value table the short-sighted SSP consults for artificial goals is
    given by its stored values and the heuristic for states without one.
*/
module ShortSightedSsps {
  import opened Wrappers
  import opened SspIface
  import opened SspUtils

  /** `StateType`: FRINGE covers both original and artificial goals. */
  datatype StateType = Internal | Fringe

  class ShortSightedSsp<S(==,!new), A(==,!new)> {
    const ssp: Ssp<S, A>
    const s0: S
    const v: map<S, real>
    const heuristic: S -> real
    var ssHash: map<S, StateType>

    constructor (ssp: Ssp<S, A>, s0: S, v: map<S, real>, heuristic: S -> real)
      ensures this.ssp == ssp && this.s0 == s0 && this.v == v && this.heuristic == heuristic
      ensures ssHash == map[]
    {
      this.ssp := ssp;
      this.s0 := s0;
      this.v := v;
      this.heuristic := heuristic;
      ssHash := map[];
    }

    predicate IsDefinedFor(s: S)
      reads this
    {
      s in ssHash
    }

    function TotalStates(): nat
      reads this
    {
      |ssHash|
    }

    /** `isGoal(s)`: dies outside the space. */
    function IsGoal(s: S): Result<bool>
      reads this
    {
      if s !in ssHash then Err(Die) else Ok(ssHash[s] == Fringe)
    }

    /** The action queries die unless `s` is an internal state. */
    function HasApplicableActions(s: S): Result<bool>
      reads this
    {
      match IsGoal(s)
      case Err(e) => Err(e)
      case Ok(g) => if g then Err(Die) else Ok(SspIface.HasApplicableActions(ssp, s))
    }

    function IsApplicable(s: S, a: A): Result<bool>
      reads this
    {
      match IsGoal(s)
      case Err(e) => Err(e)
      case Ok(g) => if g then Err(Die) else Ok(ssp.isApplicable(s, a))
    }

    function ApplicableActions(s: S): Result<seq<A>>
      reads this
    {
      match IsGoal(s)
      case Err(e) => Err(e)
      case Ok(g) => if g then Err(Die) else Ok(ssp.actions(s))
    }

    function Expand(a: A, s: S): seq<S> {
      ssp.successors(a, s)
    }

    function Cost(s: S, a: A): real {
      ssp.cost(s, a)
    }

    /** `terminalCost(s)`: dies unless `s` is a fringe state. */
    function TerminalCost(s: S): Result<real>
      reads this
    {
      match IsGoal(s)
      case Err(e) => Err(e)
      case Ok(g) =>
        if !g then Err(Die)
        else if ssp.isGoal(s) then Ok(ssp.terminalCost(s))
        else Ok(if s in v then v[s] else heuristic(s))
    }

    /** `insertState(s)`: true iff `s` was not in the space, and then it
        is added as an internal state. */
    method InsertState(s: S) returns (inserted: bool)
      modifies this
      ensures inserted <==> s !in old(ssHash)
      ensures ssHash == if inserted then old(ssHash)[s := Internal] else old(ssHash)
    {
      if s in ssHash {
        return false;
      }
      ssHash := ssHash[s := Internal];
      return true;
    }

    /** `setAsFringe(s)`: dies outside the space; otherwise only the mark of
        `s` changes. */
    method SetAsFringe(s: S) returns (r: Result<()>)
      modifies this
      ensures r.Ok? <==> s in old(ssHash)
      ensures ssHash == if r.Ok? then old(ssHash)[s := Fringe] else old(ssHash)
    {
      if s !in ssHash {
        return Err(Die);
      }
      ssHash := ssHash[s := Fringe];
      return Ok(());
    }

    /** `setAsInternal(s)`: dies outside the space; otherwise only the mark
        of `s` changes. */
    method SetAsInternal(s: S) returns (r: Result<()>)
      modifies this
      ensures r.Ok? <==> s in old(ssHash)
      ensures ssHash == if r.Ok? then old(ssHash)[s := Internal] else old(ssHash)
    {
      if s !in ssHash {
        return Err(Die);
      }
      ssHash := ssHash[s := Internal];
      return Ok(());
    }

    // -------------------------------------------------------------------
    // The sufficient conditions of a short-sighted SSP
    // -------------------------------------------------------------------

    /** Condition 1: every original goal of the space is a goal of it. */
    ghost predicate OriginalGoalsAreGoals()
      reads this
    {
      forall t :: t in ssHash && ssp.isGoal(t) ==> ssHash[t] == Fringe
    }

    /** Condition 2: the initial state is not an artificial goal. */
    predicate S0NotArtificialGoal()
      requires s0 in ssHash
      reads this
    {
      !(ssHash[s0] == Fringe && !ssp.isGoal(s0))
    }

    /** Condition 3: every successor of an internal state is in the space. */
    ghost predicate InternalSuccessorsInSpace()
      reads this
    {
      forall t :: t in ssHash && ssHash[t] == Internal ==> Expanded(ssp, t, ssHash.Keys)
    }

    /** The number of successors of the internal state `t` outside the
        space, over its applicable actions. */
    method CountOutside(t: S) returns (n: nat)
      requires t in ssHash && ssHash[t] == Internal
      ensures n == 0 <==> forall a, u :: a in ssp.actions(t) && u in ssp.successors(a, t) ==> u in ssHash
    {
      n := 0;
      var acts := ssp.actions(t);
      var i := 0;
      while i < |acts|
        invariant 0 <= i <= |acts|
        invariant n == 0 <==> forall a, u :: a in acts[..i] && u in ssp.successors(a, t) ==> u in ssHash
      {
        var succs := ssp.successors(acts[i], t);
        var k := 0;
        var m := 0;
        while k < |succs|
          invariant 0 <= k <= |succs|
          invariant m == 0 <==> forall j :: 0 <= j < k ==> succs[j] in ssHash
        {
          if succs[k] !in ssHash {
            m := m + 1;
          }
          k := k + 1;
        }
        assert m == 0 <==> forall u :: u in succs ==> u in ssHash;
        assert acts[..i + 1] == acts[..i] + [acts[i]];
        n := n + m;
        i := i + 1;
      }
      assert acts[..i] == acts;
    }

    /** `satisfiesSufficientConditions()`: counts the violations of the three
        conditions and reports whether there are none; it dies when the
        initial state is outside the space. States are visited in an
        unspecified order, as in a hash map. */
    method SatisfiesSufficientConditions() returns (r: Result<bool>)
      ensures s0 !in ssHash ==> r == Err(Die)
      ensures s0 in ssHash ==>
        r == Ok(OriginalGoalsAreGoals() && S0NotArtificialGoal() && InternalSuccessorsInSpace())
    {
      var total := 0;
      var todo := ssHash.Keys;
      while todo != {}
        invariant todo <= ssHash.Keys
        invariant total == 0 <==> forall t :: t in ssHash && t !in todo && ssp.isGoal(t) ==> ssHash[t] == Fringe
        decreases |todo|
      {
        var t :| t in todo;
        if ssp.isGoal(t) && ssHash[t] != Fringe {
          total := total + 1;
        }
        todo := todo - {t};
      }
      ghost var cond1 := total == 0;
      if s0 !in ssHash {
        return Err(Die);
      }
      if ssHash[s0] == Fringe && !ssp.isGoal(s0) {
        total := total + 1;
      }
      ghost var cond12 := total == 0;
      todo := ssHash.Keys;
      while todo != {}
        invariant todo <= ssHash.Keys
        invariant total == 0 <==> cond12 && forall t :: t in ssHash && t !in todo && ssHash[t] == Internal ==> Expanded(ssp, t, ssHash.Keys)
        decreases |todo|
      {
        var t :| t in todo;
        if ssHash[t] == Internal {
          var n := CountOutside(t);
          total := total + n;
        }
        todo := todo - {t};
      }
      return Ok(total == 0);
    }
  }

  // ---------------------------------------------------------------------
  // newMaxDepth
  // ---------------------------------------------------------------------

  /** The states of a list of queue entries (depth, state). */
  function StatesOf<S>(xs: seq<(nat, S)>): (r: seq<S>)
    ensures |r| == |xs| && forall i :: 0 <= i < |xs| ==> r[i] == xs[i].1
  {
    seq(|xs|, i requires 0 <= i < |xs| => xs[i].1)
  }

  /** The entry at `j` is one step, and one level deeper, from an earlier
      entry. */
  ghost predicate ReachedFromEarlier<S(!new), A(!new)>(ssp: Ssp<S, A>, order: seq<(nat, S)>, j: nat)
    requires j < |order|
  {
    exists i :: 0 <= i < j && order[i].0 + 1 == order[j].0 && Step(ssp, order[i].1, order[j].1)
  }

  /** Every entry after the first is reached from an earlier one. */
  ghost predicate Reached<S(!new), A(!new)>(ssp: Ssp<S, A>, order: seq<(nat, S)>) {
    forall j :: 0 < j < |order| ==> ReachedFromEarlier(ssp, order, j)
  }

  /** The entries pushed on the queue, in order: the first is `(0, s)`, no
      state is pushed twice, no depth exceeds `maxDepth`, and every later
      entry is reached from an earlier one. */
  ghost predicate DepthOrder<S(!new), A(!new)>(ssp: Ssp<S, A>, s: S, maxDepth: nat, order: seq<(nat, S)>) {
    && 0 < |order| && order[0] == (0, s)
    && NoDuplicates(StatesOf(order))
    && (forall i :: 0 <= i < |order| ==> order[i].0 <= maxDepth)
    && Reached(ssp, order)
  }

  /** The space holds exactly the pushed states, all inside `universe`. */
  ghost predicate SpaceOf<S(!new)>(space: map<S, StateType>, order: seq<(nat, S)>, universe: set<S>) {
    && (forall x :: x in space <==> x in StatesOf(order))
    && space.Keys <= universe
  }

  /** How a dequeued entry is left: as fringe when it is at the maximum
      depth or an original goal, and otherwise as an internal state all of
      whose successors are in the space. */
  ghost predicate Marked<S(!new), A(!new)>(ssp: Ssp<S, A>, maxDepth: nat, e: (nat, S), space: map<S, StateType>) {
    && e.1 in space
    && if e.0 == maxDepth || ssp.isGoal(e.1) then space[e.1] == Fringe
       else space[e.1] == Internal && Expanded(ssp, e.1, space.Keys)
  }

  /** The first `n` entries are marked. */
  ghost predicate MarkedBefore<S(!new), A(!new)>(ssp: Ssp<S, A>, maxDepth: nat, order: seq<(nat, S)>,
                                                 space: map<S, StateType>, n: nat) {
    forall i :: 0 <= i < n && i < |order| ==> Marked(ssp, maxDepth, order[i], space)
  }

  /** The entries from `lo` up to `hi` have type `t` in the space. */
  ghost predicate Holds<S(!new)>(order: seq<(nat, S)>, space: map<S, StateType>, lo: nat, hi: nat, t: StateType) {
    forall i :: lo <= i < hi && i < |order| ==> order[i].1 in space && space[order[i].1] == t
  }

  /** The invariant of the search loop of `newMaxDepth`: the queue is the
      unprocessed tail of the pushed entries, processed entries are marked,
      and queued ones are internal. Before the first entry is processed the
      space is just `s`. */
  ghost predicate DepthInvariant<S(!new), A(!new)>(ssp: Ssp<S, A>, s: S, maxDepth: nat, universe: set<S>,
                                                   space: map<S, StateType>, queue: seq<(nat, S)>,
                                                   order: seq<(nat, S)>, done: nat) {
    && DepthOrder(ssp, s, maxDepth, order)
    && done <= |order| && queue == order[done..]
    && SpaceOf(space, order, universe)
    && MarkedBefore(ssp, maxDepth, order, space, done)
    && Holds(order, space, done, |order|, Internal)
    && (done == 0 ==> space == map[s := Internal])
  }

  /** `added` lists new entries at depth `d`; `after` is `before` with
      those states added as internal states. */
  ghost predicate NewEntries<S(!new)>(added: seq<(nat, S)>, d: nat,
                                      before: map<S, StateType>, after: map<S, StateType>) {
    && (forall i :: 0 <= i < |added| ==> added[i].0 == d && added[i].1 !in before)
    && NoDuplicates(StatesOf(added))
    && (forall x :: x in after <==> x in before || x in StatesOf(added))
    && (forall x :: x in before ==> after[x] == before[x])
    && (forall x :: x in after && x !in before ==> after[x] == Internal)
  }

  /** Pushing one more new state extends the new entries. */
  lemma NewEntriesAppend<S(!new)>(added: seq<(nat, S)>, d: nat, t: S,
                                  before: map<S, StateType>, after: map<S, StateType>)
    requires NewEntries(added, d, before, after) && t !in after
    ensures NewEntries(added + [(d, t)], d, before, after[t := Internal])
  {
    var sa := StatesOf(added);
    assert StatesOf(added + [(d, t)]) == sa + [t];
    assert t !in sa;
  }

  /** Two batches of new entries make one. */
  lemma NewEntriesConcat<S(!new)>(xs: seq<(nat, S)>, ys: seq<(nat, S)>, d: nat,
                                  b0: map<S, StateType>, b1: map<S, StateType>, b2: map<S, StateType>)
    requires NewEntries(xs, d, b0, b1) && NewEntries(ys, d, b1, b2)
    ensures NewEntries(xs + ys, d, b0, b2)
  {
    var sx, sy, sxy := StatesOf(xs), StatesOf(ys), StatesOf(xs + ys);
    assert sxy == sx + sy;
    forall i | 0 <= i < |xs + ys|
      ensures (xs + ys)[i].0 == d && (xs + ys)[i].1 !in b0
    {
      if i >= |xs| {
        assert (xs + ys)[i] == ys[i - |xs|];
      }
    }
    forall i, j | 0 <= i < j < |sxy|
      ensures sxy[i] != sxy[j]
    {
      if i < |sx| && j >= |sx| {
        assert sxy[i] in b1;
        assert sxy[j] == sy[j - |sx|];
      } else if i >= |sx| {
        assert sxy[i] == sy[i - |sx|] && sxy[j] == sy[j - |sx|];
      }
    }
  }

  /** The loop over the events of one expansion: each successor is
      inserted, and pushed one level deeper when it is new. */
  method InsertSuccessors<S(==,!new), A(==,!new)>(s4p: ShortSightedSsp<S, A>, cur: S, a: A, d: nat,
                                                 queue: seq<(nat, S)>, ghost universe: set<S>)
    returns (queue': seq<(nat, S)>)
    modifies s4p
    requires s4p.ssHash.Keys <= universe
    requires forall t :: t in s4p.ssp.successors(a, cur) ==> t in universe
    ensures s4p.ssHash.Keys <= universe
    ensures forall t :: t in s4p.ssp.successors(a, cur) ==> t in s4p.ssHash
    ensures |queue| <= |queue'| && queue'[..|queue|] == queue
    ensures NewEntries(queue'[|queue|..], d + 1, old(s4p.ssHash), s4p.ssHash)
    ensures forall i :: |queue| <= i < |queue'| ==> queue'[i].1 in s4p.ssp.successors(a, cur)
  {
    var succs := s4p.ssp.successors(a, cur);
    queue' := queue;
    var k := 0;
    while k < |succs|
      invariant 0 <= k <= |succs|
      invariant s4p.ssHash.Keys <= universe
      invariant forall m :: 0 <= m < k ==> succs[m] in s4p.ssHash
      invariant |queue| <= |queue'| && queue'[..|queue|] == queue
      invariant NewEntries(queue'[|queue|..], d + 1, old(s4p.ssHash), s4p.ssHash)
      invariant forall i :: |queue| <= i < |queue'| ==> queue'[i].1 in succs
    {
      var t := succs[k];
      ghost var added, before := queue'[|queue|..], s4p.ssHash;
      var inserted := s4p.InsertState(t);
      if inserted {
        NewEntriesAppend(added, d + 1, t, old(s4p.ssHash), before);
        queue' := queue' + [(d + 1, t)];
        assert queue'[|queue|..] == added + [(d + 1, t)];
      }
      k := k + 1;
    }
  }

  /** The loop over the actions of a non-goal state `cur` at depth `d`:
      afterwards every state one step from `cur` is in the space, and the
      pushed entries are new states at depth `d + 1`, each one step from
      `cur`. */
  method ExpandAtDepth<S(==,!new), A(==,!new)>(s4p: ShortSightedSsp<S, A>, cur: S, d: nat,
                                              queue: seq<(nat, S)>, ghost universe: set<S>)
    returns (queue': seq<(nat, S)>)
    modifies s4p
    requires !s4p.ssp.isGoal(cur) && cur in universe && s4p.ssHash.Keys <= universe
    requires ClosedUnderSteps(s4p.ssp, universe)
    ensures s4p.ssHash.Keys <= universe
    ensures Expanded(s4p.ssp, cur, s4p.ssHash.Keys)
    ensures |queue| <= |queue'| && queue'[..|queue|] == queue
    ensures NewEntries(queue'[|queue|..], d + 1, old(s4p.ssHash), s4p.ssHash)
    ensures forall i :: |queue| <= i < |queue'| ==> Step(s4p.ssp, cur, queue'[i].1)
  {
    var ssp := s4p.ssp;
    var acts := ssp.actions(cur);
    queue' := queue;
    var i := 0;
    while i < |acts|
      invariant 0 <= i <= |acts|
      invariant s4p.ssHash.Keys <= universe
      invariant forall m, t :: 0 <= m < i && t in ssp.successors(acts[m], cur) ==> t in s4p.ssHash
      invariant |queue| <= |queue'| && queue'[..|queue|] == queue
      invariant NewEntries(queue'[|queue|..], d + 1, old(s4p.ssHash), s4p.ssHash)
      invariant forall j :: |queue| <= j < |queue'| ==> Step(ssp, cur, queue'[j].1)
    {
      var a := acts[i];
      forall t | t in ssp.successors(a, cur)
        ensures t in universe
      {
        assert Step(ssp, cur, t);
      }
      ghost var before := s4p.ssHash;
      var q2 := InsertSuccessors(s4p, cur, a, d, queue', universe);
      NewEntriesConcat(queue'[|queue|..], q2[|queue'|..], d + 1, old(s4p.ssHash), before, s4p.ssHash);
      assert q2[|queue|..] == queue'[|queue|..] + q2[|queue'|..];
      forall j | |queue| <= j < |q2|
        ensures Step(ssp, cur, q2[j].1)
      {
        if j < |queue'| {
          assert q2[j] == queue'[j];
        } else {
          assert q2[j].1 in ssp.successors(a, cur);
        }
      }
      queue' := q2;
      i := i + 1;
    }
    forall t | Step(ssp, cur, t)
      ensures t in s4p.ssHash
    {
      var b :| b in acts && t in ssp.successors(b, cur);
      var m :| 0 <= m < |acts| && acts[m] == b;
    }
  }

  /** Making the entry at `k` fringe keeps the marks of the first `n`
      entries, `k` not among them. */
  lemma MarksAfterFringe<S(!new), A(!new)>(ssp: Ssp<S, A>, maxDepth: nat, order: seq<(nat, S)>,
                                           space: map<S, StateType>, k: nat, n: nat)
    requires n <= k < |order| && NoDuplicates(StatesOf(order)) && order[k].1 in space
    requires MarkedBefore(ssp, maxDepth, order, space, n)
    ensures MarkedBefore(ssp, maxDepth, order, space[order[k].1 := Fringe], n)
  {
    var space' := space[order[k].1 := Fringe];
    assert space'.Keys == space.Keys;
    var st := StatesOf(order);
    forall i | 0 <= i < n && i < |order|
      ensures Marked(ssp, maxDepth, order[i], space')
    {
      assert st[i] != st[k];
      assert Marked(ssp, maxDepth, order[i], space);
    }
  }

  /** Making the entry at `k` fringe keeps the types of the entries from
      `lo` up to `hi`, `k` not among them. */
  lemma HoldsAfterFringe<S(!new)>(order: seq<(nat, S)>, space: map<S, StateType>, k: nat,
                                  lo0: nat, lo: nat, hi: nat, t: StateType)
    requires k < |order| && NoDuplicates(StatesOf(order)) && !(lo <= k < hi) && lo0 <= lo
    requires Holds(order, space, lo0, hi, t)
    ensures Holds(order, space[order[k].1 := Fringe], lo, hi, t)
  {
    var st := StatesOf(order);
    forall i | lo <= i < hi && i < |order|
      ensures order[i].1 in space[order[k].1 := Fringe] && space[order[k].1 := Fringe][order[i].1] == t
    {
      assert st[i] != st[k];
    }
  }

  /** One more marked entry. */
  lemma MarkedBeforeNext<S(!new), A(!new)>(ssp: Ssp<S, A>, maxDepth: nat, order: seq<(nat, S)>,
                                           space: map<S, StateType>, n: nat)
    requires n < |order| && MarkedBefore(ssp, maxDepth, order, space, n)
    requires Marked(ssp, maxDepth, order[n], space)
    ensures MarkedBefore(ssp, maxDepth, order, space, n + 1)
  {
  }

  /** Marking the front entry as fringe keeps the invariant once it is
      popped. */
  lemma FringeKeepsDepthInvariant<S(!new), A(!new)>(ssp: Ssp<S, A>, s: S, maxDepth: nat, universe: set<S>,
                                                    space: map<S, StateType>, queue: seq<(nat, S)>,
                                                    order: seq<(nat, S)>, done: nat)
    requires |queue| > 0 && DepthInvariant(ssp, s, maxDepth, universe, space, queue, order, done)
    requires queue[0].0 == maxDepth || ssp.isGoal(queue[0].1)
    ensures queue[0].1 in space
    ensures DepthInvariant(ssp, s, maxDepth, universe, space[queue[0].1 := Fringe], queue[1..], order, done + 1)
  {
    assert queue[0] == order[done];
    var x := order[done].1;
    var space' := space[x := Fringe];
    assert space'.Keys == space.Keys;
    MarksAfterFringe(ssp, maxDepth, order, space, done, done);
    MarkedBeforeNext(ssp, maxDepth, order, space', done);
    HoldsAfterFringe(order, space, done, done, done + 1, |order|, Internal);
    SliceOfSlice(order, done);
  }

  /** The entries pushed from the entry at `done` are reached. */
  lemma ExtendReached<S(!new), A(!new)>(ssp: Ssp<S, A>, order: seq<(nat, S)>, done: nat, added: seq<(nat, S)>)
    requires done < |order| && Reached(ssp, order)
    requires forall i :: 0 <= i < |added| ==>
      added[i].0 == order[done].0 + 1 && Step(ssp, order[done].1, added[i].1)
    ensures Reached(ssp, order + added)
  {
    var order2 := order + added;
    forall j | 0 < j < |order2|
      ensures ReachedFromEarlier(ssp, order2, j)
    {
      if j < |order| {
        assert ReachedFromEarlier(ssp, order, j);
        var i :| 0 <= i < j && order[i].0 + 1 == order[j].0 && Step(ssp, order[i].1, order[j].1);
        assert order2[i] == order[i] && order2[j] == order[j];
      } else {
        assert order2[j] == added[j - |order|] && order2[done] == order[done];
      }
    }
  }

  /** New states keep the pushed states free of duplicates. */
  lemma ExtendNoDuplicates<S>(order: seq<(nat, S)>, added: seq<(nat, S)>)
    requires NoDuplicates(StatesOf(order)) && NoDuplicates(StatesOf(added))
    requires forall i :: 0 <= i < |added| ==> added[i].1 !in StatesOf(order)
    ensures NoDuplicates(StatesOf(order + added))
  {
    var st, sa, st2 := StatesOf(order), StatesOf(added), StatesOf(order + added);
    assert st2 == st + sa;
    forall i, j | 0 <= i < j < |st2|
      ensures st2[i] != st2[j]
    {
      if j >= |st| {
        assert st2[j] == sa[j - |st|] == added[j - |st|].1;
        if i >= |st| {
          assert st2[i] == sa[i - |st|];
        }
      }
    }
  }

  /** The entries pushed by expanding the entry at `done`, which is less
      than `maxDepth` deep, extend the push order and the space. */
  lemma ExtendDepthOrder<S(!new), A(!new)>(ssp: Ssp<S, A>, s: S, maxDepth: nat, order: seq<(nat, S)>,
                                           done: nat, added: seq<(nat, S)>, space: map<S, StateType>,
                                           space2: map<S, StateType>)
    requires DepthOrder(ssp, s, maxDepth, order) && done < |order| && order[done].0 < maxDepth
    requires forall x :: x in space <==> x in StatesOf(order)
    requires NewEntries(added, order[done].0 + 1, space, space2)
    requires forall i :: 0 <= i < |added| ==> Step(ssp, order[done].1, added[i].1)
    ensures DepthOrder(ssp, s, maxDepth, order + added)
    ensures forall x :: x in space2 <==> x in StatesOf(order + added)
  {
    ExtendReached(ssp, order, done, added);
    ExtendNoDuplicates(order, added);
    var order2: seq<(nat, S)> := order + added;
    assert StatesOf(order2) == StatesOf(order) + StatesOf(added);
    forall i | 0 <= i < |order2|
      ensures order2[i].0 <= maxDepth
    {
      if i >= |order| {
        assert order2[i] == added[i - |order|];
      }
    }
  }

  /** Growing the space with new states keeps the marks of the first `n`
      entries. */
  lemma MarksAfterGrowth<S(!new), A(!new)>(ssp: Ssp<S, A>, maxDepth: nat, order: seq<(nat, S)>,
                                           added: seq<(nat, S)>, space: map<S, StateType>,
                                           space2: map<S, StateType>, n: nat)
    requires n <= |order| && MarkedBefore(ssp, maxDepth, order, space, n)
    requires forall x :: x in space ==> x in space2 && space2[x] == space[x]
    ensures MarkedBefore(ssp, maxDepth, order + added, space2, n)
  {
    forall i | 0 <= i < n && i < |order + added|
      ensures Marked(ssp, maxDepth, (order + added)[i], space2)
    {
      assert (order + added)[i] == order[i];
      assert Marked(ssp, maxDepth, order[i], space);
    }
  }

  /** The queued entries stay internal when new internal entries are
      pushed behind them. */
  lemma HoldsAfterGrowth<S(!new)>(order: seq<(nat, S)>, added: seq<(nat, S)>, d: nat,
                                  space: map<S, StateType>, space2: map<S, StateType>, lo0: nat, lo: nat)
    requires lo0 <= lo <= |order| && Holds(order, space, lo0, |order|, Internal)
    requires NewEntries(added, d, space, space2)
    ensures Holds(order + added, space2, lo, |order + added|, Internal)
  {
    var sa := StatesOf(added);
    forall i | lo <= i < |order + added|
      ensures (order + added)[i].1 in space2 && space2[(order + added)[i].1] == Internal
    {
      if i < |order| {
        assert (order + added)[i] == order[i];
      } else {
        assert (order + added)[i] == added[i - |order|];
        assert sa[i - |order|] == added[i - |order|].1;
      }
    }
  }

  /** Expanding the front entry keeps the invariant once it is popped, and
      leaves less of the universe outside the space unless nothing was
      added. */
  lemma ExpandKeepsDepthInvariant<S(!new), A(!new)>(ssp: Ssp<S, A>, s: S, maxDepth: nat, universe: set<S>,
                                                    space: map<S, StateType>, queue: seq<(nat, S)>,
                                                    order: seq<(nat, S)>, done: nat,
                                                    space2: map<S, StateType>, q2: seq<(nat, S)>)
    requires |queue| > 0 && DepthInvariant(ssp, s, maxDepth, universe, space, queue, order, done)
    requires !(queue[0].0 == maxDepth || ssp.isGoal(queue[0].1))
    requires space2.Keys <= universe && Expanded(ssp, queue[0].1, space2.Keys)
    requires |queue| <= |q2| && q2[..|queue|] == queue
    requires NewEntries(q2[|queue|..], queue[0].0 + 1, space, space2)
    requires forall i :: |queue| <= i < |q2| ==> Step(ssp, queue[0].1, q2[i].1)
    ensures DepthInvariant(ssp, s, maxDepth, universe, space2, q2[1..], order + q2[|queue|..], done + 1)
    ensures |universe - space2.Keys| < |universe - space.Keys| || (space2.Keys == space.Keys && |q2[1..]| < |queue|)
  {
    assert queue[0] == order[done];
    var added := q2[|queue|..];
    forall i | 0 <= i < |added|
      ensures Step(ssp, order[done].1, added[i].1)
    {
      assert added[i] == q2[|queue| + i];
    }
    ExtendDepthOrder(ssp, s, maxDepth, order, done, added, space, space2);
    QueueAfterExpand(queue, order, done, q2);
    MarksAfterGrowth(ssp, maxDepth, order, added, space, space2, done);
    assert (order + added)[done] == order[done];
    MarkedBeforeNext(ssp, maxDepth, order + added, space2, done);
    HoldsAfterGrowth(order, added, queue[0].0 + 1, space, space2, done, done + 1);
    NewKeysFewerLeft(universe, space, space2, added);
  }

  /** Adding new states to the space leaves less of the universe outside
      it, unless nothing was added. */
  lemma NewKeysFewerLeft<S(!new)>(universe: set<S>, space: map<S, StateType>, space2: map<S, StateType>,
                                  added: seq<(nat, S)>)
    requires space2.Keys <= universe
    requires forall i :: 0 <= i < |added| ==> added[i].1 !in space
    requires forall x :: x in space2 <==> x in space || x in StatesOf(added)
    ensures |universe - space2.Keys| < |universe - space.Keys| || (space2.Keys == space.Keys && |added| == 0)
  {
    if |added| > 0 {
      assert StatesOf(added)[0] == added[0].1;
      LessLeft(universe, space.Keys, space2.Keys, added[0].1);
    } else {
      assert space2.Keys == space.Keys;
    }
  }

  /** The iteration of the search loop of `newMaxDepth` for a front entry
      at the maximum depth or at an original goal: it becomes fringe. */
  method FringeFront<S(==,!new), A(==,!new)>(s4p: ShortSightedSsp<S, A>, s: S, maxDepth: nat, ghost universe: set<S>,
                                            queue: seq<(nat, S)>, ghost order: seq<(nat, S)>, ghost done: nat)
    modifies s4p
    requires |queue| > 0 && (queue[0].0 == maxDepth || s4p.ssp.isGoal(queue[0].1))
    requires DepthInvariant(s4p.ssp, s, maxDepth, universe, s4p.ssHash, queue, order, done)
    ensures DepthInvariant(s4p.ssp, s, maxDepth, universe, s4p.ssHash, queue[1..], order, done + 1)
    ensures s4p.ssHash.Keys == old(s4p.ssHash).Keys
  {
    FringeKeepsDepthInvariant(s4p.ssp, s, maxDepth, universe, s4p.ssHash, queue, order, done);
    var _ := s4p.SetAsFringe(queue[0].1);
  }

  /** The iteration of the search loop of `newMaxDepth` for any other front
      entry: it is expanded and its new successors are pushed. */
  method ExpandFront<S(==,!new), A(==,!new)>(s4p: ShortSightedSsp<S, A>, s: S, maxDepth: nat, ghost universe: set<S>,
                                            queue: seq<(nat, S)>, ghost order: seq<(nat, S)>, ghost done: nat)
    returns (queue': seq<(nat, S)>, ghost order': seq<(nat, S)>)
    modifies s4p
    requires ClosedUnderSteps(s4p.ssp, universe)
    requires |queue| > 0 && !(queue[0].0 == maxDepth || s4p.ssp.isGoal(queue[0].1))
    requires DepthInvariant(s4p.ssp, s, maxDepth, universe, s4p.ssHash, queue, order, done)
    ensures DepthInvariant(s4p.ssp, s, maxDepth, universe, s4p.ssHash, queue', order', done + 1)
    ensures |universe - s4p.ssHash.Keys| < |universe - old(s4p.ssHash).Keys| ||
            (s4p.ssHash.Keys == old(s4p.ssHash).Keys && |queue'| < |queue|)
  {
    ghost var space := s4p.ssHash;
    var (d, cur) := queue[0];
    assert queue[0] == order[done] && StatesOf(order)[done] == cur;
    var q2 := ExpandAtDepth(s4p, cur, d, queue, universe);
    ExpandKeepsDepthInvariant(s4p.ssp, s, maxDepth, universe, space, queue, order, done, s4p.ssHash, q2);
    queue', order' := q2[1..], order + q2[|queue|..];
  }

  /** One iteration of the search loop of `newMaxDepth`. */
  method VisitAtDepth<S(==,!new), A(==,!new)>(s4p: ShortSightedSsp<S, A>, s: S, maxDepth: nat, ghost universe: set<S>,
                                             queue: seq<(nat, S)>, ghost order: seq<(nat, S)>, ghost done: nat)
    returns (queue': seq<(nat, S)>, ghost order': seq<(nat, S)>, ghost done': nat)
    modifies s4p
    requires ClosedUnderSteps(s4p.ssp, universe) && |queue| > 0
    requires DepthInvariant(s4p.ssp, s, maxDepth, universe, s4p.ssHash, queue, order, done)
    ensures DepthInvariant(s4p.ssp, s, maxDepth, universe, s4p.ssHash, queue', order', done')
    ensures |universe - s4p.ssHash.Keys| < |universe - old(s4p.ssHash).Keys| ||
            (s4p.ssHash.Keys == old(s4p.ssHash).Keys && |queue'| < |queue|)
  {
    if queue[0].0 == maxDepth || s4p.ssp.isGoal(queue[0].1) {
      FringeFront(s4p, s, maxDepth, universe, queue, order, done);
      queue', order' := queue[1..], order;
    } else {
      queue', order' := ExpandFront(s4p, s, maxDepth, universe, queue, order, done);
    }
    done' := done + 1;
  }

  /** The search loop of `newMaxDepth`, from the space holding just `s`:
      it stops when the queue is empty or, with a positive `maxSpaceSize`,
      when the space holds more states than that. */
  method SearchAtDepth<S(==,!new), A(==,!new)>(s4p: ShortSightedSsp<S, A>, s: S, maxDepth: nat,
                                              maxSpaceSize: nat, ghost universe: set<S>)
    returns (queue: seq<(nat, S)>, ghost order: seq<(nat, S)>, ghost done: nat)
    modifies s4p
    requires s in universe && ClosedUnderSteps(s4p.ssp, universe)
    requires s4p.ssHash == map[s := Internal]
    ensures DepthInvariant(s4p.ssp, s, maxDepth, universe, s4p.ssHash, queue, order, done)
    ensures done > 0
    ensures maxSpaceSize == 0 ==> |queue| == 0 && done == |order|
  {
    queue := [(0, s)];
    order := [(0, s)];
    done := 0;
    assert StatesOf(order) == [s];
    assert |s4p.ssHash| == 1 by {
      assert s4p.ssHash.Keys == {s};
    }
    while |queue| > 0
      invariant DepthInvariant(s4p.ssp, s, maxDepth, universe, s4p.ssHash, queue, order, done)
      invariant done == 0 ==> s4p.TotalStates() == 1 && |queue| > 0
      decreases |universe - s4p.ssHash.Keys|, |queue|
    {
      if maxSpaceSize > 0 && s4p.TotalStates() > maxSpaceSize {
        break;
      }
      queue, order, done := VisitAtDepth(s4p, s, maxDepth, universe, queue, order, done);
    }
  }

  /** The invariant of the loop that marks the entries left on the queue
      when the search is cut off: processed entries before `cut` are
      marked, the ones from `cut` up to `done` have become fringe, and the
      rest are still internal. */
  ghost predicate TailInvariant<S(!new), A(!new)>(ssp: Ssp<S, A>, s: S, maxDepth: nat, universe: set<S>,
                                                  space: map<S, StateType>, queue: seq<(nat, S)>,
                                                  order: seq<(nat, S)>, cut: nat, done: nat) {
    && DepthOrder(ssp, s, maxDepth, order)
    && 0 < cut <= done <= |order| && queue == order[done..]
    && SpaceOf(space, order, universe)
    && MarkedBefore(ssp, maxDepth, order, space, cut)
    && Holds(order, space, cut, done, Fringe)
    && Holds(order, space, done, |order|, Internal)
  }

  /** Marking the front of the remaining queue as fringe keeps the tail
      invariant. */
  lemma FringeKeepsTailInvariant<S(!new), A(!new)>(ssp: Ssp<S, A>, s: S, maxDepth: nat, universe: set<S>,
                                                   space: map<S, StateType>, queue: seq<(nat, S)>,
                                                   order: seq<(nat, S)>, cut: nat, done: nat)
    requires |queue| > 0 && TailInvariant(ssp, s, maxDepth, universe, space, queue, order, cut, done)
    ensures queue[0].1 in space
    ensures TailInvariant(ssp, s, maxDepth, universe, space[queue[0].1 := Fringe], queue[1..], order, cut, done + 1)
  {
    assert queue[0] == order[done];
    var x := order[done].1;
    var space' := space[x := Fringe];
    assert space'.Keys == space.Keys;
    MarksAfterFringe(ssp, maxDepth, order, space, done, cut);
    HoldsAfterFringe(order, space, done, cut, cut, done, Fringe);
    HoldsAfterFringe(order, space, done, done, done + 1, |order|, Internal);
    SliceOfSlice(order, done);
  }

  /** The loop that makes the entries left on the queue fringe states. */
  method MarkQueuedFringe<S(==,!new), A(==,!new)>(s4p: ShortSightedSsp<S, A>, s: S, maxDepth: nat,
                                                 ghost universe: set<S>, queue: seq<(nat, S)>,
                                                 ghost order: seq<(nat, S)>, ghost done: nat)
    modifies s4p
    requires DepthInvariant(s4p.ssp, s, maxDepth, universe, s4p.ssHash, queue, order, done) && done > 0
    ensures TailInvariant(s4p.ssp, s, maxDepth, universe, s4p.ssHash, [], order, done, |order|)
  {
    ghost var cut := done;
    var q := queue;
    ghost var k := done;
    while |q| > 0
      invariant TailInvariant(s4p.ssp, s, maxDepth, universe, s4p.ssHash, q, order, cut, k)
    {
      FringeKeepsTailInvariant(s4p.ssp, s, maxDepth, universe, s4p.ssHash, q, order, cut, k);
      var _ := s4p.SetAsFringe(q[0].1);
      q := q[1..];
      k := k + 1;
    }
  }

  /** What the finished construction satisfies: the initial state is in
      the space; original goals are fringe; internal states are not goals,
      lie less than `maxDepth` deep and have all their successors in the
      space; the initial state is fringe exactly when `maxDepth` is 0 or it
      is an original goal; and when nothing was cut off, every fringe state
      is an original goal or lies at depth `maxDepth`. */
  lemma DepthSearchDone<S(!new), A(!new)>(ssp: Ssp<S, A>, s: S, maxDepth: nat, universe: set<S>,
                                          space: map<S, StateType>, order: seq<(nat, S)>, cut: nat)
    requires TailInvariant(ssp, s, maxDepth, universe, space, [], order, cut, |order|)
    ensures s in space && space.Keys <= universe
    ensures forall t :: t in space && ssp.isGoal(t) ==> space[t] == Fringe
    ensures forall t :: t in space && space[t] == Internal ==> !ssp.isGoal(t) && Expanded(ssp, t, space.Keys)
    ensures space[s] == Fringe <==> maxDepth == 0 || ssp.isGoal(s)
    ensures forall i :: 0 <= i < |order| && space[order[i].1] == Internal ==> order[i].0 < maxDepth
    ensures cut == |order| ==>
      forall i :: 0 <= i < |order| && space[order[i].1] == Fringe ==> order[i].0 == maxDepth || ssp.isGoal(order[i].1)
  {
    var st := StatesOf(order);
    assert st[0] == s;
    assert Marked(ssp, maxDepth, order[0], space);
    forall t | t in space
      ensures (ssp.isGoal(t) ==> space[t] == Fringe)
      ensures (space[t] == Internal ==> !ssp.isGoal(t) && Expanded(ssp, t, space.Keys))
    {
      var i :| 0 <= i < |st| && st[i] == t;
      if i < cut {
        assert Marked(ssp, maxDepth, order[i], space);
      }
    }
    forall i | 0 <= i < |order| && space[order[i].1] == Internal
      ensures order[i].0 < maxDepth
    {
      assert st[i] == order[i].1;
      if i < cut {
        assert Marked(ssp, maxDepth, order[i], space);
      }
    }
    if cut == |order| {
      forall i | 0 <= i < |order| && space[order[i].1] == Fringe
        ensures order[i].0 == maxDepth || ssp.isGoal(order[i].1)
      {
        assert Marked(ssp, maxDepth, order[i], space);
      }
    }
  }

  /** `newMaxDepth(ssp, s, v, max_depth, max_space_size)`: the
      short-sighted SSP of the states within `maxDepth` steps of `s`, found
      breadth-first and cut off when the space holds more than
      `maxSpaceSize` states (0 means no limit). The entries left on the
      queue by a cut-off become fringe states. `order` lists the
      (depth, state) entries in the order they were pushed. */
  method NewMaxDepth<S(==,!new), A(==,!new)>(ssp: Ssp<S, A>, s: S, v: map<S, real>, heuristic: S -> real,
                                            maxDepth: nat, maxSpaceSize: nat, ghost universe: set<S>)
    returns (s4p: ShortSightedSsp<S, A>, ghost order: seq<(nat, S)>)
    requires s in universe && ClosedUnderSteps(ssp, universe)
    ensures fresh(s4p) && s4p.ssp == ssp && s4p.s0 == s && s4p.v == v && s4p.heuristic == heuristic
    ensures s in s4p.ssHash && s4p.ssHash.Keys <= universe
    ensures s4p.OriginalGoalsAreGoals() && s4p.InternalSuccessorsInSpace()
    ensures s4p.S0NotArtificialGoal() <==> maxDepth > 0 || ssp.isGoal(s)
    ensures DepthOrder(ssp, s, maxDepth, order)
    ensures forall x :: x in s4p.ssHash <==> x in StatesOf(order)
    ensures forall i :: 0 <= i < |order| && s4p.ssHash[order[i].1] == Internal ==> order[i].0 < maxDepth
    ensures maxSpaceSize == 0 ==> forall i :: 0 <= i < |order| && s4p.ssHash[order[i].1] == Fringe ==>
      order[i].0 == maxDepth || ssp.isGoal(order[i].1)
  {
    s4p := new ShortSightedSsp(ssp, s, v, heuristic);
    var _ := s4p.InsertState(s);
    var queue;
    ghost var done;
    queue, order, done := SearchAtDepth(s4p, s, maxDepth, maxSpaceSize, universe);
    MarkQueuedFringe(s4p, s, maxDepth, universe, queue, order, done);
    DepthSearchDone(ssp, s, maxDepth, universe, s4p.ssHash, order, done);
  }
}
