/** The grounded effects of `actions.h`: strips effects, conditional
    effects, deterministic and probabilistic effects, the two effect lists
    with their growing pointer arrays, and `ProbDistOfAddingAnAtom`.

    An atom list is its sorted sequence of atoms; an `atomListList_t`
    condition is a sequence of such lists read as a disjunction of
    conjunctions; a state is its sequence of words. `Rational` costs and
    probabilities are exact reals. An effect list held inside another
    effect is the sequence of its members.
*/
module EffectLists {
  import opened AtomLists
  import opened AtomStates

  /** `ACTION_COST`: the index of the action cost among the cost entries. */
  const ActionCost: nat := 0

  /** `stripsEffect_t`: the add list, the delete list and one cost entry
      per function of the domain. */
  datatype StripsEffect = StripsEffect(add: seq<Atom>, del: seq<Atom>, cost: seq<real>)

  /** `conditionalEffect_t`: a condition and the strips effect it guards. */
  datatype CondEffect = CondEffect(prec: seq<seq<Atom>>, effect: StripsEffect)

  /** `deterministicEffect_t`: a strips effect and a list of conditional
      effects. */
  datatype DetEffect = DetEffect(strips: StripsEffect, conds: seq<CondEffect>)

  /** `probabilisticEffect_t`: a deterministic effect and its probability. */
  datatype ProbEffect = ProbEffect(prob: real, det: DetEffect)

  // ---------------------------------------------------------------------
  // Equality, as the `operator==` of each class sees it
  // ---------------------------------------------------------------------

  /** `atomListList_t::find`: some member holds the same atoms as `l`. */
  predicate DnfHas(p: seq<seq<Atom>>, l: seq<Atom>) {
    exists j :: 0 <= j < |p| && SameAtoms(p[j], l)
  }

  /** `atomListList_t::operator==`: every member of each has an equal
      member in the other. */
  predicate DnfEq(p: seq<seq<Atom>>, q: seq<seq<Atom>>) {
    (forall i :: 0 <= i < |p| ==> DnfHas(q, p[i])) &&
    (forall j :: 0 <= j < |q| ==> DnfHas(p, q[j]))
  }

  /** `stripsEffect_t::operator==`: the same add atoms, the same delete
      atoms and the same cost vector. */
  predicate StripsEq(a: StripsEffect, b: StripsEffect) {
    SameAtoms(a.add, b.add) && SameAtoms(a.del, b.del) && a.cost == b.cost
  }

  /** `conditionalEffect_t::operator==`. */
  predicate CondEq(a: CondEffect, b: CondEffect) {
    DnfEq(a.prec, b.prec) && StripsEq(a.effect, b.effect)
  }

  /** `conditionalEffectList_t::find`. */
  predicate HasCond(cs: seq<CondEffect>, c: CondEffect) {
    exists i :: 0 <= i < |cs| && CondEq(cs[i], c)
  }

  /** `conditionalEffectList_t::operator==`: mutual containment. */
  predicate CondListEq(cs: seq<CondEffect>, ds: seq<CondEffect>) {
    (forall i :: 0 <= i < |cs| ==> HasCond(ds, cs[i])) &&
    (forall j :: 0 <= j < |ds| ==> HasCond(cs, ds[j]))
  }

  /** `deterministicEffect_t::operator==`, which `probabilisticEffect_t`
      also uses: the probability is not compared. */
  predicate DetEq(a: DetEffect, b: DetEffect) {
    StripsEq(a.strips, b.strips) && CondListEq(a.conds, b.conds)
  }

  /** Every one of these equalities holds between an effect and itself. */
  lemma CondEqReflexive(c: CondEffect)
    ensures CondEq(c, c)
  {
    forall i | 0 <= i < |c.prec|
      ensures DnfHas(c.prec, c.prec[i])
    {
      assert SameAtoms(c.prec[i], c.prec[i]);
    }
  }

  lemma DetEqReflexive(d: DetEffect)
    ensures DetEq(d, d)
  {
    forall i | 0 <= i < |d.conds|
      ensures HasCond(d.conds, d.conds[i])
    {
      CondEqReflexive(d.conds[i]);
    }
  }

  // ---------------------------------------------------------------------
  // Conditions evaluated on a state
  // ---------------------------------------------------------------------

  /** `atomListList_t::holds(state, nprec)`: some member list holds; an
      empty condition never holds. */
  predicate DnfHolds(ws: seq<bv32>, p: seq<seq<Atom>>, nprec: bool) {
    exists i :: 0 <= i < |p| && StateListHolds(ws, p[i], nprec)
  }

  // ---------------------------------------------------------------------
  // stripsEffect_t: empty, set_cost, increase_cost_by
  // ---------------------------------------------------------------------

  /** Nothing is added, nothing deleted and every cost entry is zero. */
  predicate NoOp(e: StripsEffect) {
    |e.add| == 0 && |e.del| == 0 && forall i :: 0 <= i < |e.cost| ==> e.cost[i] == 0.0
  }

  /** `stripsEffect_t::empty()`: the list sizes, then a loop over the cost
      entries that stops at the first non-zero one. */
  method StripsEmpty(e: StripsEffect) returns (b: bool)
    ensures b <==> NoOp(e)
  {
    if |e.add| > 0 || |e.del| > 0 {
      return false;
    }
    var i := 0;
    while i < |e.cost|
      invariant i <= |e.cost|
      invariant forall k :: 0 <= k < i ==> e.cost[k] == 0.0
    {
      if e.cost[i] != 0.0 {
        return false;
      }
      i := i + 1;
    }
    return true;
  }

  /** `set_cost(c, idx)`: with `use_action_cost` (a parameter here) entry
      `idx` becomes `c`; the lists and every other entry are kept. */
  function SetCost(e: StripsEffect, c: real, idx: nat, useActionCost: bool): (r: StripsEffect)
    requires idx < |e.cost|
    ensures r.add == e.add && r.del == e.del && |r.cost| == |e.cost|
    ensures forall k :: 0 <= k < |e.cost| && k != idx ==> r.cost[k] == e.cost[k]
    ensures r.cost[idx] == if useActionCost then c else e.cost[idx]
  {
    if useActionCost then e.(cost := e.cost[idx := c]) else e
  }

  /** `increase_cost_by(c, idx)`: as `set_cost`, adding `c` to the entry. */
  function IncreaseCostBy(e: StripsEffect, c: real, idx: nat, useActionCost: bool): (r: StripsEffect)
    requires idx < |e.cost|
    ensures r.add == e.add && r.del == e.del && |r.cost| == |e.cost|
    ensures forall k :: 0 <= k < |e.cost| && k != idx ==> r.cost[k] == e.cost[k]
    ensures r.cost[idx] == if useActionCost then e.cost[idx] + c else e.cost[idx]
  {
    if useActionCost then e.(cost := e.cost[idx := e.cost[idx] + c]) else e
  }

  /** Raising a cost by `c` is setting it to the old entry plus `c`. */
  lemma IncreaseIsSetOfSum(e: StripsEffect, c: real, idx: nat, useActionCost: bool)
    requires idx < |e.cost|
    ensures IncreaseCostBy(e, c, idx, useActionCost) == SetCost(e, e.cost[idx] + c, idx, useActionCost)
  {
  }

  // ---------------------------------------------------------------------
  // conditionalEffectList_t
  // ---------------------------------------------------------------------

  /** The members after `insert(c)`: appended only when no equal effect is
      present. */
  function CondInserted(cs: seq<CondEffect>, c: CondEffect): seq<CondEffect> {
    if HasCond(cs, c) then cs else cs + [c]
  }

  /** After `insert(c)` the list has a member equal to `c`, keeps every
      earlier member in place and grows by at most one. */
  lemma CondInsertedMeaning(cs: seq<CondEffect>, c: CondEffect)
    ensures HasCond(CondInserted(cs, c), c)
    ensures CondInserted(cs, c)[..|cs|] == cs
    ensures |CondInserted(cs, c)| == if HasCond(cs, c) then |cs| else |cs| + 1
  {
    if !HasCond(cs, c) {
      CondEqReflexive(c);
      assert CondEq(CondInserted(cs, c)[|cs|], c);
    }
  }

  /** `conditionalEffectList_t`: `size_` slots of which the first
      `data_ptr_ - data_` are in use. */
  class CondEffectList {
    var data: array<CondEffect>
    var count: nat

    ghost predicate Valid()
      reads this
    {
      count <= data.Length
    }

    /** The members `effect(0)`, ..., `effect(size() - 1)`. */
    function Contents(): seq<CondEffect>
      reads this, data
      requires Valid()
    {
      data[..count]
    }

    /** The empty list, with no buffer. */
    constructor ()
      ensures Valid() && Contents() == [] && data.Length == 0
    {
      data := new CondEffect[0];
      count := 0;
    }

    /** `find(eff)`: a member equal to `eff`. */
    method Find(c: CondEffect) returns (found: bool)
      requires Valid()
      ensures found <==> HasCond(Contents(), c)
    {
      var i := 0;
      while i < count
        invariant i <= count
        invariant forall k :: 0 <= k < i ==> !CondEq(data[k], c)
      {
        if CondEq(data[i], c) {
          assert CondEq(Contents()[i], c);
          return true;
        }
        i := i + 1;
      }
      assert forall k :: 0 <= k < count ==> Contents()[k] == data[k];
      return false;
    }

    /** The `realloc` of a full buffer: one slot for a null buffer, twice
        the size otherwise, the members kept. */
    method Grow()
      requires Valid()
      modifies this
      ensures Valid() && fresh(data) && data.Length == NextCapacity(old(data.Length))
      ensures count == old(count) && Contents() == old(Contents())
    {
      var buf := new CondEffect[NextCapacity(data.Length)](_ => CondEffect([], StripsEffect([], [], [])));
      var i := 0;
      while i < count
        invariant i <= count
        invariant buf[..i] == data[..i]
        modifies buf
      {
        buf[i] := data[i];
        i := i + 1;
      }
      data := buf;
    }

    /** `insert(effect)`: appends when no equal member is present, growing
        a full buffer first. */
    method Insert(c: CondEffect)
      requires Valid()
      modifies this, data
      ensures Valid()
      ensures Contents() == CondInserted(old(Contents()), c)
      ensures data.Length == if !HasCond(old(Contents()), c) && old(count) == old(data.Length)
        then NextCapacity(old(data.Length)) else old(data.Length)
    {
      var found := Find(c);
      if !found {
        if count == data.Length {
          Grow();
        }
        data[count] := c;
        count := count + 1;
        assert Contents() == old(Contents()) + [c];
      }
    }

    /** `clear()`: the count goes back to 0; the buffer is kept. */
    method Clear()
      requires Valid()
      modifies this
      ensures Valid() && Contents() == [] && data == old(data)
    {
      count := 0;
    }
  }

  // ---------------------------------------------------------------------
  // probabilisticEffectList_t
  // ---------------------------------------------------------------------

  /** The position of the first member equal to `e` (`|ps|` when there is
      none): where the loop of `insert` stops. */
  function FirstEqual(ps: seq<ProbEffect>, e: ProbEffect): (i: nat)
    ensures i <= |ps|
    ensures forall k :: 0 <= k < i ==> !DetEq(ps[k].det, e.det)
    ensures i < |ps| ==> DetEq(ps[i].det, e.det)
  {
    if |ps| == 0 then 0
    else if DetEq(ps[0].det, e.det) then 0
    else 1 + FirstEqual(ps[1..], e)
  }

  /** The members after `insert(eff)`: a new effect is appended; an effect
      equal to a member adds its probability to that member. */
  function ProbInserted(ps: seq<ProbEffect>, e: ProbEffect): seq<ProbEffect> {
    var i := FirstEqual(ps, e);
    if i == |ps| then ps + [e] else ps[i := ps[i].(prob := ps[i].prob + e.prob)]
  }

  /** The probability mass of a list. */
  function TotalProb(ps: seq<ProbEffect>): real {
    if |ps| == 0 then 0.0 else ps[0].prob + TotalProb(ps[1..])
  }

  /** Every member has a cost entry `idx`. */
  predicate CostIndexOk(ps: seq<ProbEffect>, idx: nat) {
    forall i :: 0 <= i < |ps| ==> idx < |ps[i].det.strips.cost|
  }

  /** `cost(idx)`: the sum of probability times cost entry. */
  function ExpectedCost(ps: seq<ProbEffect>, idx: nat): real
    requires CostIndexOk(ps, idx)
  {
    if |ps| == 0 then 0.0
    else ps[0].prob * ps[0].det.strips.cost[idx] + ExpectedCost(ps[1..], idx)
  }

  lemma {:induction false} TotalProbAppend(ps: seq<ProbEffect>, e: ProbEffect)
    ensures TotalProb(ps + [e]) == TotalProb(ps) + e.prob
    decreases |ps|
  {
    if |ps| == 0 {
      assert ps + [e] == [e];
      assert [e][1..] == [];
    } else {
      assert (ps + [e])[1..] == ps[1..] + [e];
      TotalProbAppend(ps[1..], e);
    }
  }

  lemma {:induction false} TotalProbUpdate(ps: seq<ProbEffect>, i: nat, x: ProbEffect)
    requires i < |ps|
    ensures TotalProb(ps[i := x]) == TotalProb(ps) - ps[i].prob + x.prob
    decreases |ps|
  {
    if i > 0 {
      assert ps[i := x][1..] == ps[1..][i - 1 := x];
      TotalProbUpdate(ps[1..], i - 1, x);
    } else {
      assert ps[i := x][1..] == ps[1..];
    }
  }

  lemma {:induction false} ExpectedCostAppend(ps: seq<ProbEffect>, e: ProbEffect, idx: nat)
    requires CostIndexOk(ps, idx) && idx < |e.det.strips.cost|
    ensures CostIndexOk(ps + [e], idx)
    ensures ExpectedCost(ps + [e], idx) == ExpectedCost(ps, idx) + e.prob * e.det.strips.cost[idx]
    decreases |ps|
  {
    assert forall k :: 0 <= k < |ps| ==> (ps + [e])[k] == ps[k];
    if |ps| == 0 {
      assert ps + [e] == [e];
      assert [e][1..] == [];
    } else {
      assert (ps + [e])[1..] == ps[1..] + [e];
      assert forall k :: 0 <= k < |ps[1..]| ==> ps[1..][k] == ps[k + 1];
      ExpectedCostAppend(ps[1..], e, idx);
    }
  }

  lemma {:induction false} ExpectedCostUpdate(ps: seq<ProbEffect>, i: nat, x: ProbEffect, idx: nat)
    requires i < |ps| && CostIndexOk(ps, idx) && idx < |x.det.strips.cost|
    ensures CostIndexOk(ps[i := x], idx)
    ensures ExpectedCost(ps[i := x], idx) ==
      ExpectedCost(ps, idx) - ps[i].prob * ps[i].det.strips.cost[idx] + x.prob * x.det.strips.cost[idx]
    decreases |ps|
  {
    assert forall k :: 0 <= k < |ps| && k != i ==> ps[i := x][k] == ps[k];
    assert forall k :: 0 <= k < |ps[1..]| ==> ps[1..][k] == ps[k + 1];
    if i > 0 {
      assert ps[i := x][1..] == ps[1..][i - 1 := x];
      ExpectedCostUpdate(ps[1..], i - 1, x, idx);
    } else {
      assert ps[i := x][1..] == ps[1..];
    }
  }

  /** `insert` adds the new effect's probability to the list's mass and
      its weighted cost to the expected cost, whether it is appended or
      merged into an equal member (equal members have equal costs). */
  lemma ProbInsertedTotals(ps: seq<ProbEffect>, e: ProbEffect, idx: nat)
    requires CostIndexOk(ps, idx) && idx < |e.det.strips.cost|
    ensures TotalProb(ProbInserted(ps, e)) == TotalProb(ps) + e.prob
    ensures CostIndexOk(ProbInserted(ps, e), idx)
    ensures ExpectedCost(ProbInserted(ps, e), idx) == ExpectedCost(ps, idx) + e.prob * e.det.strips.cost[idx]
  {
    var i := FirstEqual(ps, e);
    if i == |ps| {
      TotalProbAppend(ps, e);
      ExpectedCostAppend(ps, e, idx);
    } else {
      var x := ps[i].(prob := ps[i].prob + e.prob);
      TotalProbUpdate(ps, i, x);
      ExpectedCostUpdate(ps, i, x, idx);
      assert ps[i].det.strips.cost == e.det.strips.cost;
    }
  }

  /** `insert` adds the new effect's probability to the list's mass. */
  lemma ProbInsertedMass(ps: seq<ProbEffect>, e: ProbEffect)
    ensures TotalProb(ProbInserted(ps, e)) == TotalProb(ps) + e.prob
  {
    var i := FirstEqual(ps, e);
    if i == |ps| {
      TotalProbAppend(ps, e);
    } else {
      TotalProbUpdate(ps, i, ps[i].(prob := ps[i].prob + e.prob));
    }
  }

  /** A list built by `insert` never holds two equal effects' worth of
      entries for one effect: the inserted effect sits at the position the
      lookup found, or at the end. */
  lemma ProbInsertedShape(ps: seq<ProbEffect>, e: ProbEffect)
    ensures var i := FirstEqual(ps, e);
      |ProbInserted(ps, e)| == (if i == |ps| then |ps| + 1 else |ps|) &&
      (forall k :: 0 <= k < |ps| && k != i ==> ProbInserted(ps, e)[k] == ps[k]) &&
      DetEq(ProbInserted(ps, e)[i].det, e.det)
  {
    var i := FirstEqual(ps, e);
    if i == |ps| {
      DetEqReflexive(e.det);
    }
  }

  /** `probabilisticEffectList_t`: `size_` slots of which the first
      `data_ptr_ - data_` are in use. */
  class ProbEffectList {
    var data: array<ProbEffect>
    var count: nat

    ghost predicate Valid()
      reads this
    {
      count <= data.Length
    }

    function Contents(): seq<ProbEffect>
      reads this, data
      requires Valid()
    {
      data[..count]
    }

    constructor ()
      ensures Valid() && Contents() == [] && data.Length == 0
    {
      data := new ProbEffect[0];
      count := 0;
    }

    /** `find(eff)`. */
    method Find(e: ProbEffect) returns (found: bool)
      requires Valid()
      ensures found <==> FirstEqual(Contents(), e) < count
    {
      var i := Lookup(e);
      found := i < count;
    }

    /** The loop of `insert`: the first member equal to `e`, or `size()`. */
    method Lookup(e: ProbEffect) returns (i: nat)
      requires Valid()
      ensures i == FirstEqual(Contents(), e)
    {
      i := 0;
      while i < count
        invariant i <= count
        invariant forall k :: 0 <= k < i ==> !DetEq(data[k].det, e.det)
      {
        if DetEq(data[i].det, e.det) {
          break;
        }
        i := i + 1;
      }
      FirstEqualAt(Contents(), e, i);
    }

    /** The `realloc` of a full buffer. */
    method Grow()
      requires Valid()
      modifies this
      ensures Valid() && fresh(data) && data.Length == NextCapacity(old(data.Length))
      ensures count == old(count) && Contents() == old(Contents())
    {
      var buf := new ProbEffect[NextCapacity(data.Length)](_ => ProbEffect(0.0, DetEffect(StripsEffect([], [], []), [])));
      var i := 0;
      while i < count
        invariant i <= count
        invariant buf[..i] == data[..i]
        modifies buf
      {
        buf[i] := data[i];
        i := i + 1;
      }
      data := buf;
    }

    /** `insert(eff)`: appends a new effect and answers `true`, or raises
        the probability of the equal member in place and answers `false`. */
    method Insert(e: ProbEffect) returns (appended: bool)
      requires Valid()
      modifies this, data
      ensures Valid()
      ensures appended <==> FirstEqual(old(Contents()), e) == old(count)
      ensures Contents() == ProbInserted(old(Contents()), e)
      ensures data == old(data) || fresh(data)
    {
      var i := Lookup(e);
      if i == count {
        if count == data.Length {
          Grow();
        }
        data[count] := e;
        count := count + 1;
        assert Contents() == old(Contents()) + [e];
        return true;
      }
      data[i] := data[i].(prob := data[i].prob + e.prob);
      assert Contents() == old(Contents())[i := old(Contents())[i].(prob := old(Contents())[i].prob + e.prob)];
      return false;
    }

    /** `cost(idx)`: the expected cost over the members. */
    method Cost(idx: nat) returns (c: real)
      requires Valid() && CostIndexOk(Contents(), idx)
      ensures c == ExpectedCost(Contents(), idx)
    {
      ghost var ps := Contents();
      c := 0.0;
      var i := count;
      // The sum is accumulated from the back so that each step extends the
      // specification by its first term.
      while i > 0
        invariant 0 <= i <= |ps|
        invariant CostIndexOk(ps[i..], idx)
        invariant c == ExpectedCost(ps[i..], idx)
      {
        i := i - 1;
        assert ps[i..][1..] == ps[i + 1..];
        assert ps[i] == data[i];
        c := data[i].prob * data[i].det.strips.cost[idx] + c;
      }
      assert ps[0..] == ps;
    }

    /** `clear()`. */
    method Clear()
      requires Valid()
      modifies this
      ensures Valid() && Contents() == [] && data == old(data)
    {
      count := 0;
    }
  }

  /** Where the lookup loop stopped is `FirstEqual`. */
  lemma FirstEqualAt(ps: seq<ProbEffect>, e: ProbEffect, i: nat)
    requires i <= |ps|
    requires forall k :: 0 <= k < i ==> !DetEq(ps[k].det, e.det)
    requires i < |ps| ==> DetEq(ps[i].det, e.det)
    ensures FirstEqual(ps, e) == i
  {
  }

  // ---------------------------------------------------------------------
  // ProbDistOfAddingAnAtom::prob_add_atom
  // ---------------------------------------------------------------------

  /** `ConditionAndRational`: a condition and the probability it adds. */
  datatype ConditionAndRational = ConditionAndRational(condition: seq<seq<Atom>>, r: real)

  /** `run_condition(s, nprec)`: the probability when the condition holds,
      `0` otherwise. */
  function RunCondition(c: ConditionAndRational, ws: seq<bv32>, nprec: bool): real {
    if DnfHolds(ws, c.condition, nprec) then c.r else 0.0
  }

  /** The sum of `run_condition` over a vector of conditions. */
  function CondSum(cs: seq<ConditionAndRational>, ws: seq<bv32>, nprec: bool): real {
    if |cs| == 0 then 0.0 else CondSum(cs[..|cs| - 1], ws, nprec) + RunCondition(cs[|cs| - 1], ws, nprec)
  }

  /** The plain sum of the conditions' probabilities. */
  function CondMass(cs: seq<ConditionAndRational>): real {
    if |cs| == 0 then 0.0 else CondMass(cs[..|cs| - 1]) + cs[|cs| - 1].r
  }

  /** With non-negative increments, the conditional part lies between 0
      and the total of all increments, reaching the total when every
      condition holds and 0 when none does. */
  lemma {:induction false} CondSumBounds(cs: seq<ConditionAndRational>, ws: seq<bv32>, nprec: bool)
    requires forall i :: 0 <= i < |cs| ==> cs[i].r >= 0.0
    ensures 0.0 <= CondSum(cs, ws, nprec) <= CondMass(cs)
    ensures (forall i :: 0 <= i < |cs| ==> DnfHolds(ws, cs[i].condition, nprec)) ==> CondSum(cs, ws, nprec) == CondMass(cs)
    ensures (forall i :: 0 <= i < |cs| ==> !DnfHolds(ws, cs[i].condition, nprec)) ==> CondSum(cs, ws, nprec) == 0.0
    decreases |cs|
  {
    if |cs| > 0 {
      var p := cs[..|cs| - 1];
      assert forall i :: 0 <= i < |p| ==> p[i] == cs[i];
      CondSumBounds(p, ws, nprec);
    }
  }

  /** `ProbDistOfAddingAnAtom`: the probability that an atom is added,
      split into the part no condition guards and, per atom, the guarded
      increments. */
  class AddingProbs {
    var hasCondEffects: bool
    var nonConditional: map<Atom, real>
    var conditional: map<Atom, seq<ConditionAndRational>>

    constructor ()
      ensures !hasCondEffects && nonConditional == map[] && conditional == map[]
    {
      hasCondEffects := false;
      nonConditional := map[];
      conditional := map[];
    }

    /** `prob_add_atom(atom, s, nprec)`: the unconditional probability
        (read with `operator[]`, which inserts a `0` entry for an unseen
        atom) plus, when there are conditional effects, the increment of
        every condition of the atom that holds in the state. */
    method ProbAddAtom(atom: Atom, ws: seq<bv32>, nprec: bool) returns (p: real)
      modifies this
      ensures hasCondEffects == old(hasCondEffects) && conditional == old(conditional)
      ensures nonConditional == old(nonConditional)[atom := if atom in old(nonConditional) then old(nonConditional)[atom] else 0.0]
      ensures p == nonConditional[atom] +
        (if hasCondEffects && atom in conditional then CondSum(conditional[atom], ws, nprec) else 0.0)
    {
      if atom !in nonConditional {
        nonConditional := nonConditional[atom := 0.0];
      } else {
        assert nonConditional == nonConditional[atom := nonConditional[atom]];
      }
      p := nonConditional[atom];
      if hasCondEffects && atom in conditional {
        var conds := conditional[atom];
        var i := 0;
        ghost var base := p;
        while i < |conds|
          invariant i <= |conds|
          invariant p == base + CondSum(conds[..i], ws, nprec)
        {
          assert conds[..i + 1][..i] == conds[..i];
          p := p + RunCondition(conds[i], ws, nprec);
          i := i + 1;
        }
        assert conds[..i] == conds;
      }
    }
  }
}
