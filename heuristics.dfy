/** The aggregation functors of the relaxed-plan heuristics (`h_max.h`,
    `h_add.h`) and the constant-value heuristics (`constant_value.h`).

    Costs are doubles in the solver; they are modelled as reals, so
    rounding is not modelled. The SSP a smart heuristic consults is given as
    the three answers it asks for.
*/
module Heuristics {
  import opened AtomLists

  /** Every atom indexes the cost table. */
  predicate InCosts(s: seq<Atom>, c: seq<real>) {
    forall i :: 0 <= i < |s| ==> s[i] < |c|
  }

  // ---------------------------------------------------------------------
  // MaxCostSetOfAtoms
  // ---------------------------------------------------------------------

  /** The running maximum of the loop, starting from 0. */
  function MaxCost(s: seq<Atom>, c: seq<real>): real
    requires InCosts(s, c)
    decreases |s|
  {
    if |s| == 0 then 0.0
    else
      var m := MaxCost(s[..|s| - 1], c);
      if c[s[|s| - 1]] > m then c[s[|s| - 1]] else m
  }

  /** The result is at least 0 and at least every listed cost, and it is 0
      or one of those costs; for an empty list it is 0. */
  lemma {:induction false} MaxCostMeaning(s: seq<Atom>, c: seq<real>)
    requires InCosts(s, c)
    ensures MaxCost(s, c) >= 0.0
    ensures forall i :: 0 <= i < |s| ==> MaxCost(s, c) >= c[s[i]]
    ensures MaxCost(s, c) == 0.0 || exists i :: 0 <= i < |s| && MaxCost(s, c) == c[s[i]]
    decreases |s|
  {
    if |s| > 0 {
      var init := s[..|s| - 1];
      MaxCostMeaning(init, c);
      assert forall i :: 0 <= i < |init| ==> init[i] == s[i];
    }
  }

  /** The result depends on the atoms and not on their order. */
  lemma MaxCostOrderFree(s: seq<Atom>, t: seq<Atom>, c: seq<real>)
    requires InCosts(s, c) && multiset(s) == multiset(t)
    ensures InCosts(t, c)
    ensures MaxCost(s, c) == MaxCost(t, c)
  {
    forall j | 0 <= j < |t|
      ensures t[j] < |c|
    {
      assert t[j] in multiset(s);
    }
    MaxCostMeaning(s, c);
    MaxCostMeaning(t, c);
    MaxBelow(s, t, c);
    MaxBelow(t, s, c);
  }

  /** The maximum over `s` is at most the maximum over a list with the
      same atoms. */
  lemma MaxBelow(s: seq<Atom>, t: seq<Atom>, c: seq<real>)
    requires InCosts(s, c) && InCosts(t, c) && multiset(s) == multiset(t)
    ensures MaxCost(s, c) <= MaxCost(t, c)
  {
    MaxCostMeaning(s, c);
    MaxCostMeaning(t, c);
    if MaxCost(s, c) != 0.0 {
      var i :| 0 <= i < |s| && MaxCost(s, c) == c[s[i]];
      assert s[i] in multiset(t);
      var j :| 0 <= j < |t| && t[j] == s[i];
    }
  }

  /** `MaxCostSetOfAtoms::operator()`. */
  method MaxCostSetOfAtoms(atoms: AtomList, atomCost: array<real>) returns (cost: real)
    requires atoms.Valid() && InCosts(atoms.Contents(), atomCost[..])
    ensures cost == MaxCost(atoms.Contents(), atomCost[..])
  {
    ghost var s := atoms.Contents();
    cost := 0.0;
    var i := 0;
    while i < atoms.count
      invariant 0 <= i <= atoms.count
      invariant cost == MaxCost(s[..i], atomCost[..])
    {
      var a := atoms.data[i];
      assert s[..i + 1][..i] == s[..i];
      if atomCost[a] > cost {
        cost := atomCost[a];
      }
      i := i + 1;
    }
    assert s[..i] == s;
  }

  // ---------------------------------------------------------------------
  // SumCostSetOfAtoms
  // ---------------------------------------------------------------------

  /** The running sum of the loop, starting from 0. */
  function SumCost(s: seq<Atom>, c: seq<real>): real
    requires InCosts(s, c)
    decreases |s|
  {
    if |s| == 0 then 0.0 else SumCost(s[..|s| - 1], c) + c[s[|s| - 1]]
  }

  /** The sum over a concatenation is the sum of the sums; in particular
      appending an atom adds exactly its cost. */
  lemma {:induction false} SumCostConcat(s: seq<Atom>, t: seq<Atom>, c: seq<real>)
    requires InCosts(s, c) && InCosts(t, c)
    ensures InCosts(s + t, c)
    ensures SumCost(s + t, c) == SumCost(s, c) + SumCost(t, c)
    decreases |t|
  {
    assert forall i :: 0 <= i < |s + t| ==> (s + t)[i] == if i < |s| then s[i] else t[i - |s|];
    if |t| > 0 {
      var u := t[..|t| - 1];
      assert (s + t)[..|s + t| - 1] == s + u;
      SumCostConcat(s, u, c);
    } else {
      assert s + t == s;
    }
  }

  /** A list with the same atoms as one within the cost table is within it. */
  lemma InCostsPermuted(s: seq<Atom>, t: seq<Atom>, c: seq<real>)
    requires InCosts(s, c) && multiset(s) == multiset(t)
    ensures InCosts(t, c)
  {
    forall j | 0 <= j < |t|
      ensures t[j] < |c|
    {
      assert t[j] in multiset(s);
    }
  }

  /** Taking out the atom at `k` takes its cost out of the sum. */
  lemma SumCostWithout(t: seq<Atom>, k: nat, c: seq<real>)
    requires InCosts(t, c) && k < |t|
    ensures InCosts(t[..k] + t[k + 1..], c)
    ensures multiset(t[..k] + t[k + 1..]) == multiset(t) - multiset{t[k]}
    ensures SumCost(t, c) == SumCost(t[..k] + t[k + 1..], c) + c[t[k]]
  {
    assert t == t[..k] + [t[k]] + t[k + 1..];
    assert t == t[..k] + ([t[k]] + t[k + 1..]);
    SumCostConcat(t[..k], [t[k]] + t[k + 1..], c);
    SumCostConcat([t[k]], t[k + 1..], c);
    SumCostConcat(t[..k], t[k + 1..], c);
    assert SumCost([t[k]], c) == c[t[k]] by {
      assert [t[k]][..0] == [];
    }
  }

  /** The sum does not depend on the order of the atoms. */
  lemma {:induction false} SumCostOrderFree(s: seq<Atom>, t: seq<Atom>, c: seq<real>)
    requires InCosts(s, c) && multiset(s) == multiset(t)
    ensures InCosts(t, c)
    ensures SumCost(s, c) == SumCost(t, c)
    decreases |s|
  {
    InCostsPermuted(s, t, c);
    if |s| > 0 {
      var init, a := s[..|s| - 1], s[|s| - 1];
      assert s == init + [a];
      assert a in multiset(t);
      var k :| 0 <= k < |t| && t[k] == a;
      SumCostWithout(t, k, c);
      assert multiset(s) == multiset(init) + multiset{a};
      SumCostOrderFree(init, t[..k] + t[k + 1..], c);
    }
  }

  /** With non-negative costs, h-add is at least h-max. */
  lemma {:induction false} SumCostAtLeastMaxCost(s: seq<Atom>, c: seq<real>)
    requires InCosts(s, c)
    requires forall a :: 0 <= a < |c| ==> c[a] >= 0.0
    ensures SumCost(s, c) >= MaxCost(s, c)
    ensures SumCost(s, c) >= 0.0
    decreases |s|
  {
    if |s| > 0 {
      var init := s[..|s| - 1];
      assert forall i :: 0 <= i < |init| ==> init[i] == s[i];
      SumCostAtLeastMaxCost(init, c);
    }
  }

  /** `SumCostSetOfAtoms::operator()`. */
  method SumCostSetOfAtoms(atoms: AtomList, atomCost: array<real>) returns (cost: real)
    requires atoms.Valid() && InCosts(atoms.Contents(), atomCost[..])
    ensures cost == SumCost(atoms.Contents(), atomCost[..])
  {
    ghost var s := atoms.Contents();
    cost := 0.0;
    var i := 0;
    while i < atoms.count
      invariant 0 <= i <= atoms.count
      invariant cost == SumCost(s[..i], atomCost[..])
    {
      var a := atoms.data[i];
      assert s[..i + 1][..i] == s[..i];
      cost := cost + atomCost[a];
      i := i + 1;
    }
    assert s[..i] == s;
  }

  // ---------------------------------------------------------------------
  // Constant-value heuristics
  // ---------------------------------------------------------------------

  /** What a smart heuristic asks the SSP about a state. */
  datatype SspAnswers = SspAnswers(isGoal: bool, terminalCost: real, hasApplicableActions: bool)

  /** The heuristics of `constant_value.h`: `ZeroHeuristic` is a constant
      heuristic of 0 and `SmartZeroHeuristic` a smart one of 0. */
  datatype ConstantHeuristic = ConstantValue(value: real) | SmartConstantValue(value: real)

  const Zero := ConstantValue(0.0)
  const SmartZero := SmartConstantValue(0.0)

  /** `computeValue(s)`, with the SSP's answers about `s` and the global
      dead-end value. */
  function ComputeValue(h: ConstantHeuristic, ssp: SspAnswers, deadEnd: real): (v: real)
    ensures h.ConstantValue? ==> v == h.value
  {
    match h
    case ConstantValue(value) => value
    case SmartConstantValue(value) =>
      if ssp.isGoal then ssp.terminalCost
      else if !ssp.hasApplicableActions then deadEnd
      else value
  }

  /** The smart heuristic gives goals their terminal cost, non-goal dead
      ends the dead-end value, and agrees with the plain heuristic of the
      same constant everywhere else; the zero heuristics give 0 there. */
  lemma SmartRefinesConstant(value: real, ssp: SspAnswers, deadEnd: real)
    ensures ssp.isGoal ==> ComputeValue(SmartConstantValue(value), ssp, deadEnd) == ssp.terminalCost
    ensures !ssp.isGoal && !ssp.hasApplicableActions ==>
      ComputeValue(SmartConstantValue(value), ssp, deadEnd) == deadEnd
    ensures !ssp.isGoal && ssp.hasApplicableActions ==>
      ComputeValue(SmartConstantValue(value), ssp, deadEnd) == ComputeValue(ConstantValue(value), ssp, deadEnd)
    ensures ComputeValue(Zero, ssp, deadEnd) == 0.0
    ensures !ssp.isGoal && ssp.hasApplicableActions ==> ComputeValue(SmartZero, ssp, deadEnd) == 0.0
  {
  }
}
