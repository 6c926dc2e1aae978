/** Applying, comparing, bounding and splitting the effects and actions of
  the planner (ssipp-solver/ext/mgpt/actions.cc).

  A state is the word vector of `AtomStates`.  Every `affect` reads the
  state the action starts from (`state`, passed by value here since the
  source only reads it) and changes the successor `s_prime` in place. */
module Actions {
  import opened Wrappers
  import opened AtomLists
  import opened AtomStates
  import opened EffectLists
  import Rationals

  // ---------------------------------------------------------------------
  // stripsEffect_t::affect
  // ---------------------------------------------------------------------

  /** The atoms of `s` cleared one after another. */
  function ClearAll(ws: seq<bv32>, s: seq<int>): (r: seq<bv32>)
    requires InRange(s, |ws|)
    ensures |r| == |ws|
  {
    if |s| == 0 then ws else Cleared(ClearAll(ws, s[..|s| - 1]), s[|s| - 1])
  }

  lemma {:induction false} ClearAllHolds(ws: seq<bv32>, s: seq<int>, b: nat)
    requires InRange(s, |ws|)
    ensures Holds(ClearAll(ws, s), b) == (b !in s && Holds(ws, b))
    decreases |s|
  {
    if |s| > 0 {
      var p := s[..|s| - 1];
      ClearAllHolds(ws, p, b);
      ClearedHolds(ClearAll(ws, p), s[|s| - 1], b);
      assert s == p + [s[|s| - 1]];
    }
  }

  /** The `||` of the answers of `add` when the atoms of `s` are added one
      after another: some `add` found its atom clear. */
  function AddChanges(ws: seq<bv32>, s: seq<int>): bool
    requires InRange(s, |ws|)
  {
    if |s| == 0 then false
    else AddChanges(ws, s[..|s| - 1]) || !Holds(AddAll(ws, s[..|s| - 1]), s[|s| - 1])
  }

  /** The `||` of the answers of `clear`: some `clear` found its atom set. */
  function ClearChanges(ws: seq<bv32>, s: seq<int>): bool
    requires InRange(s, |ws|)
  {
    if |s| == 0 then false
    else ClearChanges(ws, s[..|s| - 1]) || Holds(ClearAll(ws, s[..|s| - 1]), s[|s| - 1])
  }

  /** Some atom of `s` is clear in `ws`. */
  predicate SomeAbsent(ws: seq<bv32>, s: seq<int>) {
    exists i :: 0 <= i < |s| && 0 <= s[i] && !Holds(ws, s[i])
  }

  /** Some atom of `s` is set in `ws`. */
  predicate SomeHeld(ws: seq<bv32>, s: seq<int>) {
    exists i :: 0 <= i < |s| && 0 <= s[i] && Holds(ws, s[i])
  }

  /** Adding a list reports a change exactly when one of its atoms was
      clear: an atom added earlier in the same list is set already. */
  lemma {:induction false} AddChangesMeaning(ws: seq<bv32>, s: seq<int>)
    requires InRange(s, |ws|)
    ensures AddChanges(ws, s) <==> SomeAbsent(ws, s)
    decreases |s|
  {
    if |s| > 0 {
      var p, x := s[..|s| - 1], s[|s| - 1];
      assert s == p + [x];
      AddChangesMeaning(ws, p);
      AddAllHolds(ws, p, x);
      if x in p && !Holds(ws, x) {
        var k :| 0 <= k < |p| && p[k] == x;
        assert !Holds(ws, p[k]);
      }
    }
  }

  /** Clearing a list reports a change exactly when one of its atoms was
      set. */
  lemma {:induction false} ClearChangesMeaning(ws: seq<bv32>, s: seq<int>)
    requires InRange(s, |ws|)
    ensures ClearChanges(ws, s) <==> SomeHeld(ws, s)
    decreases |s|
  {
    if |s| > 0 {
      var p, x := s[..|s| - 1], s[|s| - 1];
      assert s == p + [x];
      ClearChangesMeaning(ws, p);
      ClearAllHolds(ws, p, x);
      if x in p && Holds(ws, x) {
        var k :| 0 <= k < |p| && p[k] == x;
        assert Holds(ws, p[k]);
      }
    }
  }

  /** The atoms of both lists of a STRIPS effect lie in a state of `n`
      words. */
  predicate EffectInRange(e: StripsEffect, n: nat) {
    InRange(e.add, n) && InRange(e.del, n)
  }

  /** The words after a STRIPS effect: every add atom set, then every
      delete atom cleared. */
  function StripsApplied(ws: seq<bv32>, e: StripsEffect): (r: seq<bv32>)
    requires EffectInRange(e, |ws|)
    ensures |r| == |ws|
  {
    ClearAll(AddAll(ws, e.add), e.del)
  }

  /** The answer of `stripsEffect_t::affect`. */
  function StripsChanges(ws: seq<bv32>, e: StripsEffect): bool
    requires EffectInRange(e, |ws|)
  {
    AddChanges(ws, e.add) || ClearChanges(AddAll(ws, e.add), e.del)
  }

  /** Atom by atom: an atom holds afterwards exactly when it is not
      deleted and was added or held before, so an atom on both lists ends
      up absent. */
  lemma StripsAppliedHolds(ws: seq<bv32>, e: StripsEffect, b: nat)
    requires EffectInRange(e, |ws|)
    ensures Holds(StripsApplied(ws, e), b) == (b !in e.del && (b in e.add || Holds(ws, b)))
  {
    ClearAllHolds(AddAll(ws, e.add), e.del, b);
    AddAllHolds(ws, e.add, b);
  }

  /** The effect reports a change exactly when an add atom was clear, or a
      delete atom was set before or is added by the same effect. */
  lemma StripsChangesMeaning(ws: seq<bv32>, e: StripsEffect)
    requires EffectInRange(e, |ws|)
    ensures StripsChanges(ws, e) <==>
      SomeAbsent(ws, e.add) ||
      (exists j :: 0 <= j < |e.del| && 0 <= e.del[j] && (e.del[j] in e.add || Holds(ws, e.del[j])))
  {
    AddChangesMeaning(ws, e.add);
    ClearChangesMeaning(AddAll(ws, e.add), e.del);
    forall j | 0 <= j < |e.del|
      ensures Holds(AddAll(ws, e.add), e.del[j]) == (e.del[j] in e.add || Holds(ws, e.del[j]))
    {
      AddAllHolds(ws, e.add, e.del[j]);
    }
  }

  /** An effect that reports no change leaves the state as it was. */
  lemma StripsNoChangeKeeps(ws: seq<bv32>, e: StripsEffect)
    requires EffectInRange(e, |ws|) && !StripsChanges(ws, e)
    ensures StripsApplied(ws, e) == ws
  {
    StripsChangesMeaning(ws, e);
    forall b: nat ensures Holds(StripsApplied(ws, e), b) == Holds(ws, b) {
      StripsAppliedHolds(ws, e, b);
      if b in e.add {
        var i :| 0 <= i < |e.add| && e.add[i] == b;
        assert !(0 <= e.add[i] && !Holds(ws, e.add[i]));
      }
      if b in e.del {
        var j :| 0 <= j < |e.del| && e.del[j] == b;
        assert !(0 <= e.del[j] && Holds(ws, e.del[j]));
      }
    }
    SameAtomsSameWords(StripsApplied(ws, e), ws);
  }

  /** `stripsEffect_t::affect`: `add` for every add atom, then `clear` for
      every delete atom, or-ing their answers. */
  method StripsAffect(e: StripsEffect, sPrime: State) returns (rv: bool)
    requires EffectInRange(e, sPrime.data.Length)
    modifies sPrime.data
    ensures sPrime.data[..] == StripsApplied(old(sPrime.data[..]), e)
    ensures rv == StripsChanges(old(sPrime.data[..]), e)
  {
    ghost var w0 := sPrime.data[..];
    rv := false;
    var i := 0;
    while i < |e.add|
      invariant 0 <= i <= |e.add|
      invariant InRange(e.add[..i], |w0|)
      invariant sPrime.data[..] == AddAll(w0, e.add[..i])
      invariant rv == AddChanges(w0, e.add[..i])
    {
      var ch := sPrime.Add(e.add[i]);
      rv := ch || rv;
      assert e.add[..i + 1][..i] == e.add[..i];
      i := i + 1;
    }
    assert e.add[..i] == e.add;
    ghost var w1 := sPrime.data[..];
    var rd := false;
    i := 0;
    while i < |e.del|
      invariant 0 <= i <= |e.del|
      invariant InRange(e.del[..i], |w1|)
      invariant sPrime.data[..] == ClearAll(w1, e.del[..i])
      invariant rd == ClearChanges(w1, e.del[..i])
    {
      var ch := sPrime.Clear(e.del[i]);
      rd := ch || rd;
      assert e.del[..i + 1][..i] == e.del[..i];
      i := i + 1;
    }
    assert e.del[..i] == e.del;
    rv := rd || rv;
  }

  // ---------------------------------------------------------------------
  // conditionalEffect_t::affect and conditionalEffectList_t::affect
  // ---------------------------------------------------------------------

  predicate CondsInRange(cs: seq<CondEffect>, n: nat) {
    forall i :: 0 <= i < |cs| ==> EffectInRange(cs[i].effect, n)
  }

  /** A conditional effect on the successor words `w`: its STRIPS part
      applies only when its condition holds in `ws`, the state the action
      starts from. */
  function CondApplied(ws: seq<bv32>, w: seq<bv32>, c: CondEffect, nprec: bool): (r: seq<bv32>)
    requires EffectInRange(c.effect, |w|)
    ensures |r| == |w|
  {
    if DnfHolds(ws, c.prec, nprec) then StripsApplied(w, c.effect) else w
  }

  function CondChanges(ws: seq<bv32>, w: seq<bv32>, c: CondEffect, nprec: bool): bool
    requires EffectInRange(c.effect, |w|)
  {
    DnfHolds(ws, c.prec, nprec) && StripsChanges(w, c.effect)
  }

  /** The members applied one after another. */
  function CondListApplied(ws: seq<bv32>, w: seq<bv32>, cs: seq<CondEffect>, nprec: bool): (r: seq<bv32>)
    requires CondsInRange(cs, |w|)
    ensures |r| == |w|
  {
    if |cs| == 0 then w
    else CondApplied(ws, CondListApplied(ws, w, cs[..|cs| - 1], nprec), cs[|cs| - 1], nprec)
  }

  /** The `||` of the members' answers. */
  function CondListChanges(ws: seq<bv32>, w: seq<bv32>, cs: seq<CondEffect>, nprec: bool): bool
    requires CondsInRange(cs, |w|)
  {
    if |cs| == 0 then false
    else
      var p := cs[..|cs| - 1];
      CondListChanges(ws, w, p, nprec) || CondChanges(ws, CondListApplied(ws, w, p, nprec), cs[|cs| - 1], nprec)
  }

  /** `conditionalEffect_t::affect`: the precondition is tested on `state`
      and, only when it holds, the STRIPS part is applied to `sPrime`. */
  method ConditionalAffect(c: CondEffect, state: seq<bv32>, sPrime: State, nprec: bool) returns (rv: bool)
    requires EffectInRange(c.effect, sPrime.data.Length)
    modifies sPrime.data
    ensures DnfHolds(state, c.prec, nprec) ==> sPrime.data[..] == StripsApplied(old(sPrime.data[..]), c.effect)
    ensures !DnfHolds(state, c.prec, nprec) ==> sPrime.data[..] == old(sPrime.data[..]) && !rv
    ensures rv == CondChanges(state, old(sPrime.data[..]), c, nprec)
  {
    if DnfHolds(state, c.prec, nprec) {
      rv := StripsAffect(c.effect, sPrime);
    } else {
      rv := false;
    }
  }

  /** `conditionalEffectList_t::affect`: every member in turn, or-ing
      their answers. */
  method CondListAffect(cs: seq<CondEffect>, state: seq<bv32>, sPrime: State, nprec: bool) returns (rv: bool)
    requires CondsInRange(cs, sPrime.data.Length)
    modifies sPrime.data
    ensures sPrime.data[..] == CondListApplied(state, old(sPrime.data[..]), cs, nprec)
    ensures rv == CondListChanges(state, old(sPrime.data[..]), cs, nprec)
  {
    ghost var w0 := sPrime.data[..];
    rv := false;
    var i := 0;
    while i < |cs|
      invariant 0 <= i <= |cs|
      invariant CondsInRange(cs[..i], |w0|)
      invariant sPrime.data[..] == CondListApplied(state, w0, cs[..i], nprec)
      invariant rv == CondListChanges(state, w0, cs[..i], nprec)
    {
      assert cs[..i + 1][..i] == cs[..i];
      var ch := ConditionalAffect(cs[i], state, sPrime, nprec);
      rv := ch || rv;
      i := i + 1;
    }
    assert cs[..i] == cs;
  }

  /** A list that reports no change leaves the successor as it was. */
  lemma {:induction false} CondListNoChangeKeeps(ws: seq<bv32>, w: seq<bv32>, cs: seq<CondEffect>, nprec: bool)
    requires CondsInRange(cs, |w|) && !CondListChanges(ws, w, cs, nprec)
    ensures CondListApplied(ws, w, cs, nprec) == w
    decreases |cs|
  {
    if |cs| > 0 {
      var p := cs[..|cs| - 1];
      assert CondsInRange(p, |w|);
      CondListNoChangeKeeps(ws, w, p, nprec);
      if DnfHolds(ws, cs[|cs| - 1].prec, nprec) {
        StripsNoChangeKeeps(w, cs[|cs| - 1].effect);
      }
    }
  }

  /** Only atoms named by some member can change. */
  lemma {:induction false} CondListFrame(ws: seq<bv32>, w: seq<bv32>, cs: seq<CondEffect>, nprec: bool, b: nat)
    requires CondsInRange(cs, |w|)
    requires forall i :: 0 <= i < |cs| ==> b !in cs[i].effect.add && b !in cs[i].effect.del
    ensures Holds(CondListApplied(ws, w, cs, nprec), b) == Holds(w, b)
    decreases |cs|
  {
    if |cs| > 0 {
      var p := cs[..|cs| - 1];
      assert CondsInRange(p, |w|);
      CondListFrame(ws, w, p, nprec, b);
      StripsAppliedHolds(CondListApplied(ws, w, p, nprec), cs[|cs| - 1].effect, b);
    }
  }

  // ---------------------------------------------------------------------
  // deterministicEffect_t::affect and deterministicAction_t::affect
  // ---------------------------------------------------------------------

  predicate DetInRange(d: DetEffect, n: nat) {
    EffectInRange(d.strips, n) && CondsInRange(d.conds, n)
  }

  /** The STRIPS part, then the conditional effects. */
  function DetApplied(ws: seq<bv32>, w: seq<bv32>, d: DetEffect, nprec: bool): (r: seq<bv32>)
    requires DetInRange(d, |w|)
    ensures |r| == |w|
  {
    CondListApplied(ws, StripsApplied(w, d.strips), d.conds, nprec)
  }

  function DetChanges(ws: seq<bv32>, w: seq<bv32>, d: DetEffect, nprec: bool): bool
    requires DetInRange(d, |w|)
  {
    StripsChanges(w, d.strips) || CondListChanges(ws, StripsApplied(w, d.strips), d.conds, nprec)
  }

  /** An effect that reports no change leaves the successor as it was. */
  lemma DetNoChangeKeeps(ws: seq<bv32>, w: seq<bv32>, d: DetEffect, nprec: bool)
    requires DetInRange(d, |w|) && !DetChanges(ws, w, d, nprec)
    ensures DetApplied(ws, w, d, nprec) == w
  {
    StripsNoChangeKeeps(w, d.strips);
    CondListNoChangeKeeps(ws, w, d.conds, nprec);
  }

  /** An atom on no add or delete list of the effect keeps its value. */
  lemma DetFrame(ws: seq<bv32>, w: seq<bv32>, d: DetEffect, nprec: bool, b: nat)
    requires DetInRange(d, |w|)
    requires b !in d.strips.add && b !in d.strips.del
    requires forall i :: 0 <= i < |d.conds| ==> b !in d.conds[i].effect.add && b !in d.conds[i].effect.del
    ensures Holds(DetApplied(ws, w, d, nprec), b) == Holds(w, b)
  {
    StripsAppliedHolds(w, d.strips, b);
    CondListFrame(ws, StripsApplied(w, d.strips), d.conds, nprec, b);
  }

  /** `deterministicEffect_t::affect`. */
  method DetEffectAffect(d: DetEffect, state: seq<bv32>, sPrime: State, nprec: bool) returns (rv: bool)
    requires DetInRange(d, sPrime.data.Length)
    modifies sPrime.data
    ensures sPrime.data[..] == DetApplied(state, old(sPrime.data[..]), d, nprec)
    ensures rv == DetChanges(state, old(sPrime.data[..]), d, nprec)
  {
    rv := StripsAffect(d.strips, sPrime);
    var rc := CondListAffect(d.conds, state, sPrime, nprec);
    rv := rc || rv;
  }

  /** `deterministicAction_t::affect`: the successor starts as a copy of
      the state, every condition is read from the unchanged state, and the
      successor then replaces the state. */
  method DetActionAffect(d: DetEffect, state: State, nprec: bool) returns (rv: bool)
    requires DetInRange(d, state.data.Length)
    modifies state.data
    ensures state.data[..] == DetApplied(old(state.data[..]), old(state.data[..]), d, nprec)
    ensures rv == DetChanges(old(state.data[..]), old(state.data[..]), d, nprec)
  {
    var ws := state.data[..];
    rv := DetEffectAffect(d, ws, state, nprec);
  }

  // ---------------------------------------------------------------------
  // conditionalEffectList_t::operator==
  // ---------------------------------------------------------------------

  /** `conditionalEffectList_t::find`: a member equal to `c`. */
  method FindCond(cs: seq<CondEffect>, c: CondEffect) returns (b: bool)
    ensures b == HasCond(cs, c)
  {
    for i := 0 to |cs|
      invariant forall k :: 0 <= k < i ==> !CondEq(cs[k], c)
    {
      if CondEq(cs[i], c) {
        return true;
      }
    }
    return false;
  }

  /** One half of `operator==`: every member of `cs` is found in `ds`. */
  method AllFound(cs: seq<CondEffect>, ds: seq<CondEffect>) returns (b: bool)
    ensures b == forall k :: 0 <= k < |cs| ==> HasCond(ds, cs[k])
  {
    for i := 0 to |cs|
      invariant forall k :: 0 <= k < i ==> HasCond(ds, cs[k])
    {
      var found := FindCond(ds, cs[i]);
      if !found {
        return false;
      }
    }
    return true;
  }

  /** `operator==`: every member of each list is found in the other. */
  method CondListEqual(cs: seq<CondEffect>, ds: seq<CondEffect>) returns (b: bool)
    ensures b <==> CondListEq(cs, ds)
  {
    b := AllFound(cs, ds);
    if b {
      b := AllFound(ds, cs);
    }
  }

  /** The equality is reflexive and symmetric. */
  lemma CondListEqIsReflexiveAndSymmetric(cs: seq<CondEffect>, ds: seq<CondEffect>)
    ensures CondListEq(cs, cs)
    ensures CondListEq(cs, ds) == CondListEq(ds, cs)
  {
    forall i | 0 <= i < |cs| ensures HasCond(cs, cs[i]) {
      CondEqReflexive(cs[i]);
    }
  }

  // ---------------------------------------------------------------------
  // Cost bounds (cost_lowerbound, cost_upperbound)
  // ---------------------------------------------------------------------

  /** Every member's STRIPS part has the entry `ACTION_COST` that `cost()`
      reads. */
  predicate CondCostsOk(cs: seq<CondEffect>) {
    forall i :: 0 <= i < |cs| ==> ActionCost < |cs[i].effect.cost|
  }

  predicate DetCostsOk(d: DetEffect) {
    ActionCost < |d.strips.cost| && CondCostsOk(d.conds)
  }

  /** `conditionalEffect_t::cost_lowerbound()` and `cost_upperbound()`:
      the cost of its STRIPS part. */
  function CondCost(c: CondEffect): real
    requires ActionCost < |c.effect.cost|
  {
    c.effect.cost[ActionCost]
  }

  /** `r` is the cost of some member. */
  predicate IsMemberCost(cs: seq<CondEffect>, r: real)
    requires CondCostsOk(cs)
  {
    exists i :: 0 <= i < |cs| && r == CondCost(cs[i])
  }

  /** `conditionalEffectList_t::cost_lowerbound()`: the least member cost,
      and 0 for an empty list. */
  function CondLowerBound(cs: seq<CondEffect>): (r: real)
    requires CondCostsOk(cs)
    ensures |cs| == 0 ==> r == 0.0
    ensures forall i :: 0 <= i < |cs| ==> r <= CondCost(cs[i])
    ensures |cs| > 0 ==> IsMemberCost(cs, r)
  {
    if |cs| == 0 then 0.0
    else if |cs| == 1 then CondCost(cs[0])
    else
      var lb, c := CondLowerBound(cs[..|cs| - 1]), CondCost(cs[|cs| - 1]);
      assert forall i :: 0 <= i < |cs| - 1 ==> cs[..|cs| - 1][i] == cs[i];
      assert IsMemberCost(cs, c) by { assert c == CondCost(cs[|cs| - 1]); }
      if c < lb then c else lb
  }

  /** `conditionalEffectList_t::cost_upperbound()`: the greatest member
      cost, and 0 for an empty list. */
  function CondUpperBound(cs: seq<CondEffect>): (r: real)
    requires CondCostsOk(cs)
    ensures |cs| == 0 ==> r == 0.0
    ensures forall i :: 0 <= i < |cs| ==> CondCost(cs[i]) <= r
    ensures |cs| > 0 ==> IsMemberCost(cs, r)
  {
    if |cs| == 0 then 0.0
    else if |cs| == 1 then CondCost(cs[0])
    else
      var ub, c := CondUpperBound(cs[..|cs| - 1]), CondCost(cs[|cs| - 1]);
      assert forall i :: 0 <= i < |cs| - 1 ==> cs[..|cs| - 1][i] == cs[i];
      assert IsMemberCost(cs, c) by { assert c == CondCost(cs[|cs| - 1]); }
      if c > ub then c else ub
  }

  /** The loop of `cost_lowerbound()`: start from the first member and
      keep the smaller bound. */
  method CostLowerBound(cs: seq<CondEffect>) returns (lb: real)
    requires CondCostsOk(cs)
    ensures lb == CondLowerBound(cs)
  {
    if |cs| == 0 {
      return 0.0;
    }
    lb := CondCost(cs[0]);
    for i := 1 to |cs|
      invariant CondCostsOk(cs[..i])
      invariant lb == CondLowerBound(cs[..i])
    {
      var ilb := CondCost(cs[i]);
      if ilb < lb {
        lb := ilb;
      }
      assert cs[..i + 1][..i] == cs[..i];
    }
    assert cs[..|cs|] == cs;
  }

  /** The loop of `cost_upperbound()`. */
  method CostUpperBound(cs: seq<CondEffect>) returns (ub: real)
    requires CondCostsOk(cs)
    ensures ub == CondUpperBound(cs)
  {
    if |cs| == 0 {
      return 0.0;
    }
    ub := CondCost(cs[0]);
    for i := 1 to |cs|
      invariant CondCostsOk(cs[..i])
      invariant ub == CondUpperBound(cs[..i])
    {
      var iub := CondCost(cs[i]);
      if iub > ub {
        ub := iub;
      }
      assert cs[..i + 1][..i] == cs[..i];
    }
    assert cs[..|cs|] == cs;
  }

  /** `deterministicEffect_t::cost_lowerbound()`: the STRIPS cost plus the
      bound of the conditional effects. */
  function DetLowerBound(d: DetEffect): real
    requires DetCostsOk(d)
  {
    d.strips.cost[ActionCost] + CondLowerBound(d.conds)
  }

  function DetUpperBound(d: DetEffect): real
    requires DetCostsOk(d)
  {
    d.strips.cost[ActionCost] + CondUpperBound(d.conds)
  }

  /** `deterministicAction_t::cost_lowerbound()`: 1 plus the effect's bound
      when `use_action_cost` is on, else 1. */
  function DetActionLowerBound(useActionCost: bool, d: DetEffect): real
    requires DetCostsOk(d)
  {
    if useActionCost then 1.0 + DetLowerBound(d) else 1.0
  }

  function DetActionUpperBound(useActionCost: bool, d: DetEffect): real
    requires DetCostsOk(d)
  {
    if useActionCost then 1.0 + DetUpperBound(d) else 1.0
  }

  /** `probabilisticAction_t::cost_lowerbound()`: as for a deterministic
      action, with the bound of the first outcome; the list's bound dies
      on an empty list (DIE 162). */
  function ProbActionLowerBound(useActionCost: bool, ps: seq<ProbEffect>): (r: Option<real>)
    requires |ps| > 0 ==> DetCostsOk(ps[0].det)
  {
    if !useActionCost then Some(1.0)
    else if |ps| == 0 then None
    else Some(1.0 + DetLowerBound(ps[0].det))
  }

  function ProbActionUpperBound(useActionCost: bool, ps: seq<ProbEffect>): (r: Option<real>)
    requires |ps| > 0 ==> DetCostsOk(ps[0].det)
  {
    if !useActionCost then Some(1.0)
    else if |ps| == 0 then None
    else Some(1.0 + DetUpperBound(ps[0].det))
  }

  /** The lower bound never exceeds the upper bound, for every kind of
      action; a probabilistic action dies on both or on neither. */
  lemma BoundsOrdered(useActionCost: bool, d: DetEffect, ps: seq<ProbEffect>)
    requires DetCostsOk(d)
    requires |ps| > 0 ==> DetCostsOk(ps[0].det)
    ensures CondLowerBound(d.conds) <= CondUpperBound(d.conds)
    ensures DetActionLowerBound(useActionCost, d) <= DetActionUpperBound(useActionCost, d)
    ensures ProbActionLowerBound(useActionCost, ps).Some? == ProbActionUpperBound(useActionCost, ps).Some?
    ensures ProbActionLowerBound(useActionCost, ps).Some? ==>
      ProbActionLowerBound(useActionCost, ps).value <= ProbActionUpperBound(useActionCost, ps).value
  {
    if |d.conds| > 0 {
      assert CondLowerBound(d.conds) <= CondCost(d.conds[0]) <= CondUpperBound(d.conds);
    }
    if |ps| > 0 && |ps[0].det.conds| > 0 {
      var cs := ps[0].det.conds;
      assert CondLowerBound(cs) <= CondCost(cs[0]) <= CondUpperBound(cs);
    }
  }

  // ---------------------------------------------------------------------
  // The cost in a state
  // ---------------------------------------------------------------------

  /** `conditionalEffect_t::cost(s, idx)`: the STRIPS cost when the
      precondition holds (read without `nprec`), else 0. */
  function CondCostAt(ws: seq<bv32>, c: CondEffect, idx: nat): real
    requires idx < |c.effect.cost|
  {
    if DnfHolds(ws, c.prec, false) then c.effect.cost[idx] else 0.0
  }

  predicate CondIndexOk(cs: seq<CondEffect>, idx: nat) {
    forall i :: 0 <= i < |cs| ==> idx < |cs[i].effect.cost|
  }

  /** `conditionalEffectList_t::cost(s, idx)`: the sum over the members. */
  function CondListCostAt(ws: seq<bv32>, cs: seq<CondEffect>, idx: nat): real
    requires CondIndexOk(cs, idx)
  {
    if |cs| == 0 then 0.0
    else CondListCostAt(ws, cs[..|cs| - 1], idx) + CondCostAt(ws, cs[|cs| - 1], idx)
  }

  /** `deterministicEffect_t::cost(s, idx)`. */
  function DetCostAt(ws: seq<bv32>, d: DetEffect, idx: nat): real
    requires idx < |d.strips.cost| && CondIndexOk(d.conds, idx)
  {
    d.strips.cost[idx] + CondListCostAt(ws, d.conds, idx)
  }

  /** Member `k` is the only one whose precondition holds in `ws`. */
  predicate HoldsAlone(ws: seq<bv32>, cs: seq<CondEffect>, k: nat) {
    k < |cs| && forall i :: 0 <= i < |cs| ==> (DnfHolds(ws, cs[i].prec, false) <==> i == k)
  }

  lemma {:induction false} CondListCostAlone(ws: seq<bv32>, cs: seq<CondEffect>, k: nat)
    requires CondCostsOk(cs)
    ensures HoldsAlone(ws, cs, k) ==> CondListCostAt(ws, cs, ActionCost) == CondCost(cs[k])
    ensures (forall i :: 0 <= i < |cs| ==> !DnfHolds(ws, cs[i].prec, false)) ==>
      CondListCostAt(ws, cs, ActionCost) == 0.0
    decreases |cs|
  {
    if |cs| > 0 {
      var p := cs[..|cs| - 1];
      CondListCostAlone(ws, p, k);
      if HoldsAlone(ws, cs, k) && k < |p| {
        assert HoldsAlone(ws, p, k);
      }
      if HoldsAlone(ws, cs, k) && k == |p| {
        CondListCostAlone(ws, p, 0);
        assert forall i :: 0 <= i < |p| ==> !DnfHolds(ws, p[i].prec, false);
      }
    }
  }

  /** When the conditional effects are mutually exclusive in a state (one
      holds there, or there are none), the state's cost lies between the
      effect's bounds.  With several conditional effects holding at once,
      the bounds, taken over single members, do not bound their sum. */
  lemma DetCostBetweenBounds(ws: seq<bv32>, d: DetEffect, k: nat)
    requires DetCostsOk(d)
    requires |d.conds| == 0 || HoldsAlone(ws, d.conds, k)
    ensures DetLowerBound(d) <= DetCostAt(ws, d, ActionCost) <= DetUpperBound(d)
  {
    CondListCostAlone(ws, d.conds, k);
  }

  // ---------------------------------------------------------------------
  // Reward consistency (is_reward_consistent_with)
  // ---------------------------------------------------------------------

  /** For each member of `cl`, whether its precondition equals `p`. */
  function Matches(p: seq<seq<Atom>>, cl: seq<CondEffect>): (ms: seq<bool>)
    ensures |ms| == |cl|
  {
    if |cl| == 0 then [] else Matches(p, cl[..|cl| - 1]) + [DnfEq(p, cl[|cl| - 1].prec)]
  }

  lemma {:induction false} MatchesAt(p: seq<seq<Atom>>, cl: seq<CondEffect>, k: nat)
    requires k < |cl|
    ensures Matches(p, cl)[k] == DnfEq(p, cl[k].prec)
    decreases |cl|
  {
    if k < |cl| - 1 {
      MatchesAt(p, cl[..|cl| - 1], k);
    }
  }

  /** Member `i` of `cl1` passes the one-way test against `cl2`: every
      member of `cl2` with an equal precondition has its cost, and a
      member with no such partner costs nothing. */
  predicate ConsistentAt(cl1: seq<CondEffect>, cl2: seq<CondEffect>, i: nat)
    requires CondCostsOk(cl1) && CondCostsOk(cl2) && i < |cl1|
  {
    var ms := Matches(cl1[i].prec, cl2);
    (forall j :: 0 <= j < |cl2| && ms[j] ==> CondCost(cl1[i]) == CondCost(cl2[j])) &&
    (CondCost(cl1[i]) != 0.0 ==> exists j :: 0 <= j < |cl2| && ms[j])
  }

  /** `one_way_conditionalEffectList_reward_consistent_test`. */
  predicate OneWayConsistent(cl1: seq<CondEffect>, cl2: seq<CondEffect>)
    requires CondCostsOk(cl1) && CondCostsOk(cl2)
  {
    forall i :: 0 <= i < |cl1| ==> ConsistentAt(cl1, cl2, i)
  }

  /** The one-way test in terms of precondition equality. */
  lemma ConsistentAtMeaning(cl1: seq<CondEffect>, cl2: seq<CondEffect>, i: nat)
    requires CondCostsOk(cl1) && CondCostsOk(cl2) && i < |cl1|
    ensures ConsistentAt(cl1, cl2, i) <==>
      (forall j :: 0 <= j < |cl2| && DnfEq(cl1[i].prec, cl2[j].prec) ==> CondCost(cl1[i]) == CondCost(cl2[j])) &&
      (CondCost(cl1[i]) != 0.0 ==> exists j :: 0 <= j < |cl2| && DnfEq(cl1[i].prec, cl2[j].prec))
  {
    forall j | 0 <= j < |cl2| ensures Matches(cl1[i].prec, cl2)[j] == DnfEq(cl1[i].prec, cl2[j].prec) {
      MatchesAt(cl1[i].prec, cl2, j);
    }
  }

  /** `atomListList_t::operator==` on two preconditions. */
  method PrecEqual(p: seq<seq<Atom>>, q: seq<seq<Atom>>) returns (b: bool)
    ensures b == DnfEq(p, q)
  {
    b := DnfEq(p, q);
  }

  /** The precondition comparisons of the inner loop. */
  method PrecMatches(p: seq<seq<Atom>>, cl: seq<CondEffect>) returns (ms: seq<bool>)
    ensures ms == Matches(p, cl)
  {
    ms := [];
    for j := 0 to |cl|
      invariant ms == Matches(p, cl[..j])
    {
      var m := PrecEqual(p, cl[j].prec);
      assert cl[..j + 1][..j] == cl[..j];
      ms := ms + [m];
    }
    assert cl[..|cl|] == cl;
  }

  /** The inner loop of the one-way test for member `i`. */
  method ConsistentMember(cl1: seq<CondEffect>, cl2: seq<CondEffect>, i: nat) returns (b: bool)
    requires CondCostsOk(cl1) && CondCostsOk(cl2) && i < |cl1|
    ensures b == ConsistentAt(cl1, cl2, i)
  {
    var c := CondCost(cl1[i]);
    var ms := PrecMatches(cl1[i].prec, cl2);
    var atLeastOneMatch := false;
    for j := 0 to |cl2|
      invariant atLeastOneMatch <==> exists k :: 0 <= k < j && ms[k]
      invariant forall k :: 0 <= k < j && ms[k] ==> c == CondCost(cl2[k])
    {
      if ms[j] {
        atLeastOneMatch := true;
        if c != CondCost(cl2[j]) {
          return false;
        }
      }
    }
    if !atLeastOneMatch && c != 0.0 {
      return false;
    }
    return true;
  }

  /** The one-way test: the first failing member answers `false`. */
  method OneWayRewardConsistent(cl1: seq<CondEffect>, cl2: seq<CondEffect>) returns (b: bool)
    requires CondCostsOk(cl1) && CondCostsOk(cl2)
    ensures b == OneWayConsistent(cl1, cl2)
  {
    for i := 0 to |cl1|
      invariant forall k :: 0 <= k < i ==> ConsistentAt(cl1, cl2, k)
    {
      var ok := ConsistentMember(cl1, cl2, i);
      if !ok {
        return false;
      }
    }
    return true;
  }

  /** `conditionalEffectList_t::is_reward_consistent_with`: the one-way
      test in both directions. */
  method CondListRewardConsistent(cl1: seq<CondEffect>, cl2: seq<CondEffect>) returns (b: bool)
    requires CondCostsOk(cl1) && CondCostsOk(cl2)
    ensures b == (OneWayConsistent(cl1, cl2) && OneWayConsistent(cl2, cl1))
  {
    b := OneWayRewardConsistent(cl1, cl2);
    if b {
      b := OneWayRewardConsistent(cl2, cl1);
    }
  }

  /** `atomListList_t::operator==` is reflexive. */
  lemma DnfEqReflexive(p: seq<seq<Atom>>)
    ensures DnfEq(p, p)
  {
    forall i | 0 <= i < |p| ensures DnfHas(p, p[i]) {
      assert SameAtoms(p[i], p[i]);
    }
  }

  /** A list is consistent with itself exactly when members with equal
      preconditions have equal costs: the partner a member needs is
      itself. */
  lemma SelfConsistency(cl: seq<CondEffect>)
    requires CondCostsOk(cl)
    ensures OneWayConsistent(cl, cl) <==>
      forall i, j :: 0 <= i < |cl| && 0 <= j < |cl| && DnfEq(cl[i].prec, cl[j].prec) ==> CondCost(cl[i]) == CondCost(cl[j])
  {
    forall i | 0 <= i < |cl| ensures ConsistentAt(cl, cl, i) <==>
      forall j :: 0 <= j < |cl| && DnfEq(cl[i].prec, cl[j].prec) ==> CondCost(cl[i]) == CondCost(cl[j])
    {
      ConsistentAtMeaning(cl, cl, i);
      DnfEqReflexive(cl[i].prec);
    }
  }

  /** `probabilisticEffect_t::is_reward_consistent_with`: the same STRIPS
      cost and consistent conditional effects. */
  predicate ProbEffectConsistent(p: ProbEffect, q: ProbEffect)
    requires DetCostsOk(p.det) && DetCostsOk(q.det)
  {
    p.det.strips.cost[ActionCost] == q.det.strips.cost[ActionCost] &&
    OneWayConsistent(p.det.conds, q.det.conds) && OneWayConsistent(q.det.conds, p.det.conds)
  }

  method ProbEffectRewardConsistent(p: ProbEffect, q: ProbEffect) returns (b: bool)
    requires DetCostsOk(p.det) && DetCostsOk(q.det)
    ensures b == ProbEffectConsistent(p, q)
  {
    if p.det.strips.cost[ActionCost] != q.det.strips.cost[ActionCost] {
      return false;
    }
    b := CondListRewardConsistent(p.det.conds, q.det.conds);
  }

  predicate ProbCostsOk(ps: seq<ProbEffect>) {
    forall i :: 0 <= i < |ps| ==> DetCostsOk(ps[i].det)
  }

  /** `probabilisticAction_t::is_reward_consistent`: every outcome is
      consistent with the first one (an action without outcomes is). */
  predicate ActionRewardConsistent(ps: seq<ProbEffect>)
    requires ProbCostsOk(ps)
  {
    forall i :: 1 <= i < |ps| ==> ProbEffectConsistent(ps[i], ps[0])
  }

  method ProbActionRewardConsistent(ps: seq<ProbEffect>) returns (b: bool)
    requires ProbCostsOk(ps)
    ensures b == ActionRewardConsistent(ps)
  {
    if |ps| == 0 {
      return true;
    }
    for i := 1 to |ps|
      invariant forall k :: 1 <= k < i ==> ProbEffectConsistent(ps[k], ps[0])
    {
      var ok := ProbEffectRewardConsistent(ps[i], ps[0]);
      if !ok {
        return false;
      }
    }
    return true;
  }

  /** In a reward-consistent action every outcome has the first outcome's
      STRIPS cost. */
  lemma ConsistentActionSameCost(ps: seq<ProbEffect>, i: nat)
    requires ProbCostsOk(ps) && ActionRewardConsistent(ps) && i < |ps|
    ensures ps[i].det.strips.cost[ActionCost] == ps[0].det.strips.cost[ActionCost]
  {
    if i > 0 {
      assert ProbEffectConsistent(ps[i], ps[0]);
    }
  }

  // ---------------------------------------------------------------------
  // action_t::original_action
  // ---------------------------------------------------------------------

  /** The `original_action_` links of a problem's actions, by position
      (`None` for a null link), are well-founded: `rank` strictly decreases
      along every link. */
  predicate Ranked(links: seq<Option<nat>>, rank: seq<nat>) {
    |rank| == |links| &&
    forall i :: 0 <= i < |links| && links[i].Some? ==>
      links[i].value < |links| && rank[links[i].value] < rank[i]
  }

  /** The action reached from `a` by following links until one is null. */
  ghost function Root(links: seq<Option<nat>>, rank: seq<nat>, a: nat): (r: nat)
    requires Ranked(links, rank) && a < |links|
    ensures r < |links| && links[r].None?
    ensures links[a].None? ==> r == a
    decreases rank[a]
  {
    if links[a].None? then a else Root(links, rank, links[a].value)
  }

  /** `n` links followed from `a`. */
  function Follow(links: seq<Option<nat>>, a: nat, n: nat): Option<nat>
    decreases n
  {
    if a >= |links| then None
    else if n == 0 then Some(a)
    else if links[a].None? then None
    else Follow(links, links[a].value, n - 1)
  }

  /** `original_action()`: follow `original_action_` while it is set. */
  method OriginalAction(links: seq<Option<nat>>, ghost rank: seq<nat>, a: nat) returns (o: nat)
    requires Ranked(links, rank) && a < |links|
    ensures o == Root(links, rank, a)
  {
    o := a;
    while links[o].Some?
      invariant o < |links| && Root(links, rank, o) == Root(links, rank, a)
      decreases rank[o]
    {
      o := links[o].value;
    }
  }

  /** The root is an ancestor of `a` — some number of links leads there —
      and the root of the root is the root. */
  lemma {:induction false} RootIsAncestor(links: seq<Option<nat>>, rank: seq<nat>, a: nat) returns (n: nat)
    requires Ranked(links, rank) && a < |links|
    ensures Follow(links, a, n) == Some(Root(links, rank, a))
    ensures Root(links, rank, Root(links, rank, a)) == Root(links, rank, a)
    decreases rank[a]
  {
    if links[a].None? {
      n := 0;
    } else {
      var m := RootIsAncestor(links, rank, links[a].value);
      n := m + 1;
    }
  }

  // ---------------------------------------------------------------------
  // Actions and replanning_split
  // ---------------------------------------------------------------------

  /** An action: its name, its precondition, its effect(s) and its
      `original_action_` link (`None` for null, `Some(k)` for action `k`
      of the problem). */
  datatype Action =
    | DetAction(name: string, prec: seq<seq<Atom>>, effect: DetEffect, original: Option<nat>)
    | ProbAction(name: string, prec: seq<seq<Atom>>, effects: seq<ProbEffect>, original: Option<nat>)

  /** `deterministicEffect_t::empty()`: the STRIPS part and every
      conditional effect's STRIPS part are empty. */
  predicate DetNoOp(d: DetEffect) {
    NoOp(d.strips) && forall i :: 0 <= i < |d.conds| ==> NoOp(d.conds[i].effect)
  }

  method DetEmpty(d: DetEffect) returns (b: bool)
    ensures b == DetNoOp(d)
  {
    b := StripsEmpty(d.strips);
    if !b {
      return false;
    }
    for i := 0 to |d.conds|
      invariant forall k :: 0 <= k < i ==> NoOp(d.conds[k].effect)
    {
      var e := StripsEmpty(d.conds[i].effect);
      if !e {
        return false;
      }
    }
    return true;
  }

  /** The outcomes the split detaches: probability at most `t` and not
      empty, in order. */
  function Detachable(ps: seq<ProbEffect>, t: real): seq<ProbEffect> {
    if |ps| == 0 then []
    else
      var last := ps[|ps| - 1];
      Detachable(ps[..|ps| - 1], t) + (if last.prob <= t && !DetNoOp(last.det) then [last] else [])
  }

  /** The deterministic actions of the detached outcomes, `name_0`,
      `name_1`, ... in order, each linked to the split action `self`. */
  function SplitOff(name: string, prec: seq<seq<Atom>>, self: nat, ps: seq<ProbEffect>, t: real): seq<Action> {
    if |ps| == 0 then []
    else
      var r, last := SplitOff(name, prec, self, ps[..|ps| - 1], t), ps[|ps| - 1];
      if last.prob <= t && !DetNoOp(last.det)
      then r + [DetAction(name + "_" + Rationals.NatToString(|r|), prec, last.det, Some(self))]
      else r
  }

  /** `remaining_effects`: the outcomes above `t` inserted one by one. */
  function Kept(ps: seq<ProbEffect>, t: real): seq<ProbEffect> {
    if |ps| == 0 then []
    else
      var r, last := Kept(ps[..|ps| - 1], t), ps[|ps| - 1];
      if last.prob <= t then r else ProbInserted(r, last)
  }

  /** The probability mass of the outcomes above `t`. */
  function MassAbove(ps: seq<ProbEffect>, t: real): real {
    if |ps| == 0 then 0.0
    else MassAbove(ps[..|ps| - 1], t) + (if ps[|ps| - 1].prob > t then ps[|ps| - 1].prob else 0.0)
  }

  /** The probabilities divided by `s`. */
  function Scaled(ps: seq<ProbEffect>, s: real): (r: seq<ProbEffect>)
    requires s != 0.0
    ensures |r| == |ps|
  {
    seq(|ps|, i requires 0 <= i < |ps| => ps[i].(prob := ps[i].prob / s))
  }

  lemma {:induction false} TotalProbScaled(ps: seq<ProbEffect>, s: real)
    requires s != 0.0
    ensures TotalProb(Scaled(ps, s)) == TotalProb(ps) / s
    decreases |ps|
  {
    if |ps| > 0 {
      assert Scaled(ps, s)[1..] == Scaled(ps[1..], s);
      TotalProbScaled(ps[1..], s);
    }
  }

  lemma {:induction false} TotalProbPositive(ps: seq<ProbEffect>)
    requires |ps| > 0 && forall k :: 0 <= k < |ps| ==> ps[k].prob > 0.0
    ensures TotalProb(ps) > 0.0
    decreases |ps|
  {
    if |ps| > 1 {
      TotalProbPositive(ps[1..]);
    }
  }

  /** Every kept outcome lies above the threshold (a merged one holds the
      sum of two such), and the kept mass is the mass above it. */
  lemma {:induction false} KeptAbove(ps: seq<ProbEffect>, t: real)
    requires t >= 0.0
    ensures forall k :: 0 <= k < |Kept(ps, t)| ==> Kept(ps, t)[k].prob > t
    ensures TotalProb(Kept(ps, t)) == MassAbove(ps, t)
    decreases |ps|
  {
    if |ps| > 0 {
      var p, last := ps[..|ps| - 1], ps[|ps| - 1];
      KeptAbove(p, t);
      if last.prob > t {
        var r := Kept(p, t);
        var i := FirstEqual(r, last);
        if i == |r| {
          TotalProbAppend(r, last);
        } else {
          TotalProbUpdate(r, i, r[i].(prob := r[i].prob + last.prob));
        }
      }
    }
  }

  lemma KeptPositive(ps: seq<ProbEffect>, t: real)
    requires t >= 0.0 && |Kept(ps, t)| > 0
    ensures TotalProb(Kept(ps, t)) > 0.0
  {
    KeptAbove(ps, t);
    TotalProbPositive(Kept(ps, t));
  }

  /** What `replanning_split` appends to `result` for the probabilistic
      action `a`, which is action `self` of the problem. */
  function SplitResult(a: Action, self: nat, t: real): seq<Action>
    requires a.ProbAction? && t >= 0.0
  {
    var d, r := SplitOff(a.name, a.prec, self, a.effects, t), Kept(a.effects, t);
    if |d| == 0 then [a]
    else if |r| == 1 then
      (if DetNoOp(r[0].det) then d else d + [DetAction(a.name + "_R", a.prec, r[0].det, Some(self))])
    else if |r| > 1 then
      KeptPositive(a.effects, t);
      d + [ProbAction(a.name + "_R", a.prec, Scaled(r, TotalProb(r)), Some(self))]
    else d
  }

  /** The loop of `replanning_split` over the outcomes: the detachable
      ones become numbered deterministic actions, the others are kept. */
  method SplitOffLoop(a: Action, self: nat, t: real) returns (detached: seq<Action>, remaining: seq<ProbEffect>)
    requires a.ProbAction?
    ensures detached == SplitOff(a.name, a.prec, self, a.effects, t)
    ensures remaining == Kept(a.effects, t)
  {
    var ps := a.effects;
    remaining := [];
    var subactionId := 0;
    detached := [];
    for i := 0 to |ps|
      invariant detached == SplitOff(a.name, a.prec, self, ps[..i], t)
      invariant subactionId == |detached|
      invariant remaining == Kept(ps[..i], t)
    {
      assert ps[..i + 1][..i] == ps[..i];
      if ps[i].prob <= t {
        var empty := DetEmpty(ps[i].det);
        if empty {
          continue;
        }
        var newName := a.name + "_" + Rationals.NatToString(subactionId);
        detached := detached + [DetAction(newName, a.prec, ps[i].det, Some(self))];
        subactionId := subactionId + 1;
      } else {
        remaining := ProbInserted(remaining, ps[i]);
      }
    }
    assert ps[..|ps|] == ps;
  }

  /** The first renormalisation loop: the sum of the kept probabilities. */
  method SumRemaining(remaining: seq<ProbEffect>) returns (sum: real)
    ensures sum == TotalProb(remaining)
  {
    sum := 0.0;
    for i := 0 to |remaining|
      invariant sum == TotalProb(remaining[..i])
    {
      assert remaining[..i + 1] == remaining[..i] + [remaining[i]];
      TotalProbAppend(remaining[..i], remaining[i]);
      sum := sum + remaining[i].prob;
    }
    assert remaining[..|remaining|] == remaining;
  }

  /** The second renormalisation loop: every kept probability divided by
      the sum. */
  method ScaleRemaining(remaining: seq<ProbEffect>, sum: real) returns (scaled: seq<ProbEffect>)
    requires sum != 0.0
    ensures scaled == Scaled(remaining, sum)
  {
    scaled := remaining;
    for i := 0 to |scaled|
      invariant |scaled| == |remaining|
      invariant forall k :: 0 <= k < i ==> scaled[k] == remaining[k].(prob := remaining[k].prob / sum)
      invariant forall k :: i <= k < |remaining| ==> scaled[k] == remaining[k]
    {
      scaled := scaled[i := scaled[i].(prob := scaled[i].prob / sum)];
    }
  }

  /** `probabilisticAction_t::replanning_split`. */
  method ReplanningSplit(a: Action, self: nat, t: real) returns (result: seq<Action>)
    requires a.ProbAction? && t >= 0.0
    ensures result == SplitResult(a, self, t)
  {
    var detached, remaining := SplitOffLoop(a, self, t);
    result := detached;
    if |detached| == 0 {
      result := result + [a];
    } else if |remaining| == 1 {
      var empty := DetEmpty(remaining[0].det);
      if !empty {
        result := result + [DetAction(a.name + "_R", a.prec, remaining[0].det, Some(self))];
      }
    } else if |remaining| > 1 {
      KeptPositive(a.effects, t);
      var sum := SumRemaining(remaining);
      var scaled := ScaleRemaining(remaining, sum);
      result := result + [ProbAction(a.name + "_R", a.prec, scaled, Some(self))];
    }
  }

  /** The detached actions are the detachable outcomes, numbered in order
      and linked to the split action. */
  lemma {:induction false} SplitOffMeaning(name: string, prec: seq<seq<Atom>>, self: nat, ps: seq<ProbEffect>, t: real)
    ensures |SplitOff(name, prec, self, ps, t)| == |Detachable(ps, t)|
    ensures forall k :: 0 <= k < |Detachable(ps, t)| ==>
      SplitOff(name, prec, self, ps, t)[k] ==
        DetAction(name + "_" + Rationals.NatToString(k), prec, Detachable(ps, t)[k].det, Some(self))
    decreases |ps|
  {
    if |ps| > 0 {
      SplitOffMeaning(name, prec, self, ps[..|ps| - 1], t);
    }
  }

  /** An outcome is detached exactly when it is not empty and its
      probability is at most the threshold. */
  lemma {:induction false} DetachableMeaning(ps: seq<ProbEffect>, t: real)
    ensures forall e :: e in Detachable(ps, t) <==> e in ps && e.prob <= t && !DetNoOp(e.det)
    decreases |ps|
  {
    if |ps| > 0 {
      var p := ps[..|ps| - 1];
      DetachableMeaning(p, t);
      assert ps == p + [ps[|ps| - 1]];
    }
  }

  /** When nothing is detached, the result is one clone of the action,
      keeping its own `original_action_` link. */
  lemma SplitNothingIsClone(a: Action, self: nat, t: real)
    requires a.ProbAction? && t >= 0.0
    requires forall i :: 0 <= i < |a.effects| ==> a.effects[i].prob > t || DetNoOp(a.effects[i].det)
    ensures SplitResult(a, self, t) == [a]
  {
    SplitOffMeaning(a.name, a.prec, self, a.effects, t);
    NothingDetachable(a.effects, t);
  }

  lemma {:induction false} NothingDetachable(ps: seq<ProbEffect>, t: real)
    requires forall i :: 0 <= i < |ps| ==> ps[i].prob > t || DetNoOp(ps[i].det)
    ensures Detachable(ps, t) == []
    decreases |ps|
  {
    if |ps| > 0 {
      NothingDetachable(ps[..|ps| - 1], t);
    }
  }

  /** Probabilities divided by their positive sum sum to 1. */
  lemma ScaledSumsToOne(ps: seq<ProbEffect>)
    requires TotalProb(ps) > 0.0
    ensures TotalProb(Scaled(ps, TotalProb(ps))) == 1.0
  {
    var total := TotalProb(ps);
    TotalProbScaled(ps, total);
    assert total / total == 1.0;
  }

  /** When several outcomes remain, the result ends with the remainder
      action `name_R`: probabilistic, linked to the split action, with the
      kept outcomes' probabilities divided by their mass, so that they sum
      to 1. */
  lemma SplitRemainderSumsToOne(a: Action, self: nat, t: real)
    requires a.ProbAction? && t >= 0.0
    requires |Detachable(a.effects, t)| > 0 && |Kept(a.effects, t)| > 1
    ensures MassAbove(a.effects, t) > 0.0
    ensures SplitResult(a, self, t) ==
      SplitOff(a.name, a.prec, self, a.effects, t) +
      [ProbAction(a.name + "_R", a.prec, Scaled(Kept(a.effects, t), MassAbove(a.effects, t)), Some(self))]
    ensures TotalProb(Scaled(Kept(a.effects, t), MassAbove(a.effects, t))) == 1.0
  {
    SplitOffMeaning(a.name, a.prec, self, a.effects, t);
    KeptAbove(a.effects, t);
    KeptPositive(a.effects, t);
    ScaledSumsToOne(Kept(a.effects, t));
  }

  // ---------------------------------------------------------------------
  // The split as written changes the original action
  // ---------------------------------------------------------------------

  /** No two outcomes are equal, as a list built by `insert` is. */
  predicate NoEqualPair(ps: seq<ProbEffect>) {
    forall i, j :: 0 <= i < j < |ps| ==> !DetEq(ps[i].det, ps[j].det)
  }

  /** The outcomes of the ORIGINAL action after `replanning_split` as
      written: `remaining_effects` holds pointers to the original's
      outcomes, so renormalising them through `const_cast` rescales the
      original's kept outcomes as well. */
  function OriginalAfterSplitAsWritten(ps: seq<ProbEffect>, t: real): (r: seq<ProbEffect>)
    requires t >= 0.0 && NoEqualPair(ps)
    ensures |r| == |ps|
  {
    var kept := Kept(ps, t);
    if |Detachable(ps, t)| > 0 && |kept| > 1 then
      KeptPositive(ps, t);
      seq(|ps|, i requires 0 <= i < |ps| =>
        if ps[i].prob > t then ps[i].(prob := ps[i].prob / TotalProb(kept)) else ps[i])
    else ps
  }

  /** Three distinct outcomes of probabilities 0.1, 0.45 and 0.45. */
  function SplitExample(): seq<ProbEffect> {
    [ProbEffect(0.1, DetEffect(StripsEffect([0], [], [0.0]), [])),
     ProbEffect(0.45, DetEffect(StripsEffect([2], [], [0.0]), [])),
     ProbEffect(0.45, DetEffect(StripsEffect([4], [], [0.0]), []))]
  }

  /** The three outcomes of the example add different atoms. */
  lemma SplitExampleDistinct()
    ensures NoEqualPair(SplitExample())
  {
    var ps := SplitExample();
    var e0, e1, e2 := ps[0], ps[1], ps[2];
    assert !SameAtoms(e0.det.strips.add, e1.det.strips.add) by { assert 0 in [0]; }
    assert !SameAtoms(e0.det.strips.add, e2.det.strips.add) by { assert 0 in [0]; }
    assert !SameAtoms(e1.det.strips.add, e2.det.strips.add) by { assert 2 in [2]; }
  }

  /** The example's masses, in all and without its first outcome. */
  lemma SplitExampleMass()
    ensures TotalProb(SplitExample()) == 1.0
    ensures TotalProb(SplitExample()[1..]) == 0.9
  {
    var ps := SplitExample();
    var e0, e1, e2 := ps[0], ps[1], ps[2];
    assert ps[1..] == [e1, e2] && [e1, e2][1..] == [e2] && [e2][1..] == [];
    assert TotalProb([e2]) == 0.45;
  }

  /** Split at 0.2, only the first outcome is light enough to detach. */
  lemma SplitExampleDetached()
    ensures Detachable(SplitExample(), 0.2) == [SplitExample()[0]]
  {
    var ps := SplitExample();
    var e0, e1 := ps[0], ps[1];
    assert ps[..2] == [e0, e1] && [e0, e1][..1] == [e0] && [e0][..0] == [];
    assert !DetNoOp(e0.det);
    assert Detachable([e0], 0.2) == [e0];
    assert Detachable([e0, e1], 0.2) == [e0];
  }

  /** Split at 0.2, the second and third outcomes are kept, in order. */
  lemma SplitExampleKept()
    ensures Kept(SplitExample(), 0.2) == SplitExample()[1..]
  {
    SplitExampleDistinct();
    var ps := SplitExample();
    var e0, e1, e2 := ps[0], ps[1], ps[2];
    assert ps[..2] == [e0, e1] && [e0, e1][..1] == [e0] && [e0][..0] == [];
    assert Kept([e0], 0.2) == [];
    assert Kept([e0, e1], 0.2) == [e1];
    assert FirstEqual([e1], e2) == 1;
    assert ps[1..] == [e1, e2];
  }

  /** Split at 0.2, the first outcome is detached and the other two are
      kept, with mass 0.9. */
  lemma SplitExampleParts()
    ensures NoEqualPair(SplitExample())
    ensures TotalProb(SplitExample()) == 1.0
    ensures Detachable(SplitExample(), 0.2) == [SplitExample()[0]]
    ensures Kept(SplitExample(), 0.2) == SplitExample()[1..]
    ensures TotalProb(SplitExample()[1..]) == 0.9
  {
    SplitExampleDistinct();
    SplitExampleMass();
    SplitExampleDetached();
    SplitExampleKept();
  }

  /** Split at 0.2, the example's original probabilities become 0.1, 0.5
      and 0.5, which sum to 1.1. */
  lemma SplitChangesOriginalAsWritten()
    ensures NoEqualPair(SplitExample()) && TotalProb(SplitExample()) == 1.0
    ensures TotalProb(OriginalAfterSplitAsWritten(SplitExample(), 0.2)) == 1.1
  {
    SplitExampleParts();
    var ps := SplitExample();
    var r := OriginalAfterSplitAsWritten(ps, 0.2);
    var f1, f2 := ps[1].(prob := 0.5), ps[2].(prob := 0.5);
    assert r == [ps[0], f1, f2];
    assert r[1..] == [f1, f2] && [f1, f2][1..] == [f2] && [f2][1..] == [];
    assert TotalProb([f2]) == 0.5;
    assert TotalProb([f1, f2]) == 1.0;
  }

  // ---------------------------------------------------------------------
  // adds_atom and deletes_atom
  // ---------------------------------------------------------------------

  /** The add (`adds`) or delete list of a STRIPS effect. */
  function Part(e: StripsEffect, adds: bool): seq<Atom> {
    if adds then e.add else e.del
  }

  /** The lists `collect_add_atoms` / `collect_del_atoms` visit: those of
      each conditional effect's STRIPS part ... */
  function CondLists(cs: seq<CondEffect>, adds: bool): (ls: seq<seq<Atom>>)
    ensures |ls| == |cs|
  {
    if |cs| == 0 then [] else CondLists(cs[..|cs| - 1], adds) + [Part(cs[|cs| - 1].effect, adds)]
  }

  /** ... those of a deterministic effect: its STRIPS part, then its
      conditional effects ... */
  function DetLists(d: DetEffect, adds: bool): seq<seq<Atom>> {
    [Part(d.strips, adds)] + CondLists(d.conds, adds)
  }

  /** ... and every outcome of a probabilistic action. */
  function ProbLists(ps: seq<ProbEffect>, adds: bool): seq<seq<Atom>> {
    if |ps| == 0 then [] else ProbLists(ps[..|ps| - 1], adds) + DetLists(ps[|ps| - 1].det, adds)
  }

  function ActionLists(a: Action, adds: bool): seq<seq<Atom>> {
    match a
    case DetAction(_, _, d, _) => DetLists(d, adds)
    case ProbAction(_, _, ps, _) => ProbLists(ps, adds)
  }

  /** `x` is on one of the lists. */
  predicate InSome(ls: seq<seq<Atom>>, x: int) {
    exists i :: 0 <= i < |ls| && x in ls[i]
  }

  /** The `atoms.insert(list)` calls of `collect_*_atoms` into an empty
      `atomList_t`. */
  method Collect(ls: seq<seq<Atom>>) returns (acc: seq<int>)
    ensures Sorted(acc)
    ensures forall x :: x in acc <==> InSome(ls, x)
  {
    acc := [];
    for i := 0 to |ls|
      invariant Sorted(acc)
      invariant forall x :: x in acc <==> InSome(ls[..i], x)
    {
      InsertAllMembers(acc, ls[i]);
      assert forall k :: 0 <= k < i ==> ls[..i + 1][k] == ls[..i][k];
      acc := InsertAll(acc, ls[i]);
      assert ls[..i + 1][i] == ls[i];
    }
    assert ls[..|ls|] == ls;
  }

  /** `action_t::adds_atom`: the atom is among the collected add atoms. */
  method AddsAtom(a: Action, atom: Atom) returns (b: bool)
    ensures b <==> InSome(ActionLists(a, true), atom)
  {
    var alist := Collect(ActionLists(a, true));
    b := atom in alist;
  }

  /** `action_t::deletes_atom`. */
  method DeletesAtom(a: Action, atom: Atom) returns (b: bool)
    ensures b <==> InSome(ActionLists(a, false), atom)
  {
    var alist := Collect(ActionLists(a, false));
    b := atom in alist;
  }

  /** For a deterministic action: the atom is on the STRIPS list or on
      some conditional effect's list. */
  lemma DetListsMeaning(d: DetEffect, adds: bool, x: int)
    ensures InSome(DetLists(d, adds), x) <==>
      x in Part(d.strips, adds) || exists i :: 0 <= i < |d.conds| && x in Part(d.conds[i].effect, adds)
  {
    CondListsAt(d.conds, adds);
    var ls := DetLists(d, adds);
    if InSome(ls, x) {
      var i :| 0 <= i < |ls| && x in ls[i];
      if i > 0 {
        assert x in Part(d.conds[i - 1].effect, adds);
      }
    }
    if x in Part(d.strips, adds) {
      assert x in ls[0];
    }
    if exists i :: 0 <= i < |d.conds| && x in Part(d.conds[i].effect, adds) {
      var i :| 0 <= i < |d.conds| && x in Part(d.conds[i].effect, adds);
      assert ls[i + 1] == CondLists(d.conds, adds)[i];
      assert x in ls[i + 1];
    }
  }

  lemma {:induction false} CondListsAt(cs: seq<CondEffect>, adds: bool)
    ensures forall i :: 0 <= i < |cs| ==> CondLists(cs, adds)[i] == Part(cs[i].effect, adds)
    decreases |cs|
  {
    if |cs| > 0 {
      CondListsAt(cs[..|cs| - 1], adds);
    }
  }

  /** For a probabilistic action: the atom is on some outcome's lists. */
  lemma {:induction false} ProbListsMeaning(ps: seq<ProbEffect>, adds: bool, x: int)
    ensures InSome(ProbLists(ps, adds), x) <==> exists k :: 0 <= k < |ps| && InSome(DetLists(ps[k].det, adds), x)
    decreases |ps|
  {
    if |ps| > 0 {
      var p, l := ProbLists(ps[..|ps| - 1], adds), DetLists(ps[|ps| - 1].det, adds);
      ProbListsMeaning(ps[..|ps| - 1], adds, x);
      InSomeAppend(p, l, x);
      if exists k :: 0 <= k < |ps| - 1 && InSome(DetLists(ps[k].det, adds), x) {
        var k :| 0 <= k < |ps| - 1 && InSome(DetLists(ps[k].det, adds), x);
        assert ps[..|ps| - 1][k] == ps[k];
      }
      if exists k :: 0 <= k < |ps| && InSome(DetLists(ps[k].det, adds), x) {
        var k :| 0 <= k < |ps| && InSome(DetLists(ps[k].det, adds), x);
        if k < |ps| - 1 {
          assert ps[..|ps| - 1][k] == ps[k];
        }
      }
    }
  }

  lemma InSomeAppend(p: seq<seq<Atom>>, l: seq<seq<Atom>>, x: int)
    ensures InSome(p + l, x) <==> InSome(p, x) || InSome(l, x)
  {
    if InSome(p + l, x) {
      var i :| 0 <= i < |p + l| && x in (p + l)[i];
      if i >= |p| {
        assert x in l[i - |p|];
      }
    }
    if InSome(p, x) {
      var i :| 0 <= i < |p| && x in p[i];
      assert (p + l)[i] == p[i];
    }
    if InSome(l, x) {
      var i :| 0 <= i < |l| && x in l[i];
      assert (p + l)[|p| + i] == l[i];
    }
  }
}
