/** The generators of extra per-action inputs for an ASNet: an enabled
    flag, landmark-cut flags, heuristic-change flags and an action counter.

    A generator's output is a matrix with one row per action and `ExtraDim`
    columns, as a sequence of rows.  The planner calls it depends on (the
    landmark cutter, the heuristic evaluator) are parameters: the cuts it
    found, the value of the state and the outcomes of each action.
*/
module HeurInputs {
  import opened Wrappers
  import opened ProbDomMeta
  import opened Supervised

  /** The generator classes. */
  datatype Generator = ActionEnabled | RelaxedDeadend | LMCut | Heuristic | ActionCount

  /** `extra_dim`: the number of columns a generator adds per action. */
  function ExtraDim(g: Generator): nat {
    match g
    case ActionEnabled => 1
    case RelaxedDeadend => 0
    case LMCut => 3
    case Heuristic => 4
    case ActionCount => 1
  }

  /** `dim_names`. */
  function DimNames(g: Generator): (r: seq<string>)
    ensures |r| == ExtraDim(g)
  {
    match g
    case ActionEnabled => ["is-enabled"]
    case RelaxedDeadend => []
    case LMCut => ["in-any-cut", "in-singleton-cut", "in-last-cut"]
    case Heuristic => ["heur-disabled", "heur-decrease", "heur-increase", "heur-same"]
    case ActionCount => ["action_count"]
  }

  /** `requires_memory`: only the action counter needs the previous state
      and action. */
  predicate RequiresMemory(g: Generator) {
    g == ActionCount
  }

  /** `is_dead_end`: the generators with an evaluator report a dead end when
      its value reaches the dead-end value; the others never do. */
  function IsDeadEnd(g: Generator, stateValue: real, deadEndValue: real): (r: bool)
    ensures r <==> (g == RelaxedDeadend || g == Heuristic) && stateValue >= deadEndValue
  {
    match g
    case RelaxedDeadend => stateValue >= deadEndValue
    case Heuristic => stateValue >= deadEndValue
    case _ => false
  }

  /** A matrix entry for a flag. */
  function Flag(b: bool): real {
    if b then 1.0 else 0.0
  }

  // ---------------------------------------------------------------------
  // ActionEnabledGenerator and RelaxedDeadendDetector
  // ---------------------------------------------------------------------

  /** One row per action holding 1.0 when it is enabled and 0.0 when not. */
  function EnabledColumn(acts: seq<(BoundAction, bool)>): (r: seq<seq<real>>)
    ensures |r| == |acts|
    ensures forall i :: 0 <= i < |acts| ==> |r[i]| == 1 == ExtraDim(ActionEnabled)
    ensures forall i :: 0 <= i < |acts| ==> (r[i][0] == 1.0 <==> acts[i].1)
    ensures forall i :: 0 <= i < |acts| ==> (r[i][0] == 0.0 <==> !acts[i].1)
  {
    seq(|acts|, i requires 0 <= i < |acts| => [Flag(acts[i].1)])
  }

  /** The relaxed dead-end detector adds rows with no columns. */
  function NoColumns(acts: seq<(BoundAction, bool)>): (r: seq<seq<real>>)
    ensures |r| == |acts|
    ensures forall i :: 0 <= i < |acts| ==> |r[i]| == ExtraDim(RelaxedDeadend)
  {
    seq(|acts|, _ => [])
  }

  // ---------------------------------------------------------------------
  // LMCutDataGenerator
  // ---------------------------------------------------------------------

  const InAnyCut: nat := 0
  const InSingletonCut: nat := 1
  const InLastCut: nat := 2

  /** The rows of a matrix. */
  function Rows(a: array2<real>): (r: seq<seq<real>>)
    reads a
    ensures |r| == a.Length0
    ensures forall i :: 0 <= i < a.Length0 ==> |r[i]| == a.Length1
    ensures forall i, j :: 0 <= i < a.Length0 && 0 <= j < a.Length1 ==> r[i][j] == a[i, j]
  {
    seq(a.Length0, i requires 0 <= i < a.Length0 reads a =>
      seq(a.Length1, j requires 0 <= j < a.Length1 reads a => a[i, j]))
  }

  /* Each cut is given as the set of its action names with their
     parentheses removed, as the generator builds it with `frozenset`. */

  /** The names in any of the cuts. */
  function AnyCutNames(cuts: seq<set<string>>): set<string>
    decreases |cuts|
  {
    if |cuts| == 0 then {}
    else
      var cut := cuts[|cuts| - 1];
      if |cut| >= 1 then AnyCutNames(cuts[..|cuts| - 1]) + cut else AnyCutNames(cuts[..|cuts| - 1])
  }

  /** The names in the cuts that name a single action. */
  function UnaryCutNames(cuts: seq<set<string>>): set<string>
    decreases |cuts|
  {
    if |cuts| == 0 then {}
    else
      var cut := cuts[|cuts| - 1];
      if |cut| == 1 then UnaryCutNames(cuts[..|cuts| - 1]) + cut else UnaryCutNames(cuts[..|cuts| - 1])
  }

  /** The names in the last cut, none when there are no cuts. */
  function LastCutNames(cuts: seq<set<string>>): set<string> {
    if |cuts| > 0 then cuts[|cuts| - 1] else {}
  }

  /** A name is in the set of any cut exactly when some cut names it, and in
      the singleton set exactly when some cut names it alone. */
  lemma {:induction false} CutNamesMeaning(cuts: seq<set<string>>, x: string)
    ensures x in AnyCutNames(cuts) <==> exists k :: 0 <= k < |cuts| && x in cuts[k]
    ensures x in UnaryCutNames(cuts) <==> exists k :: 0 <= k < |cuts| && cuts[k] == {x}
    decreases |cuts|
  {
    if |cuts| > 0 {
      var init := cuts[..|cuts| - 1];
      var last := cuts[|cuts| - 1];
      CutNamesMeaning(init, x);
      assert forall k :: 0 <= k < |init| ==> init[k] == cuts[k];
      if x in last {
        assert |last| >= 1;
        if |last| == 1 {
          SingletonIs(last, x);
        }
      }
      if last == {x} {
        assert |last| == 1;
      }
    }
  }

  lemma SingletonIs(s: set<string>, x: string)
    requires |s| == 1 && x in s
    ensures s == {x}
  {
    var rest := s - {x};
    assert s == rest + {x};
    assert |rest| == 0;
    assert rest == {};
  }

  /** An action in a singleton cut or in the last cut is in some cut, and
      without cuts no action is in the last one. */
  lemma CutFlagsImply(cuts: seq<set<string>>, x: string)
    ensures x in UnaryCutNames(cuts) ==> x in AnyCutNames(cuts)
    ensures x in LastCutNames(cuts) ==> x in AnyCutNames(cuts)
    ensures |cuts| == 0 ==> LastCutNames(cuts) == {}
  {
    CutNamesMeaning(cuts, x);
    if x in LastCutNames(cuts) {
      assert x in cuts[|cuts| - 1];
    }
  }

  /** The loop over the cuts: the names in single-action cuts and the names
      in any cut. */
  method CollectCuts(cuts: seq<set<string>>) returns (inUnaryCut: set<string>, inAnyCut: set<string>)
    ensures inUnaryCut == UnaryCutNames(cuts)
    ensures inAnyCut == AnyCutNames(cuts)
  {
    inUnaryCut, inAnyCut := {}, {};
    var c := 0;
    while c < |cuts|
      invariant 0 <= c <= |cuts|
      invariant inUnaryCut == UnaryCutNames(cuts[..c])
      invariant inAnyCut == AnyCutNames(cuts[..c])
    {
      var cut := cuts[c];
      ghost var next := cuts[..c + 1];
      assert next[..c] == cuts[..c] && next[c] == cut && |next| == c + 1;
      if |cut| == 1 {
        inUnaryCut := inUnaryCut + cut;
      }
      if |cut| >= 1 {
        inAnyCut := inAnyCut + cut;
      }
      c := c + 1;
    }
    assert cuts[..|cuts|] == cuts;
  }

  /** `[a.unique_ident for a, _ in acts_enabled]`. */
  function ActNames(acts: seq<(BoundAction, bool)>): (r: seq<string>)
    ensures |r| == |acts| && forall i :: 0 <= i < |acts| ==> r[i] == ActIdent(acts[i].0)
  {
    seq(|acts|, i requires 0 <= i < |acts| => ActIdent(acts[i].0))
  }

  /** The body of the loop over the actions: the flags of row `idx`. */
  method FlagCutRow(out: array2<real>, idx: nat, actName: string,
                    inUnaryCut: set<string>, inAnyCut: set<string>, inLastCut: set<string>)
    requires idx < out.Length0 && out.Length1 == 3
    requires forall j :: 0 <= j < 3 ==> out[idx, j] == 0.0
    modifies out
    ensures out[idx, InAnyCut] == Flag(actName in inAnyCut)
    ensures out[idx, InSingletonCut] == Flag(actName in inUnaryCut)
    ensures out[idx, InLastCut] == Flag(actName in inLastCut)
    ensures forall i, j :: 0 <= i < out.Length0 && i != idx && 0 <= j < 3 ==> out[i, j] == old(out[i, j])
  {
    if actName in inUnaryCut {
      out[idx, InSingletonCut] := 1.0;
    }
    if actName in inAnyCut {
      out[idx, InAnyCut] := 1.0;
    }
    if actName in inLastCut {
      out[idx, InLastCut] := 1.0;
    }
  }

  /** `LMCutDataGenerator.get_extra_data_no_memory`, given the cuts the
      cutter returns: per action, whether it is in any cut, in a cut of one
      action and in the last cut. */
  method LMCutFlags(acts: seq<(BoundAction, bool)>, cuts: seq<set<string>>) returns (r: seq<seq<real>>)
    ensures |r| == |acts|
    ensures forall i :: 0 <= i < |acts| ==> |r[i]| == 3 == ExtraDim(LMCut)
    ensures forall i :: 0 <= i < |acts| ==>
      r[i][InAnyCut] == Flag(ActIdent(acts[i].0) in AnyCutNames(cuts)) &&
      r[i][InSingletonCut] == Flag(ActIdent(acts[i].0) in UnaryCutNames(cuts)) &&
      r[i][InLastCut] == Flag(ActIdent(acts[i].0) in LastCutNames(cuts))
  {
    var inUnaryCut, inAnyCut := CollectCuts(cuts);
    var inLastCut: set<string>;
    if |cuts| > 0 {
      inLastCut := cuts[|cuts| - 1];
    } else {
      inLastCut := {};
    }
    var allActNames := ActNames(acts);
    var out := new real[|acts|, 3]((_, _) => 0.0);
    var idx := 0;
    while idx < |acts|
      invariant 0 <= idx <= |acts|
      invariant forall i :: 0 <= i < |acts| ==>
        out[i, InAnyCut] == (if i < idx then Flag(allActNames[i] in inAnyCut) else 0.0)
      invariant forall i :: 0 <= i < |acts| ==>
        out[i, InSingletonCut] == (if i < idx then Flag(allActNames[i] in inUnaryCut) else 0.0)
      invariant forall i :: 0 <= i < |acts| ==>
        out[i, InLastCut] == (if i < idx then Flag(allActNames[i] in inLastCut) else 0.0)
    {
      FlagCutRow(out, idx, allActNames[idx], inUnaryCut, inAnyCut, inLastCut);
      idx := idx + 1;
    }
    assert ExtraDim(LMCut) == 3;
    r := Rows(out);
  }

  // ---------------------------------------------------------------------
  // HeuristicDataGenerator
  // ---------------------------------------------------------------------

  const Disabled: nat := 0
  const Decrease: nat := 1
  const Increase: nat := 2
  const Same: nat := 3

  /** `min(val for _, val in succ_probs_vals)`. */
  function MinValue(outcomes: seq<(real, real)>): (m: real)
    requires |outcomes| > 0
    ensures forall k :: 0 <= k < |outcomes| ==> m <= outcomes[k].1
    ensures exists k :: 0 <= k < |outcomes| && m == outcomes[k].1
    decreases |outcomes|
  {
    if |outcomes| == 1 then outcomes[0].1
    else
      var rest := MinValue(outcomes[1..]);
      assert forall k :: 1 <= k < |outcomes| ==> outcomes[k] == outcomes[1..][k - 1];
      if outcomes[0].1 <= rest then outcomes[0].1 else rest
  }

  /** The column a heuristic row sets. */
  function HeurColumn(enabled: bool, best: real, stateValue: real): nat {
    if !enabled then Disabled
    else if best < stateValue then Decrease
    else if best == stateValue then Same
    else Increase
  }

  /** The best outcome of an enabled action, from the evaluator's
      (probability, value) pairs of its successors. */
  function BestOutcome(a: (BoundAction, bool), succ: string -> seq<(real, real)>): real
    requires |succ(ActIdent(a.0))| > 0
  {
    MinValue(succ(ActIdent(a.0)))
  }

  /** Every enabled action has at least one successor outcome. */
  predicate HasOutcomes(acts: seq<(BoundAction, bool)>, succ: string -> seq<(real, real)>) {
    forall k :: 0 <= k < |acts| && acts[k].1 ==> |succ(ActIdent(acts[k].0))| > 0
  }

  /** `HeuristicDataGenerator.get_extra_data_no_memory`, given the value of
      the state and the successor outcomes of each action: one-hot rows
      saying whether the action is disabled or whether its best outcome is
      below, equal to or above the value of the state. Python's `min`
      fails with ValueError when an enabled action has no outcomes. */
  method HeuristicFlags(acts: seq<(BoundAction, bool)>, stateValue: real, succ: string -> seq<(real, real)>)
    returns (r: Result<seq<seq<real>>>)
    ensures r.Ok? <==> HasOutcomes(acts, succ)
    ensures r.Err? ==> r.failure == ValueError
    ensures r.Ok? ==> |r.value| == |acts|
    ensures r.Ok? ==> forall i :: 0 <= i < |acts| ==> |r.value[i]| == 4 == ExtraDim(Heuristic)
    ensures r.Ok? ==> forall i, j :: 0 <= i < |acts| && 0 <= j < 4 ==>
      r.value[i][j] == Flag(j == HeurColumn(acts[i].1,
        if acts[i].1 then BestOutcome(acts[i], succ) else 0.0, stateValue))
  {
    var out := new real[|acts|, ExtraDim(Heuristic)]((_, _) => 0.0);
    var idx := 0;
    while idx < |acts|
      invariant 0 <= idx <= |acts|
      invariant forall k :: 0 <= k < idx && acts[k].1 ==> |succ(ActIdent(acts[k].0))| > 0
      invariant forall i, j :: 0 <= i < |acts| && 0 <= j < 4 ==>
        out[i, j] == (if i < idx then Flag(j == HeurColumn(acts[i].1,
           if acts[i].1 then BestOutcome(acts[i], succ) else 0.0, stateValue)) else 0.0)
    {
      var (boundAct, enabled) := acts[idx];
      var actName := ActIdent(boundAct);
      if !enabled {
        out[idx, Disabled] := 1.0;
      } else {
        var succProbsVals := succ(actName);
        if |succProbsVals| == 0 {
          return Err(ValueError);
        }
        var bestOutcome := MinValue(succProbsVals);
        if bestOutcome < stateValue {
          out[idx, Decrease] := 1.0;
        } else if bestOutcome == stateValue {
          out[idx, Same] := 1.0;
        } else {
          out[idx, Increase] := 1.0;
        }
      }
      idx := idx + 1;
    }
    return Ok(Rows(out));
  }

  /** Each heuristic row is one-hot: it sets exactly one of the four
      columns, the disabled one exactly for disabled actions. */
  lemma HeurRowOneHot(enabled: bool, best: real, stateValue: real)
    ensures HeurColumn(enabled, best, stateValue) < ExtraDim(Heuristic)
    ensures HeurColumn(enabled, best, stateValue) == Disabled <==> !enabled
    ensures enabled ==>
      (HeurColumn(enabled, best, stateValue) == Decrease <==> best < stateValue) &&
      (HeurColumn(enabled, best, stateValue) == Same <==> best == stateValue) &&
      (HeurColumn(enabled, best, stateValue) == Increase <==> best > stateValue)
  {
  }

  // ---------------------------------------------------------------------
  // ActionCountDataGenerator
  // ---------------------------------------------------------------------

  /** What the action counter reads of the previous state: its flat extra
      data and the column of each named extra input. */
  datatype PrevAux = PrevAux(auxData: seq<real>, interpToId: map<string, nat>)

  /** `v` is the largest value of `m`. */
  predicate IsMaxValue(m: map<string, nat>, v: nat) {
    v in m.Values && forall w :: w in m.Values ==> w <= v
  }

  /** `max(d.values())`: ValueError for an empty dictionary. */
  method MaxValue(m: map<string, nat>) returns (r: Result<nat>)
    ensures r.Ok? <==> |m| > 0
    ensures r.Err? ==> r.failure == ValueError
    ensures r.Ok? ==> IsMaxValue(m, r.value)
  {
    if |m| == 0 {
      return Err(ValueError);
    }
    var k0 :| k0 in m;
    var best := m[k0];
    var rest := m.Values - {best};
    while rest != {}
      invariant rest <= m.Values && best in m.Values
      invariant forall w :: w in m.Values && w !in rest ==> w <= best
      decreases |rest|
    {
      var v :| v in rest;
      if v > best {
        best := v;
      }
      rest := rest - {v};
    }
    return Ok(best);
  }

  /** Every non-empty dictionary of columns has a largest column index. */
  lemma {:induction false} MaxValueExists(m: map<string, nat>)
    requires |m| > 0
    ensures exists v :: IsMaxValue(m, v)
  {
    var k :| k in m;
    assert m[k] in m.Values;
    var v := LargestOf(m.Values);
    assert IsMaxValue(m, v);
  }

  /** The largest member of a non-empty finite set of naturals. */
  lemma {:induction false} LargestOf(vs: set<nat>) returns (v: nat)
    requires vs != {}
    ensures v in vs && forall w :: w in vs ==> w <= v
    decreases |vs|
  {
    var x :| x in vs;
    if vs == {x} {
      return x;
    }
    var u := LargestOf(vs - {x});
    v := if x > u then x else u;
    forall w | w in vs
      ensures w <= v
    {
      if w != x {
        assert w in vs - {x};
      }
    }
  }

  /** `max(prev_cstate._aux_data_interp_to_id.values())`. */
  ghost function Width(m: map<string, nat>): (w: nat)
    requires |m| > 0
    ensures IsMaxValue(m, w)
  {
    MaxValueExists(m);
    var w :| IsMaxValue(m, w); w
  }

  /** Past the initial state the counter finds everything it reads: a
      largest column index, a flat extra-data length the reshape accepts,
      the `action_count` column, the previous action's index and a count
      entry at that index. */
  ghost predicate CountInputsFound(pm: ProblemMeta, prev: PrevAux, prevAct: BoundAction) {
    |prev.interpToId| > 0 && |prev.auxData| % (Width(prev.interpToId) + 1) == 0 &&
    "action_count" in prev.interpToId && ActUniqueIdToIndex(pm, ActIdent(prevAct)).Ok? &&
    ActUniqueIdToIndex(pm, ActIdent(prevAct)).value < |prev.auxData| / (Width(prev.interpToId) + 1)
  }

  /** The counts past the initial state: the `action_count` column of the
      previous state's extra data with one more at the previous action. */
  ghost function CountedColumn(pm: ProblemMeta, prev: PrevAux, prevAct: BoundAction): seq<real>
    requires CountInputsFound(pm, prev, prevAct)
  {
    var m := prev.interpToId;
    assert m["action_count"] in m.Values;
    Bump(ColumnOf(prev.auxData, Width(m) + 1, m["action_count"]), ActUniqueIdToIndex(pm, ActIdent(prevAct)).value)
  }

  /** The counter past the initial state, failing as the source does at
      its first missing input: ValueError from `max` of no columns or from
      the reshape, KeyError for the missing column or the unknown action,
      IndexError past the count column. */
  ghost function CountResult(pm: ProblemMeta, prev: PrevAux, prevAct: BoundAction): (r: Result<seq<seq<real>>>)
    ensures r.Ok? <==> CountInputsFound(pm, prev, prevAct)
    ensures r.Ok? ==> r.value == AsRows(CountedColumn(pm, prev, prevAct))
    ensures r.Err? ==> r.failure == ValueError || r.failure == KeyError || r.failure == IndexError
  {
    var m := prev.interpToId;
    var actId := ActUniqueIdToIndex(pm, ActIdent(prevAct));
    if |m| == 0 || |prev.auxData| % (Width(m) + 1) != 0 then Err(ValueError)
    else if "action_count" !in m || actId.Err? then Err(KeyError)
    else if actId.value >= |prev.auxData| / (Width(m) + 1) then Err(IndexError)
    else Ok(AsRows(CountedColumn(pm, prev, prevAct)))
  }

  /** `reshape((-1, 1))`: one single-entry row per entry. */
  function AsRows(col: seq<real>): (r: seq<seq<real>>)
    ensures |r| == |col| && forall k :: 0 <= k < |col| ==> r[k] == [col[k]]
  {
    seq(|col|, k requires 0 <= k < |col| => [col[k]])
  }

  /** The counts after `prev` was taken: one more at its index. */
  function Bump(col: seq<real>, k: nat): (r: seq<real>)
    ensures |r| == |col|
  {
    if k < |col| then col[k := col[k] + 1.0] else col
  }

  /** The counts after a run of actions, from zeros. */
  function Counts(n: nat, taken: seq<nat>): (r: seq<real>)
    ensures |r| == n
    decreases |taken|
  {
    if |taken| == 0 then seq(n, _ => 0.0)
    else Bump(Counts(n, taken[..|taken| - 1]), taken[|taken| - 1])
  }

  /** Counting from zeros at the initial state and bumping the previous
      action at each later one gives each action the number of times it was
      taken. */
  lemma {:induction false} CountsMeaning(n: nat, taken: seq<nat>)
    requires forall t :: 0 <= t < |taken| ==> taken[t] < n
    ensures forall j :: 0 <= j < n ==> Counts(n, taken)[j] == multiset(taken)[j] as real
    decreases |taken|
  {
    if |taken| > 0 {
      var init := taken[..|taken| - 1];
      CountsMeaning(n, init);
      assert taken == init + [taken[|taken| - 1]];
    }
  }

  lemma ColumnIndexInRange(rows: nat, width: nat, k: nat, col: nat)
    requires k < rows && col < width
    ensures k * width + col < rows * width
  {
    var j: nat := rows - k - 1;
    assert rows * width == k * width + width + j * width;
    assert j * width >= 0;
  }

  /** Column `col` of a flat matrix with `width` columns. */
  function ColumnOf(aux: seq<real>, width: nat, col: nat): (r: seq<real>)
    requires width > 0 && col < width && |aux| % width == 0
    ensures |r| == |aux| / width
  {
    var rows := |aux| / width;
    assert |aux| == rows * width;
    seq(rows, k requires 0 <= k < rows => ColumnIndexInRange(rows, width, k, col); aux[k * width + col])
  }

  /** `ActionCountDataGenerator.get_extra_data_with_memory`: zeros at the
      initial state; otherwise the count column of the previous state with
      the previous action's entry incremented. The errors are those of
      `max` on no extra inputs, of the reshape, of the missing count column,
      of an unknown action and of an index past the column. */
  method ActionCountData(pm: ProblemMeta, numActs: nat, isInit: bool, prev: PrevAux, prevAct: BoundAction)
    returns (r: Result<seq<seq<real>>>)
    ensures isInit ==> r == Ok(seq(numActs, _ => [0.0]))
    ensures !isInit && r.Ok? ==>
      |prev.interpToId| > 0 && "action_count" in prev.interpToId &&
      ActUniqueIdToIndex(pm, ActIdent(prevAct)).Ok? &&
      exists width: nat :: IsMaxValue(prev.interpToId, width) &&
        prev.interpToId["action_count"] <= width &&
        |prev.auxData| % (width + 1) == 0 &&
        var col := ColumnOf(prev.auxData, width + 1, prev.interpToId["action_count"]);
        var actId := ActUniqueIdToIndex(pm, ActIdent(prevAct)).value;
        actId < |col| &&
        |r.value| == |col| &&
        forall k :: 0 <= k < |col| ==> r.value[k] == [Bump(col, actId)[k]]
    ensures !isInit && |prev.interpToId| == 0 ==> r == Err(ValueError)
    ensures !isInit && |prev.interpToId| > 0 && "action_count" !in prev.interpToId ==> r.Err?
    ensures !isInit && ActUniqueIdToIndex(pm, ActIdent(prevAct)).Err? ==> r.Err?
    ensures !isInit ==> r == CountResult(pm, prev, prevAct)
  {
    if isInit {
      return Ok(seq(numActs, _ => [0.0]));
    }
    var maxId := MaxValue(prev.interpToId);
    if maxId.Err? {
      return Err(maxId.failure);
    }
    assert maxId.value == Width(prev.interpToId);
    var extraDim := maxId.value + 1;
    if |prev.auxData| % extraDim != 0 {
      return Err(ValueError);
    }
    if "action_count" !in prev.interpToId {
      return Err(KeyError);
    }
    var prevDimId := prev.interpToId["action_count"];
    assert prevDimId in prev.interpToId.Values;
    var col := ColumnOf(prev.auxData, extraDim, prevDimId);
    var auxData1d := new real[|col|](k requires 0 <= k < |col| => col[k]);
    var actId := ActUniqueIdToIndex(pm, ActIdent(prevAct));
    if actId.Err? {
      NameLookupsMeaning(pm, ActIdent(prevAct));
      return Err(KeyError);
    }
    if actId.value >= auxData1d.Length {
      return Err(IndexError);
    }
    auxData1d[actId.value] := auxData1d[actId.value] + 1.0;
    assert auxData1d[..] == Bump(col, actId.value) == CountedColumn(pm, prev, prevAct);
    r := Ok(AsRows(auxData1d[..]));
    assert IsMaxValue(prev.interpToId, maxId.value);
  }

  // ---------------------------------------------------------------------
  // get_extra_data
  // ---------------------------------------------------------------------

  /** `get_extra_data`: a generator with memory asserts that the
      initial-state flag is given and that the state is initial or the
      previous state and action are given, and is then called with them; any
      other generator is called on the state alone.  The state is its
      enabled-action list `acts`; the landmark cuts, the state value with the
      successor values, and the problem are what the generators read from the
      planner.  Every result has one row of `extra_dim` entries per row it
      covers, which is every action of the state unless the counter reads its
      rows from the previous state. */
  method GetExtraData(g: Generator, acts: seq<(BoundAction, bool)>, cuts: seq<set<string>>,
                      stateValue: real, succ: string -> seq<(real, real)>, pm: ProblemMeta,
                      isInit: Option<bool>, prev: Option<PrevAux>, prevAct: Option<BoundAction>)
    returns (r: Result<seq<seq<real>>>)
    ensures RequiresMemory(g) && !(isInit.Some? && (isInit.value || (prev.Some? && prevAct.Some?))) ==>
      r == Err(AssertionError)
    ensures !RequiresMemory(g) ==> (r.Ok? <==> g != Heuristic || HasOutcomes(acts, succ))
    ensures r.Ok? ==> forall i :: 0 <= i < |r.value| ==> |r.value[i]| == ExtraDim(g)
    ensures r.Ok? && (g != ActionCount || isInit == Some(true)) ==> |r.value| == |acts|
    ensures g == ActionEnabled ==> r == Ok(EnabledColumn(acts))
    ensures g == RelaxedDeadend ==> r == Ok(NoColumns(acts))
    ensures g == ActionCount && isInit == Some(true) ==> r == Ok(seq(|acts|, _ => [0.0]))
    ensures RequiresMemory(g) && isInit.Some? && (isInit.value || (prev.Some? && prevAct.Some?)) ==>
      r != Err(AssertionError)
    ensures g == ActionCount && isInit == Some(false) && prev.Some? && prevAct.Some? ==>
      (r.Ok? <==> CountInputsFound(pm, prev.value, prevAct.value)) &&
      (r.Ok? ==> r.value == AsRows(CountedColumn(pm, prev.value, prevAct.value)))
    ensures g == LMCut ==> r.Ok? && |r.value| == |acts| && forall i :: 0 <= i < |acts| ==>
      |r.value[i]| == 3 &&
      r.value[i][InAnyCut] == Flag(ActIdent(acts[i].0) in AnyCutNames(cuts)) &&
      r.value[i][InSingletonCut] == Flag(ActIdent(acts[i].0) in UnaryCutNames(cuts)) &&
      r.value[i][InLastCut] == Flag(ActIdent(acts[i].0) in LastCutNames(cuts))
    ensures g == Heuristic ==> (r.Ok? <==> HasOutcomes(acts, succ))
    ensures g == Heuristic && r.Err? ==> r.failure == ValueError
    ensures g == Heuristic && r.Ok? ==> |r.value| == |acts| && forall i, j :: 0 <= i < |acts| && 0 <= j < 4 ==>
      |r.value[i]| == 4 && r.value[i][j] == Flag(j == HeurColumn(acts[i].1,
        if acts[i].1 then BestOutcome(acts[i], succ) else 0.0, stateValue))
  {
    if RequiresMemory(g) {
      if isInit.None? || !(isInit.value || (prev.Some? && prevAct.Some?)) {
        return Err(AssertionError);
      }
      if isInit.value {
        // The counter's initial branch reads neither the previous state
        // nor the previous action.
        return Ok(seq(|acts|, _ => [0.0]));
      }
      r := ActionCountData(pm, |acts|, false, prev.value, prevAct.value);
      return;
    }
    match g
    case ActionEnabled => r := Ok(EnabledColumn(acts));
    case RelaxedDeadend => r := Ok(NoColumns(acts));
    case LMCut =>
      var rows := LMCutFlags(acts, cuts);
      r := Ok(rows);
    case Heuristic => r := HeuristicFlags(acts, stateValue, succ);
  }
}
