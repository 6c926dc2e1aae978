/** The ASNets problem and domain metadata: lifted and ground propositions
  and actions, their identifiers and orders, and the index tables that
  tell the network which proposition or action sits at which input slot.

  Every object here is immutable after construction and every method only
  builds a fresh list, so the model is made of datatypes and functions.
  Python's ways of failing in this file (ValueError, TypeError,
  IndexError, KeyError and a failing `assert`) become `Err` results.
*/
module ProbDomMeta {
  import opened Wrappers
  import opened PyOps
  import Utils

  // ---------------------------------------------------------------------
  // BoundProp
  // ---------------------------------------------------------------------

  /** A ground proposition. */
  datatype BoundProp = BoundProp(predName: string, arguments: seq<string>)

  /** `unique_ident`: the predicate and its arguments joined by single
      spaces, SSiPP style ("on a b"). */
  function PropIdent(p: BoundProp): string {
    Utils.Join([p.predName] + p.arguments, ' ')
  }

  /** `==` on ground propositions compares identifiers only. */
  predicate PropEq(p: BoundProp, q: BoundProp) {
    PropIdent(p) == PropIdent(q)
  }

  /** `<` on ground propositions compares identifiers only. */
  predicate PropLess(p: BoundProp, q: BoundProp) {
    StrLess(PropIdent(p), PropIdent(q))
  }

  /** A name with no space in it, as PDDL names are. */
  predicate SpaceFree(s: string) {
    ' ' !in s
  }

  predicate AllSpaceFree(ss: seq<string>) {
    forall i :: 0 <= i < |ss| ==> SpaceFree(ss[i])
  }

  /** The pieces of an identifier built from space-free names. */
  lemma IdentPieces(head: string, rest: seq<string>)
    requires SpaceFree(head) && AllSpaceFree(rest)
    ensures Utils.Pieces(Utils.Join([head] + rest, ' '), ' ') == [head] + rest
  {
    var ps := [head] + rest;
    forall k | 0 <= k < |ps|
      ensures ' ' !in ps[k]
    {
      if k > 0 {
        assert ps[k] == rest[k - 1];
      }
    }
    Utils.JoinPieces(ps, ' ');
  }

  /** For propositions whose names contain no space, comparing identifiers
      is comparing predicate and arguments. */
  lemma PropEqIsEquality(p: BoundProp, q: BoundProp)
    requires SpaceFree(p.predName) && AllSpaceFree(p.arguments)
    requires SpaceFree(q.predName) && AllSpaceFree(q.arguments)
    ensures PropEq(p, q) <==> p == q
  {
    if PropEq(p, q) {
      IdentPieces(p.predName, p.arguments);
      IdentPieces(q.predName, q.arguments);
      var ps, qs := [p.predName] + p.arguments, [q.predName] + q.arguments;
      assert ps == qs;
      assert p.predName == ps[0] && q.predName == qs[0];
      assert p.arguments == ps[1..] && q.arguments == qs[1..];
    }
  }

  /** Identifiers alone decide equality: a predicate name holding a space
      makes two different propositions compare equal. */
  lemma PropEqIgnoresStructure()
    ensures PropEq(BoundProp("on a", []), BoundProp("on", ["a"]))
    ensures BoundProp("on a", []) != BoundProp("on", ["a"])
  {
    assert Utils.Join(["on a"], ' ') == "on a";
    assert Utils.Join(["on", "a"], ' ') == "on" + [' '] + Utils.Join(["a"], ' ');
  }

  /** `<` on ground propositions is a strict total order up to `==`. */
  lemma PropOrder(p: BoundProp, q: BoundProp, r: BoundProp)
    ensures !PropLess(p, p)
    ensures PropLess(p, q) && PropLess(q, r) ==> PropLess(p, r)
    ensures PropLess(p, q) || PropEq(p, q) || PropLess(q, p)
    ensures PropLess(p, q) ==> !PropEq(p, q)
  {
    StrLessIrreflexive(PropIdent(p));
    if PropLess(p, q) && PropLess(q, r) {
      StrLessTransitive(PropIdent(p), PropIdent(q), PropIdent(r));
    }
    StrLessTotal(PropIdent(p), PropIdent(q));
  }

  // ---------------------------------------------------------------------
  // UnboundProp.bind
  // ---------------------------------------------------------------------

  /** A proposition that may have free parameters (names starting with '?'). */
  datatype UnboundProp = UnboundProp(predName: string, params: seq<string>)

  /** A parameter the loop of `bind` gets past: it has a first character,
      and if that is '?' the bindings name it. */
  predicate Bindable(param: string, bindings: map<string, string>) {
    |param| > 0 && (param[0] == '?' ==> param in bindings)
  }

  /** What `bind` puts in place of a parameter it gets past. */
  function BoundArg(param: string, bindings: map<string, string>): string
    requires Bindable(param, bindings)
  {
    if param[0] == '?' then bindings[param] else param
  }

  /** How `bind` stops at a parameter it cannot get past: indexing an empty
      name, or a '?' parameter without a binding. */
  function BindFailure(param: string): Failure {
    if |param| == 0 then IndexError else ValueError
  }

  function Prepend(x: string, r: Result<seq<string>>): Result<seq<string>> {
    if r.Err? then r else Ok([x] + r.value)
  }

  /** The loop of `bind` over the parameters. */
  function BindParams(params: seq<string>, bindings: map<string, string>): Result<seq<string>>
    decreases |params|
  {
    if |params| == 0 then Ok([])
    else if !Bindable(params[0], bindings) then Err(BindFailure(params[0]))
    else Prepend(BoundArg(params[0], bindings), BindParams(params[1..], bindings))
  }

  /** `UnboundProp.bind(bindings)`. */
  function BindProp(u: UnboundProp, bindings: map<string, string>): Result<BoundProp> {
    match BindParams(u.params, bindings)
    case Ok(args) => Ok(BoundProp(u.predName, args))
    case Err(f) => Err(f)
  }

  /** `bind` succeeds exactly when every parameter is bindable; then the
      i-th argument is the binding of a '?' parameter and the parameter
      itself otherwise, and a failure is that of the first parameter that
      is not bindable. */
  lemma {:induction false} BindParamsMeaning(params: seq<string>, bindings: map<string, string>)
    ensures BindParams(params, bindings).Ok? <==>
      forall i :: 0 <= i < |params| ==> Bindable(params[i], bindings)
    ensures BindParams(params, bindings).Ok? ==>
      var args := BindParams(params, bindings).value;
      |args| == |params| &&
      forall i :: 0 <= i < |params| ==> args[i] == BoundArg(params[i], bindings)
    ensures BindParams(params, bindings).Err? ==>
      exists k :: 0 <= k < |params| && !Bindable(params[k], bindings) &&
        (forall i :: 0 <= i < k ==> Bindable(params[i], bindings)) &&
        BindParams(params, bindings).failure == BindFailure(params[k])
    decreases |params|
  {
    if |params| > 0 {
      if !Bindable(params[0], bindings) {
        assert !Bindable(params[0], bindings);
      } else {
        var rest := params[1..];
        BindParamsMeaning(rest, bindings);
        assert forall i :: 0 < i < |params| ==> params[i] == rest[i - 1];
        if BindParams(rest, bindings).Err? {
          var k :| 0 <= k < |rest| && !Bindable(rest[k], bindings) &&
            (forall i :: 0 <= i < k ==> Bindable(rest[i], bindings)) &&
            BindParams(rest, bindings).failure == BindFailure(rest[k]);
          assert !Bindable(params[k + 1], bindings);
        } else {
          var args := BindParams(params, bindings).value;
          assert args == [BoundArg(params[0], bindings)] + BindParams(rest, bindings).value;
        }
      }
    }
  }

  /** `bind` keeps the predicate, binds every parameter it can and fails
      with ValueError on a '?' parameter that has no binding. */
  lemma BindPropMeaning(u: UnboundProp, bindings: map<string, string>)
    ensures BindProp(u, bindings).Ok? <==>
      forall i :: 0 <= i < |u.params| ==> Bindable(u.params[i], bindings)
    ensures BindProp(u, bindings).Ok? ==>
      var p := BindProp(u, bindings).value;
      p.predName == u.predName && |p.arguments| == |u.params| &&
      forall i :: 0 <= i < |u.params| ==> p.arguments[i] == BoundArg(u.params[i], bindings)
    ensures (forall i :: 0 <= i < |u.params| ==> |u.params[i]| > 0) && BindProp(u, bindings).Err? ==>
      BindProp(u, bindings).failure == ValueError
  {
    BindParamsMeaning(u.params, bindings);
  }

  /** Only the bindings of the proposition's own '?' parameters matter. */
  lemma {:induction false} BindParamsLocal(params: seq<string>, b1: map<string, string>, b2: map<string, string>)
    requires forall i :: 0 <= i < |params| && |params[i]| > 0 && params[i][0] == '?' ==>
      (params[i] in b1 <==> params[i] in b2) && (params[i] in b1 ==> b1[params[i]] == b2[params[i]])
    ensures BindParams(params, b1) == BindParams(params, b2)
    decreases |params|
  {
    if |params| > 0 {
      BindParamsLocal(params[1..], b1, b2);
    }
  }

  // ---------------------------------------------------------------------
  // UnboundAction and BoundAction
  // ---------------------------------------------------------------------

  /** An action schema: equality compares name, parameters and relevant
      propositions, all three. */
  datatype UnboundAction = UnboundAction(schemaName: string, paramNames: seq<string>, relProps: seq<UnboundProp>)

  /** `num_slots`: one slot per relevant proposition. */
  function NumSlots(a: UnboundAction): nat {
    |a.relProps|
  }

  /** `<` on schemas: the tuple (schema_name, param_names) only. */
  predicate SchemaLess(a: UnboundAction, b: UnboundAction) {
    StrLess(a.schemaName, b.schemaName) ||
    (a.schemaName == b.schemaName && StrsLess(a.paramNames, b.paramNames))
  }

  /** `<` on schemas is a strict order, and two schemas that differ only
      in their relevant propositions are not ordered either way. */
  lemma SchemaOrder(a: UnboundAction, b: UnboundAction, c: UnboundAction)
    ensures !SchemaLess(a, a)
    ensures SchemaLess(a, b) && SchemaLess(b, c) ==> SchemaLess(a, c)
    ensures a.schemaName == b.schemaName && a.paramNames == b.paramNames ==>
      !SchemaLess(a, b) && !SchemaLess(b, a)
  {
    StrLessIrreflexive(a.schemaName);
    StrsLessIrreflexive(a.paramNames);
    if SchemaLess(a, b) && SchemaLess(b, c) {
      if StrLess(a.schemaName, b.schemaName) && StrLess(b.schemaName, c.schemaName) {
        StrLessTransitive(a.schemaName, b.schemaName, c.schemaName);
      } else if a.schemaName == b.schemaName && b.schemaName == c.schemaName {
        StrsLessTransitive(a.paramNames, b.paramNames, c.paramNames);
      }
    }
  }

  /** A ground action. */
  datatype BoundAction = BoundAction(prototype: UnboundAction, arguments: seq<string>, props: seq<BoundProp>)

  /** `unique_ident`: the schema name and the arguments joined by single
      spaces. */
  function ActIdent(g: BoundAction): string {
    Utils.Join([g.prototype.schemaName] + g.arguments, ' ')
  }

  predicate ActEq(g: BoundAction, h: BoundAction) {
    ActIdent(g) == ActIdent(h)
  }

  predicate ActLess(g: BoundAction, h: BoundAction) {
    StrLess(ActIdent(g), ActIdent(h))
  }

  /** `<` on ground actions is a strict total order up to `==`. */
  lemma ActOrder(g: BoundAction, h: BoundAction, k: BoundAction)
    ensures !ActLess(g, g)
    ensures ActLess(g, h) && ActLess(h, k) ==> ActLess(g, k)
    ensures ActLess(g, h) || ActEq(g, h) || ActLess(h, g)
    ensures ActLess(g, h) ==> !ActEq(g, h)
  {
    StrLessIrreflexive(ActIdent(g));
    if ActLess(g, h) && ActLess(h, k) {
      StrLessTransitive(ActIdent(g), ActIdent(h), ActIdent(k));
    }
    StrLessTotal(ActIdent(g), ActIdent(h));
  }

  /** The argument of `UnboundAction.bind`: a list of names, a `str`
      (whose characters are then the arguments), or any other value. */
  datatype ActArgs = ArgList(items: seq<string>) | ArgStr(text: string) | OtherValue

  /** The arguments `bind` zips with the parameter names. */
  function ArgItems(args: ActArgs): (r: seq<string>)
    requires !args.OtherValue?
    ensures args.ArgList? ==> r == args.items
    ensures args.ArgStr? ==> |r| == |args.text| && forall i :: 0 <= i < |r| ==> r[i] == [args.text[i]]
  {
    if args.ArgList? then args.items else seq(|args.text|, i requires 0 <= i < |args.text| => [args.text[i]])
  }

  /** `dict(zip(names, values))`: the pairs up to the shorter list, a later
      pair overriding an earlier one with the same name. */
  function Zip(names: seq<string>, values: seq<string>): map<string, string>
    decreases |names|
  {
    if |names| == 0 || |values| == 0 then map[]
    else
      var rest := Zip(names[1..], values[1..]);
      if names[0] in rest then rest else rest[names[0] := values[0]]
  }

  lemma {:induction false} ZipMeaning(names: seq<string>, values: seq<string>)
    ensures forall n :: n in Zip(names, values) <==>
      exists i :: 0 <= i < |names| && i < |values| && names[i] == n
    decreases |names|
  {
    if |names| > 0 && |values| > 0 {
      ZipMeaning(names[1..], values[1..]);
      forall n
        ensures n in Zip(names, values) <==> exists i :: 0 <= i < |names| && i < |values| && names[i] == n
      {
        if exists i :: 0 <= i < |names| && i < |values| && names[i] == n {
          var i :| 0 <= i < |names| && i < |values| && names[i] == n;
          if i > 0 {
            assert names[1..][i - 1] == n;
          }
        }
        if n in Zip(names[1..], values[1..]) {
          var i :| 0 <= i < |names[1..]| && i < |values[1..]| && names[1..][i] == n;
          assert names[i + 1] == n;
        }
      }
    }
  }

  /** With pairwise distinct names, every name bound by `zip` is bound to
      the value at its own position. */
  lemma {:induction false} ZipDistinct(names: seq<string>, values: seq<string>, i: nat)
    requires NoDuplicates(names) && i < |names| && i < |values|
    ensures names[i] in Zip(names, values) && Zip(names, values)[names[i]] == values[i]
    decreases |names|
  {
    ZipMeaning(names[1..], values[1..]);
    if i > 0 {
      assert names[1..][i - 1] == names[i];
      ZipDistinct(names[1..], values[1..], i - 1);
      if names[0] == names[i] {
        assert false;
      }
    }
  }

  /** `[prop.bind(bindings) for prop in rel_props]`, stopping at the first
      failure. */
  function BindProps(props: seq<UnboundProp>, bindings: map<string, string>): Result<seq<BoundProp>>
    decreases |props|
  {
    if |props| == 0 then Ok([])
    else match BindProp(props[0], bindings)
      case Err(f) => Err(f)
      case Ok(p) =>
        match BindProps(props[1..], bindings)
        case Err(f) => Err(f)
        case Ok(ps) => Ok([p] + ps)
  }

  lemma {:induction false} BindPropsMeaning(props: seq<UnboundProp>, bindings: map<string, string>)
    ensures BindProps(props, bindings).Ok? <==>
      forall j :: 0 <= j < |props| ==> BindProp(props[j], bindings).Ok?
    ensures BindProps(props, bindings).Ok? ==>
      var ps := BindProps(props, bindings).value;
      |ps| == |props| && forall j :: 0 <= j < |props| ==> ps[j] == BindProp(props[j], bindings).value
    decreases |props|
  {
    if |props| > 0 {
      BindPropsMeaning(props[1..], bindings);
      assert forall j :: 0 < j < |props| ==> props[j] == props[1..][j - 1];
    }
  }

  /** `UnboundAction.bind(arguments)`. */
  function BindAction(a: UnboundAction, args: ActArgs): Result<BoundAction> {
    if args.OtherValue? then Err(TypeError)
    else
      var items := ArgItems(args);
      match BindProps(a.relProps, Zip(a.paramNames, items))
      case Err(f) => Err(f)
      case Ok(ps) => Ok(BoundAction(a, items, ps))
  }

  /** A ground action made by `bind`: a value that is neither a list nor a
      `str` raises TypeError; otherwise the action is an instance of the
      schema whose identifier is the schema name followed by the arguments
      joined by single spaces, with one ground proposition per slot. */
  lemma BindActionMeaning(a: UnboundAction, args: ActArgs)
    ensures args.OtherValue? ==> BindAction(a, args) == Err(TypeError)
    ensures !args.OtherValue? ==>
      (BindAction(a, args).Ok? <==>
       forall j :: 0 <= j < |a.relProps| ==> BindProp(a.relProps[j], Zip(a.paramNames, ArgItems(args))).Ok?)
    ensures BindAction(a, args).Ok? ==>
      var g := BindAction(a, args).value;
      g.prototype == a && g.arguments == ArgItems(args) &&
      ActIdent(g) == Utils.Join([a.schemaName] + ArgItems(args), ' ') &&
      |g.props| == NumSlots(a) &&
      forall j :: 0 <= j < |a.relProps| ==>
        g.props[j] == BindProp(a.relProps[j], Zip(a.paramNames, ArgItems(args))).value
  {
    if !args.OtherValue? {
      BindPropsMeaning(a.relProps, Zip(a.paramNames, ArgItems(args)));
    }
  }

  /** With no arguments the identifier is the bare schema name. */
  lemma BindNoArguments(a: UnboundAction)
    requires BindAction(a, ArgList([])).Ok?
    ensures ActIdent(BindAction(a, ArgList([])).value) == a.schemaName
  {
    BindActionMeaning(a, ArgList([]));
    assert [a.schemaName] + [] == [a.schemaName];
  }

  /** For a schema with distinct parameter names given an argument list at
      least as long, slot `j`'s proposition takes, at a position holding
      the `i`-th parameter, the `i`-th argument. */
  lemma BindActionSubstitutes(a: UnboundAction, items: seq<string>, j: nat, k: nat, i: nat)
    requires BindAction(a, ArgList(items)).Ok?
    requires NoDuplicates(a.paramNames) && |items| >= |a.paramNames|
    requires j < |a.relProps| && k < |a.relProps[j].params| && i < |a.paramNames|
    requires a.relProps[j].params[k] == a.paramNames[i] && |a.paramNames[i]| > 0 && a.paramNames[i][0] == '?'
    ensures var g := BindAction(a, ArgList(items)).value;
      j < |g.props| && k < |g.props[j].arguments| && g.props[j].arguments[k] == items[i]
  {
    BindActionMeaning(a, ArgList(items));
    var b := Zip(a.paramNames, items);
    BindPropMeaning(a.relProps[j], b);
    ZipDistinct(a.paramNames, items, i);
  }

  // ---------------------------------------------------------------------
  // DomainMeta
  // ---------------------------------------------------------------------

  datatype DomainMeta = DomainMeta(name: string, unboundActs: seq<UnboundAction>, predNames: seq<string>)

  function PredNamesOf(props: seq<UnboundProp>): (r: seq<string>)
    ensures |r| == |props|
    ensures forall i :: 0 <= i < |props| ==> r[i] == props[i].predName
    decreases |props|
  {
    if |props| == 0 then [] else [props[0].predName] + PredNamesOf(props[1..])
  }

  /** `rel_pred_names(action)`: the predicate of each slot, duplicates
      kept. */
  function RelPredNames(a: UnboundAction): (r: seq<string>)
    ensures |r| == NumSlots(a)
    ensures forall i :: 0 <= i < NumSlots(a) ==> r[i] == a.relProps[i].predName
  {
    PredNamesOf(a.relProps)
  }

  /** Position `(i, j)` comes before `(i', j')`: schema order, then slot. */
  predicate PosLess(p: (nat, nat), q: (nat, nat)) {
    p.0 < q.0 || (p.0 == q.0 && p.1 < q.1)
  }

  /** The positions strictly increase. */
  predicate PosIncreasing(ps: seq<(nat, nat)>) {
    forall k, l :: 0 <= k < l < |ps| ==> PosLess(ps[k], ps[l])
  }

  /** A slot of schema `i` whose predicate is `pred`. */
  predicate SlotOf(acts: seq<UnboundAction>, pred: string, p: (nat, nat)) {
    p.0 < |acts| && p.1 < NumSlots(acts[p.0]) && RelPredNames(acts[p.0])[p.1] == pred
  }

  /** The positions the two loops of `rel_act_slots` append, from schema
      `i`, slot `j` on. */
  function SlotPositions(acts: seq<UnboundAction>, pred: string, i: nat, j: nat): seq<(nat, nat)>
    requires i <= |acts| && (i < |acts| ==> j <= NumSlots(acts[i]))
    decreases |acts| - i, if i < |acts| then NumSlots(acts[i]) - j else 0
  {
    if i == |acts| then []
    else if j == NumSlots(acts[i]) then SlotPositions(acts, pred, i + 1, 0)
    else (if RelPredNames(acts[i])[j] == pred then [(i, j)] else []) + SlotPositions(acts, pred, i, j + 1)
  }

  /** The positions from `(i, j)` on are exactly the matching slots not
      before `(i, j)`, in strictly increasing order. */
  lemma {:induction false} SlotPositionsMeaning(acts: seq<UnboundAction>, pred: string, i: nat, j: nat)
    requires i <= |acts| && (i < |acts| ==> j <= NumSlots(acts[i]))
    ensures forall p :: p in SlotPositions(acts, pred, i, j) <==>
      SlotOf(acts, pred, p) && !PosLess(p, (i, j))
    ensures PosIncreasing(SlotPositions(acts, pred, i, j))
    decreases |acts| - i, if i < |acts| then NumSlots(acts[i]) - j else 0
  {
    if i < |acts| {
      if j == NumSlots(acts[i]) {
        SlotPositionsMeaning(acts, pred, i + 1, 0);
        assert SlotPositions(acts, pred, i, j) == SlotPositions(acts, pred, i + 1, 0);
      } else {
        SlotPositionsMeaning(acts, pred, i, j + 1);
        var rest := SlotPositions(acts, pred, i, j + 1);
        var head: seq<(nat, nat)> := if RelPredNames(acts[i])[j] == pred then [(i, j)] else [];
        var ps := head + rest;
        assert ps == SlotPositions(acts, pred, i, j);
        forall k, l | 0 <= k < l < |ps|
          ensures PosLess(ps[k], ps[l])
        {
          if k < |head| {
            assert ps[k] == (i, j);
            assert ps[l] == rest[l - 1] && ps[l] in rest;
            assert !PosLess(ps[l], (i, j + 1));
          } else {
            assert ps[k] == rest[k - |head|] && ps[l] == rest[l - |head|];
            assert PosLess(rest[k - |head|], rest[l - |head|]);
          }
        }
      }
    }
  }

  /** The positions `rel_act_slots(pred)` visits: (schema index, slot). */
  function RelActSlotPositions(d: DomainMeta, pred: string): (ps: seq<(nat, nat)>)
    ensures forall k :: 0 <= k < |ps| ==> SlotOf(d.unboundActs, pred, ps[k])
  {
    SlotPositionsMeaning(d.unboundActs, pred, 0, 0);
    var ps := SlotPositions(d.unboundActs, pred, 0, 0);
    assert forall k :: 0 <= k < |ps| ==> ps[k] in ps;
    ps
  }

  /** `DomainMeta.rel_act_slots(pred)`: the (schema, slot) pairs whose
      slot predicate is `pred`. */
  function RelActSlots(d: DomainMeta, pred: string): seq<(UnboundAction, nat)> {
    var ps := RelActSlotPositions(d, pred);
    seq(|ps|, k requires 0 <= k < |ps| => (d.unboundActs[ps[k].0], ps[k].1))
  }

  /** `rel_act_slots(pred)` lists exactly the pairs (schema, slot) with
      `rel_pred_names(schema)[slot] == pred`, in schema order and then slot
      order, each schema position once. */
  lemma RelActSlotsMeaning(d: DomainMeta, pred: string)
    ensures var ps := RelActSlotPositions(d, pred);
      |RelActSlots(d, pred)| == |ps| &&
      (forall k :: 0 <= k < |ps| ==> RelActSlots(d, pred)[k] == (d.unboundActs[ps[k].0], ps[k].1)) &&
      (forall p :: p in ps <==> SlotOf(d.unboundActs, pred, p)) &&
      PosIncreasing(ps)
  {
    SlotPositionsMeaning(d.unboundActs, pred, 0, 0);
    assert RelActSlotPositions(d, pred) == SlotPositions(d.unboundActs, pred, 0, 0);
  }

  /** Membership in `rel_act_slots(pred)` in terms of the schemas alone. */
  lemma RelActSlotsMembers(d: DomainMeta, pred: string, a: UnboundAction, slot: nat)
    ensures (a, slot) in RelActSlots(d, pred) <==>
      a in d.unboundActs && slot < NumSlots(a) && RelPredNames(a)[slot] == pred
  {
    RelActSlotsMeaning(d, pred);
    var ps := RelActSlotPositions(d, pred);
    var r := RelActSlots(d, pred);
    if (a, slot) in r {
      var k :| 0 <= k < |r| && r[k] == (a, slot);
      assert SlotOf(d.unboundActs, pred, ps[k]);
    }
    if a in d.unboundActs && slot < NumSlots(a) && RelPredNames(a)[slot] == pred {
      var i :| 0 <= i < |d.unboundActs| && d.unboundActs[i] == a;
      assert SlotOf(d.unboundActs, pred, (i, slot));
      var k :| 0 <= k < |ps| && ps[k] == (i, slot);
      assert r[k] == (a, slot);
    }
  }

  /** The predicate of a lifted proposition, the key of the dictionary of
      `all_unbound_props`. */
  function PropPred(u: UnboundProp): string {
    u.predName
  }

  /** The relevant propositions of the schemas, schema after schema: what
      the two loops of `all_unbound_props` visit. */
  function AllRelProps(acts: seq<UnboundAction>): seq<UnboundProp>
    decreases |acts|
  {
    if |acts| == 0 then [] else AllRelProps(acts[..|acts| - 1]) + acts[|acts| - 1].relProps
  }

  /** The loops of `all_unbound_props` over the visited propositions `ps`:
      a proposition not seen yet is appended to the list and stored in the
      dictionary under its predicate name. */
  function CollectUnboundProps(ps: seq<UnboundProp>): (seq<UnboundProp>, map<string, UnboundProp>)
    decreases |ps|
  {
    if |ps| == 0 then ([], map[])
    else
      var (l, m) := CollectUnboundProps(ps[..|ps| - 1]);
      var x := ps[|ps| - 1];
      if x in l then (l, m) else (l + [x], m[x.predName := x])
  }

  /** `DomainMeta.all_unbound_props`. */
  function AllUnboundProps(d: DomainMeta): (seq<UnboundProp>, map<string, UnboundProp>) {
    CollectUnboundProps(AllRelProps(d.unboundActs))
  }

  /** `unbound_prop_by_name(pred)`: the dictionary entry; KeyError for a
      predicate no schema mentions. */
  function UnboundPropByName(d: DomainMeta, pred: string): Result<UnboundProp> {
    var m := AllUnboundProps(d).1;
    if pred in m then Ok(m[pred]) else Err(KeyError)
  }

  /** A proposition is visited exactly when some schema lists it. */
  lemma {:induction false} AllRelPropsMembers(acts: seq<UnboundAction>, u: UnboundProp)
    ensures u in AllRelProps(acts) <==> exists i :: 0 <= i < |acts| && u in acts[i].relProps
    decreases |acts|
  {
    if |acts| > 0 {
      var init := acts[..|acts| - 1];
      AllRelPropsMembers(init, u);
      if exists i :: 0 <= i < |acts| && u in acts[i].relProps {
        var i :| 0 <= i < |acts| && u in acts[i].relProps;
        if i < |acts| - 1 {
          assert init[i] == acts[i];
        }
      }
      if exists i :: 0 <= i < |init| && u in init[i].relProps {
        var i :| 0 <= i < |init| && u in init[i].relProps;
        assert acts[i] == init[i];
      }
    }
  }

  /** The last entry of `l` whose predicate is `pred`, if any. */
  function LastWithPred(l: seq<UnboundProp>, pred: string): Option<UnboundProp>
    decreases |l|
  {
    if |l| == 0 then None
    else if l[|l| - 1].predName == pred then Some(l[|l| - 1])
    else LastWithPred(l[..|l| - 1], pred)
  }

  /** A dictionary lookup as an option. */
  function Lookup(m: map<string, UnboundProp>, pred: string): Option<UnboundProp> {
    if pred in m then Some(m[pred]) else None
  }

  /** `LastWithPred` finds an entry of the predicate after which no entry
      has it, and finds none exactly when no entry has it. */
  lemma {:induction false} LastWithPredMeaning(l: seq<UnboundProp>, pred: string)
    ensures LastWithPred(l, pred).None? <==> forall y :: y in l ==> y.predName != pred
    ensures LastWithPred(l, pred).Some? ==>
      exists k :: 0 <= k < |l| && l[k] == LastWithPred(l, pred).value && l[k].predName == pred &&
        forall j :: k < j < |l| ==> l[j].predName != pred
    decreases |l|
  {
    if |l| > 0 && l[|l| - 1].predName != pred {
      var init := l[..|l| - 1];
      LastWithPredMeaning(init, pred);
      assert forall y :: y in l ==> y in init || y == l[|l| - 1];
      if LastWithPred(init, pred).Some? {
        var k :| 0 <= k < |init| && init[k] == LastWithPred(init, pred).value && init[k].predName == pred &&
          forall j :: k < j < |init| ==> init[j].predName != pred;
        assert l[k] == init[k];
        forall j | k < j < |l|
          ensures l[j].predName != pred
        {
          if j < |l| - 1 {
            assert l[j] == init[j];
          }
        }
      }
    }
  }

  /** The list is the visited propositions de-duplicated at their first
      occurrence, and the dictionary maps each predicate to the last entry
      of the list with that predicate (no key for a predicate the list does
      not use). */
  lemma {:induction false} CollectUnboundPropsMeaning(ps: seq<UnboundProp>)
    ensures CollectUnboundProps(ps).0 == Dedup(ps)
    ensures forall n :: Lookup(CollectUnboundProps(ps).1, n) == LastWithPred(CollectUnboundProps(ps).0, n)
    decreases |ps|
  {
    if |ps| > 0 {
      var init := ps[..|ps| - 1];
      var x := ps[|ps| - 1];
      CollectUnboundPropsMeaning(init);
      var (l, m) := CollectUnboundProps(init);
      assert init + [x] == ps;
      DedupFromSnoc(init, x, {});
      DedupProperties(init);
      if x !in l {
        var l' := l + [x];
        assert l'[..|l'| - 1] == l;
        forall n
          ensures Lookup(m[x.predName := x], n) == LastWithPred(l', n)
        {
          assert Lookup(m, n) == LastWithPred(l, n);
        }
      }
    }
  }

  /** `unbound_prop_by_name(pred)` succeeds exactly for a predicate that
      some schema's relevant propositions use, and then returns the last
      entry of `all_unbound_props`' list with that predicate; otherwise it
      raises KeyError. */
  lemma UnboundPropByNameMeaning(d: DomainMeta, pred: string)
    ensures UnboundPropByName(d, pred).Ok? <==>
      exists i, u :: 0 <= i < |d.unboundActs| && u in d.unboundActs[i].relProps && u.predName == pred
    ensures UnboundPropByName(d, pred).Err? ==> UnboundPropByName(d, pred).failure == KeyError
    ensures UnboundPropByName(d, pred).Ok? ==>
      var l := AllUnboundProps(d).0;
      exists k :: 0 <= k < |l| && l[k] == UnboundPropByName(d, pred).value && l[k].predName == pred &&
        forall j :: k < j < |l| ==> l[j].predName != pred
  {
    var ps := AllRelProps(d.unboundActs);
    CollectUnboundPropsMeaning(ps);
    DedupProperties(ps);
    var l := AllUnboundProps(d).0;
    assert l == Dedup(ps);
    assert Lookup(AllUnboundProps(d).1, pred) == LastWithPred(l, pred);
    LastWithPredMeaning(l, pred);
    if exists i, u :: 0 <= i < |d.unboundActs| && u in d.unboundActs[i].relProps && u.predName == pred {
      var i, u :| 0 <= i < |d.unboundActs| && u in d.unboundActs[i].relProps && u.predName == pred;
      AllRelPropsMembers(d.unboundActs, u);
      assert u in l;
    }
    if UnboundPropByName(d, pred).Ok? {
      var u := UnboundPropByName(d, pred).value;
      assert u in l && u.predName == pred;
      AllRelPropsMembers(d.unboundActs, u);
    }
  }

  // ---------------------------------------------------------------------
  // ProblemMeta
  // ---------------------------------------------------------------------

  datatype ProblemMeta = ProblemMeta(
    name: string,
    domain: DomainMeta,
    acts: seq<BoundAction>,
    props: seq<BoundProp>,
    goals: seq<BoundProp>)

  /** `x in set(ps)`: membership by identifier. */
  predicate PropIn(x: BoundProp, ps: seq<BoundProp>) {
    exists i :: 0 <= i < |ps| && PropEq(ps[i], x)
  }

  /** `set(xs) <= set(ps)`. */
  predicate PropsIn(xs: seq<BoundProp>, ps: seq<BoundProp>) {
    forall i :: 0 <= i < |xs| ==> PropIn(xs[i], ps)
  }

  /** The `ProblemMeta` constructor: its sanity check asks every goal to be
      one of the propositions. */
  function MakeProblemMeta(name: string, domain: DomainMeta, acts: seq<BoundAction>,
                           props: seq<BoundProp>, goals: seq<BoundProp>): (r: Result<ProblemMeta>)
    ensures r.Ok? ==> PropsIn(r.value.goals, r.value.props) && r.value.acts == acts && r.value.props == props
    ensures r.Err? ==> r.failure == AssertionError && !PropsIn(goals, props)
  {
    if PropsIn(goals, props) then Ok(ProblemMeta(name, domain, acts, props, goals))
    else Err(AssertionError)
  }

  function NumProps(pm: ProblemMeta): nat {
    |pm.props|
  }

  function NumActs(pm: ProblemMeta): nat {
    |pm.acts|
  }

  /** `schema_to_acts(schema)`: the ground actions of that schema, in
      action order. */
  function SchemaToActs(pm: ProblemMeta, a: UnboundAction): seq<BoundAction> {
    SchemaActs(pm.acts, a)
  }

  /** The actions of `gs` whose schema is `a`, in order. */
  function SchemaActs(gs: seq<BoundAction>, a: UnboundAction): seq<BoundAction> {
    Filter(gs, (g: BoundAction) => g.prototype == a)
  }

  /** `pred_to_props(pred)`: the ground propositions of that predicate, in
      proposition order. */
  function PredToProps(pm: ProblemMeta, pred: string): seq<BoundProp> {
    Filter(pm.props, (p: BoundProp) => p.predName == pred)
  }

  /** `schema_to_acts` holds exactly the actions of the schema and keeps
      a canonical (strictly sorted) order. */
  lemma SchemaToActsMeaning(pm: ProblemMeta, a: UnboundAction)
    ensures forall g :: g in SchemaToActs(pm, a) <==> g in pm.acts && g.prototype == a
    ensures StrictlySortedBy(pm.acts, ActIdent) ==> StrictlySortedBy(SchemaToActs(pm, a), ActIdent)
  {
    FilterMembers(pm.acts, (g: BoundAction) => g.prototype == a);
    assert SchemaToActs(pm, a) == Filter(pm.acts, (g: BoundAction) => g.prototype == a);
    if StrictlySortedBy(pm.acts, ActIdent) {
      FilterStrictlySorted(pm.acts, (g: BoundAction) => g.prototype == a, ActIdent);
    }
  }

  /** `pred_to_props` holds exactly the propositions of the predicate and
      keeps a canonical (strictly sorted) order. */
  lemma PredToPropsMeaning(pm: ProblemMeta, pred: string)
    ensures forall p :: p in PredToProps(pm, pred) <==> p in pm.props && p.predName == pred
    ensures StrictlySortedBy(pm.props, PropIdent) ==> StrictlySortedBy(PredToProps(pm, pred), PropIdent)
  {
    FilterMembers(pm.props, (p: BoundProp) => p.predName == pred);
    if StrictlySortedBy(pm.props, PropIdent) {
      FilterStrictlySorted(pm.props, (p: BoundProp) => p.predName == pred, PropIdent);
    }
  }

  /** `prop_to_pred_subtensor_ind(x)`: where `x` sits among the
      propositions of its predicate; ValueError when it is not there. */
  function PropToPredSubtensorInd(pm: ProblemMeta, x: BoundProp): Result<nat> {
    FirstIndex(PredToProps(pm, x.predName), PropIdent, PropIdent(x))
  }

  /** `act_to_schema_subtensor_ind(g)`: where `g` sits among the actions of
      its schema; ValueError when it is not there. */
  function ActToSchemaSubtensorInd(pm: ProblemMeta, g: BoundAction): Result<nat> {
    FirstIndex(SchemaToActs(pm, g.prototype), ActIdent, ActIdent(g))
  }

  /** The index found for `x` points at an entry equal to `x`, the first
      such entry. */
  lemma SubtensorIndSound(pm: ProblemMeta, x: BoundProp, g: BoundAction)
    ensures PropToPredSubtensorInd(pm, x).Ok? ==>
      var i := PropToPredSubtensorInd(pm, x).value;
      i < |PredToProps(pm, x.predName)| && PropEq(PredToProps(pm, x.predName)[i], x) &&
      forall j :: 0 <= j < i ==> !PropEq(PredToProps(pm, x.predName)[j], x)
    ensures PropToPredSubtensorInd(pm, x).Err? ==> PropToPredSubtensorInd(pm, x).failure == ValueError
    ensures ActToSchemaSubtensorInd(pm, g).Ok? ==>
      var i := ActToSchemaSubtensorInd(pm, g).value;
      i < |SchemaToActs(pm, g.prototype)| && ActEq(SchemaToActs(pm, g.prototype)[i], g) &&
      forall j :: 0 <= j < i ==> !ActEq(SchemaToActs(pm, g.prototype)[j], g)
    ensures ActToSchemaSubtensorInd(pm, g).Err? ==> ActToSchemaSubtensorInd(pm, g).failure == ValueError
  {
    FirstIndexMeaning(PredToProps(pm, x.predName), PropIdent, PropIdent(x));
    FirstIndexMeaning(SchemaToActs(pm, g.prototype), ActIdent, ActIdent(g));
  }

  /** With propositions in strict identifier order the subtensor index is a
      bijection: the `i`-th proposition of a predicate has index `i`. */
  lemma PropSubtensorIndInverts(pm: ProblemMeta, pred: string, i: nat)
    requires StrictlySortedBy(pm.props, PropIdent)
    requires i < |PredToProps(pm, pred)|
    ensures PropToPredSubtensorInd(pm, PredToProps(pm, pred)[i]) == Ok(i)
  {
    var ps := PredToProps(pm, pred);
    PredToPropsMeaning(pm, pred);
    assert ps[i] in ps;
    FirstIndexOfDistinct(ps, PropIdent, i);
  }

  /** With actions in strict identifier order, the `i`-th action of a
      schema has index `i`. */
  lemma ActSubtensorIndInverts(pm: ProblemMeta, a: UnboundAction, i: nat)
    requires StrictlySortedBy(pm.acts, ActIdent)
    requires i < |SchemaToActs(pm, a)|
    ensures ActToSchemaSubtensorInd(pm, SchemaToActs(pm, a)[i]) == Ok(i)
  {
    var gs := SchemaToActs(pm, a);
    SchemaToActsMeaning(pm, a);
    assert gs[i] in gs;
    FirstIndexOfDistinct(gs, ActIdent, i);
  }

  /** `bound_prop_by_name(s)`: the proposition with identifier `s` (the
      last one, as the dictionary keeps the last); KeyError otherwise. */
  function BoundPropByName(pm: ProblemMeta, s: string): Result<BoundProp> {
    match LastIndex(pm.props, PropIdent, s)
    case Ok(i) => if i < |pm.props| then Ok(pm.props[i]) else Err(KeyError)
    case Err(f) => Err(f)
  }

  /** `act_unique_id_to_index(s)`: the position of the action with
      identifier `s`; KeyError otherwise. */
  function ActUniqueIdToIndex(pm: ProblemMeta, s: string): Result<nat> {
    LastIndex(pm.acts, ActIdent, s)
  }

  /** The name lookups return an entry with the asked identifier, fail with
      KeyError exactly for unknown identifiers, and with actions in strict
      identifier order `act_unique_id_to_index` inverts the action order. */
  lemma NameLookupsMeaning(pm: ProblemMeta, s: string)
    ensures BoundPropByName(pm, s).Ok? <==> exists i :: 0 <= i < |pm.props| && PropIdent(pm.props[i]) == s
    ensures BoundPropByName(pm, s).Ok? ==> PropIdent(BoundPropByName(pm, s).value) == s
    ensures BoundPropByName(pm, s).Err? ==> BoundPropByName(pm, s).failure == KeyError
    ensures ActUniqueIdToIndex(pm, s).Ok? <==> exists i :: 0 <= i < |pm.acts| && ActIdent(pm.acts[i]) == s
    ensures ActUniqueIdToIndex(pm, s).Ok? ==>
      ActUniqueIdToIndex(pm, s).value < |pm.acts| && ActIdent(pm.acts[ActUniqueIdToIndex(pm, s).value]) == s
    ensures ActUniqueIdToIndex(pm, s).Err? ==> ActUniqueIdToIndex(pm, s).failure == KeyError
  {
    LastIndexMeaning(pm.props, PropIdent, s);
    LastIndexMeaning(pm.acts, ActIdent, s);
  }

  lemma ActIndexInverts(pm: ProblemMeta, i: nat)
    requires StrictlySortedBy(pm.acts, ActIdent) && i < |pm.acts|
    ensures ActUniqueIdToIndex(pm, ActIdent(pm.acts[i])) == Ok(i)
  {
    LastIndexOfDistinct(pm.acts, ActIdent, i);
  }

  // ---------------------------------------------------------------------
  // ProblemMeta.rel_act_slots
  // ---------------------------------------------------------------------

  /** One entry of `ProblemMeta.rel_act_slots(prop)`: a schema, a slot and
      the ground actions of the schema holding `prop` in that slot. */
  datatype SlotActs = SlotActs(schema: UnboundAction, slot: nat, acts: seq<BoundAction>)

  /** The inner loop: the actions of `gs` whose proposition at `slot`
      equals `x`; IndexError if an action has no such slot. */
  function ActsWithPropAt(gs: seq<BoundAction>, slot: nat, x: BoundProp): Result<seq<BoundAction>>
    decreases |gs|
  {
    if |gs| == 0 then Ok([])
    else if slot >= |gs[0].props| then Err(IndexError)
    else match ActsWithPropAt(gs[1..], slot, x)
      case Err(f) => Err(f)
      case Ok(rest) => Ok(if PropEq(x, gs[0].props[slot]) then [gs[0]] + rest else rest)
  }

  /** What the inner loop keeps, when every action has the slot. */
  predicate HoldsPropAt(g: BoundAction, slot: nat, x: BoundProp) {
    slot < |g.props| && PropEq(x, g.props[slot])
  }

  lemma {:induction false} ActsWithPropAtMeaning(gs: seq<BoundAction>, slot: nat, x: BoundProp)
    ensures ActsWithPropAt(gs, slot, x).Ok? <==> forall k :: 0 <= k < |gs| ==> slot < |gs[k].props|
    ensures ActsWithPropAt(gs, slot, x).Err? ==> ActsWithPropAt(gs, slot, x).failure == IndexError
    ensures ActsWithPropAt(gs, slot, x).Ok? ==>
      ActsWithPropAt(gs, slot, x).value == Filter(gs, (g: BoundAction) => HoldsPropAt(g, slot, x))
    decreases |gs|
  {
    if |gs| > 0 {
      ActsWithPropAtMeaning(gs[1..], slot, x);
      assert forall k :: 0 < k < |gs| ==> gs[k] == gs[1..][k - 1];
    }
  }

  /** The outer loop over the domain's (schema, slot) pairs. */
  function SlotsActs(pm: ProblemMeta, slots: seq<(UnboundAction, nat)>, x: BoundProp): Result<seq<SlotActs>>
    decreases |slots|
  {
    if |slots| == 0 then Ok([])
    else match ActsWithPropAt(SchemaToActs(pm, slots[0].0), slots[0].1, x)
      case Err(f) => Err(f)
      case Ok(gs) =>
        match SlotsActs(pm, slots[1..], x)
        case Err(f) => Err(f)
        case Ok(rest) => Ok([SlotActs(slots[0].0, slots[0].1, gs)] + rest)
  }

  /** `ProblemMeta.rel_act_slots(prop)`. */
  function ProblemRelActSlots(pm: ProblemMeta, x: BoundProp): Result<seq<SlotActs>> {
    SlotsActs(pm, RelActSlots(pm.domain, x.predName), x)
  }

  /** Every ground action has one proposition per slot of its schema, as
      `bind` makes it. */
  predicate WellFormedActs(pm: ProblemMeta) {
    forall k :: 0 <= k < |pm.acts| ==> |pm.acts[k].props| == NumSlots(pm.acts[k].prototype)
  }

  lemma {:induction false} SlotsActsMeaning(pm: ProblemMeta, slots: seq<(UnboundAction, nat)>, x: BoundProp)
    requires forall k :: 0 <= k < |slots| ==> slots[k].1 < NumSlots(slots[k].0)
    ensures WellFormedActs(pm) ==> SlotsActs(pm, slots, x).Ok?
    ensures SlotsActs(pm, slots, x).Err? ==> SlotsActs(pm, slots, x).failure == IndexError
    ensures SlotsActs(pm, slots, x).Ok? ==>
      var r := SlotsActs(pm, slots, x).value;
      |r| == |slots| &&
      forall k :: 0 <= k < |slots| ==>
        r[k].schema == slots[k].0 && r[k].slot == slots[k].1 &&
        r[k].acts == Filter(SchemaToActs(pm, slots[k].0), (g: BoundAction) => HoldsPropAt(g, slots[k].1, x))
    decreases |slots|
  {
    if |slots| > 0 {
      var a, slot := slots[0].0, slots[0].1;
      var gs := SchemaToActs(pm, a);
      ActsWithPropAtMeaning(gs, slot, x);
      SchemaToActsMeaning(pm, a);
      if WellFormedActs(pm) {
        forall k | 0 <= k < |gs|
          ensures slot < |gs[k].props|
        {
          assert gs[k] in gs;
        }
      }
      SlotsActsMeaning(pm, slots[1..], x);
      assert forall k :: 0 < k < |slots| ==> slots[k] == slots[1..][k - 1];
    }
  }

  /** `ProblemMeta.rel_act_slots(prop)` has one triple per domain slot of
      the proposition's predicate, listing exactly those ground actions of
      the schema whose proposition in that slot equals `prop`, in action
      order; it can only fail on an action lacking the slot. */
  lemma ProblemRelActSlotsMeaning(pm: ProblemMeta, x: BoundProp)
    ensures var slots := RelActSlots(pm.domain, x.predName);
      (WellFormedActs(pm) ==> ProblemRelActSlots(pm, x).Ok?) &&
      (ProblemRelActSlots(pm, x).Err? ==> ProblemRelActSlots(pm, x).failure == IndexError) &&
      (ProblemRelActSlots(pm, x).Ok? ==>
        var r := ProblemRelActSlots(pm, x).value;
        |r| == |slots| &&
        forall k :: 0 <= k < |slots| ==>
          r[k].schema == slots[k].0 && r[k].slot == slots[k].1 &&
          forall g :: g in r[k].acts <==>
            g in pm.acts && g.prototype == slots[k].0 && HoldsPropAt(g, slots[k].1, x))
  {
    var slots := RelActSlots(pm.domain, x.predName);
    RelActSlotsMeaning(pm.domain, x.predName);
    SlotsActsMeaning(pm, slots, x);
    if ProblemRelActSlots(pm, x).Ok? {
      var r := ProblemRelActSlots(pm, x).value;
      forall k | 0 <= k < |slots|
        ensures forall g :: g in r[k].acts <==>
          g in pm.acts && g.prototype == slots[k].0 && HoldsPropAt(g, slots[k].1, x)
      {
        SchemaToActsMeaning(pm, slots[k].0);
        FilterMembers(SchemaToActs(pm, slots[k].0), (g: BoundAction) => HoldsPropAt(g, slots[k].1, x));
      }
    }
  }

  // ---------------------------------------------------------------------
  // Building the metadata from what MDPSim reports
  // ---------------------------------------------------------------------

  /** A lifted action as the MDPSim extension reports it: name, parameter
      names and the propositions it involves, repetitions included. */
  datatype LiftedAction = LiftedAction(name: string, params: seq<string>, involved: seq<UnboundProp>)

  datatype DomainInput = DomainInput(name: string, lifted: seq<LiftedAction>, predicates: seq<string>)

  /** A ground proposition of the problem: predicate, terms and whether it
      is part of the goal. */
  datatype PropInput = PropInput(predName: string, terms: seq<string>, inGoal: bool)

  /** A ground action of the problem: its lifted action and its arguments. */
  datatype GroundActInput = GroundActInput(lifted: LiftedAction, args: seq<string>)

  datatype ProblemInput = ProblemInput(name: string, domain: DomainInput, props: seq<PropInput>, acts: seq<GroundActInput>)

  /** `make_unbound_action`: the involved propositions without repeats, in
      order of first appearance. */
  function MakeUnboundAction(l: LiftedAction): UnboundAction {
    UnboundAction(l.name, l.params, Dedup(l.involved))
  }

  /** The schema keeps name and parameters and has each involved
      proposition exactly once. */
  lemma MakeUnboundActionMeaning(l: LiftedAction)
    ensures MakeUnboundAction(l).schemaName == l.name && MakeUnboundAction(l).paramNames == l.params
    ensures forall u :: u in MakeUnboundAction(l).relProps <==> u in l.involved
    ensures NoDuplicates(MakeUnboundAction(l).relProps)
    ensures NoDuplicates(l.involved) ==> MakeUnboundAction(l).relProps == l.involved
  {
    DedupProperties(l.involved);
    if NoDuplicates(l.involved) {
      DedupFromOfDistinct(l.involved, {});
    }
  }

  predicate IsFree(term: string) {
    |term| > 0 && term[0] == '?'
  }

  /** `make_bound_prop`: asserts that no term is a free '?' variable. */
  function MakeBoundProp(p: PropInput): (r: Result<BoundProp>)
    ensures r.Ok? <==> forall i :: 0 <= i < |p.terms| ==> !IsFree(p.terms[i])
    ensures r.Ok? ==> r.value == BoundProp(p.predName, p.terms)
    ensures r.Err? ==> r.failure == AssertionError
  {
    if exists i :: 0 <= i < |p.terms| && IsFree(p.terms[i]) then Err(AssertionError)
    else Ok(BoundProp(p.predName, p.terms))
  }

  /** `make_bound_action`: the schema of the lifted action bound to the
      argument list. */
  function MakeBoundAction(g: GroundActInput): Result<BoundAction> {
    BindAction(MakeUnboundAction(g.lifted), ArgList(g.args))
  }

  /** `get_domain_meta`. */
  function GetDomainMeta(d: DomainInput): DomainMeta {
    DomainMeta(d.name, seq(|d.lifted|, i requires 0 <= i < |d.lifted| => MakeUnboundAction(d.lifted[i])), d.predicates)
  }

  /** The goal propositions among `ps`, in order. */
  function GoalsOf(ps: seq<PropInput>): seq<PropInput> {
    Filter(ps, (p: PropInput) => p.inGoal)
  }

  /** The loop over `problem.propositions`: every proposition, and the goal
      ones, in problem order. */
  function BuildProps(ps: seq<PropInput>): Result<(seq<BoundProp>, seq<BoundProp>)>
    decreases |ps|
  {
    if |ps| == 0 then Ok(([], []))
    else match MakeBoundProp(ps[0])
      case Err(f) => Err(f)
      case Ok(b) =>
        match BuildProps(ps[1..])
        case Err(f) => Err(f)
        case Ok(r) => Ok(([b] + r.0, if ps[0].inGoal then [b] + r.1 else r.1))
  }

  function PropOfInput(p: PropInput): BoundProp {
    BoundProp(p.predName, p.terms)
  }

  predicate PropInputOk(p: PropInput) {
    MakeBoundProp(p).Ok?
  }

  lemma {:induction false} BuildPropsMeaning(ps: seq<PropInput>)
    ensures BuildProps(ps).Ok? <==> forall i :: 0 <= i < |ps| ==> PropInputOk(ps[i])
    ensures BuildProps(ps).Err? ==> BuildProps(ps).failure == AssertionError
    ensures BuildProps(ps).Ok? ==>
      var r := BuildProps(ps).value;
      |r.0| == |ps| && (forall i :: 0 <= i < |ps| ==> r.0[i] == PropOfInput(ps[i])) &&
      |r.1| == |GoalsOf(ps)| && (forall i :: 0 <= i < |r.1| ==> r.1[i] == PropOfInput(GoalsOf(ps)[i]))
    decreases |ps|
  {
    if |ps| > 0 {
      BuildPropsMeaning(ps[1..]);
      assert forall i :: 0 < i < |ps| ==> ps[i] == ps[1..][i - 1];
    }
  }

  /** The loop over `problem.ground_actions`, with its two sanity checks:
      the propositions of each action are problem propositions, and its
      schema is one of the domain's.  `missingSchema` is how the second
      check fails. */
  function BuildActs(gs: seq<GroundActInput>, props: seq<BoundProp>, schemas: seq<UnboundAction>,
                     missingSchema: Failure): Result<seq<BoundAction>>
    decreases |gs|
  {
    if |gs| == 0 then Ok([])
    else match MakeBoundAction(gs[0])
      case Err(f) => Err(f)
      case Ok(g) =>
        if !PropsIn(g.props, props) then Err(AssertionError)
        else if g.prototype !in schemas then Err(missingSchema)
        else match BuildActs(gs[1..], props, schemas, missingSchema)
          case Err(f) => Err(f)
          case Ok(rest) => Ok([g] + rest)
  }

  /** An action input that passes the loop body. */
  predicate ActInputOk(g: GroundActInput, props: seq<BoundProp>, schemas: seq<UnboundAction>) {
    MakeBoundAction(g).Ok? && PropsIn(MakeBoundAction(g).value.props, props) &&
    MakeBoundAction(g).value.prototype in schemas
  }

  lemma {:induction false} BuildActsMeaning(gs: seq<GroundActInput>, props: seq<BoundProp>, schemas: seq<UnboundAction>,
                                            missingSchema: Failure)
    ensures BuildActs(gs, props, schemas, missingSchema).Ok? <==>
      forall i :: 0 <= i < |gs| ==> ActInputOk(gs[i], props, schemas)
    decreases |gs|
  {
    if |gs| > 0 {
      BuildActsMeaning(gs[1..], props, schemas, missingSchema);
      assert forall i :: 0 < i < |gs| ==> gs[i] == gs[1..][i - 1];
    }
  }

  /** On success the actions are the bound inputs, in order. */
  lemma {:induction false} BuildActsValues(gs: seq<GroundActInput>, props: seq<BoundProp>, schemas: seq<UnboundAction>,
                                           missingSchema: Failure)
    requires BuildActs(gs, props, schemas, missingSchema).Ok?
    ensures forall i :: 0 <= i < |gs| ==> MakeBoundAction(gs[i]).Ok?
    ensures BuildActs(gs, props, schemas, missingSchema).value == InputActs(gs)
    decreases |gs|
  {
    if |gs| > 0 {
      BuildActsValues(gs[1..], props, schemas, missingSchema);
      assert forall i :: 0 < i < |gs| ==> gs[i] == gs[1..][i - 1];
    }
  }

  /** `get_problem_meta`, with the failure of the schema check as a
      parameter. */
  function GetProblemMetaWith(problem: ProblemInput, dm: DomainMeta, missingSchema: Failure): Result<ProblemMeta> {
    if GetDomainMeta(problem.domain) != dm then Err(AssertionError)
    else match BuildProps(problem.props)
      case Err(f) => Err(f)
      case Ok(r) =>
        var props := SortByKey(r.0, PropIdent);
        match BuildActs(problem.acts, props, dm.unboundActs, missingSchema)
        case Err(f) => Err(f)
        case Ok(acts) => MakeProblemMeta(problem.name, dm, SortByKey(acts, ActIdent), props, r.1)
  }

  /** `get_problem_meta` as written: the message of the schema check reads
      `bound_act.protype`, an attribute ground actions do not have, so the
      failing check raises AttributeError. */
  function GetProblemMetaAsWritten(problem: ProblemInput, dm: DomainMeta): Result<ProblemMeta> {
    GetProblemMetaWith(problem, dm, AttributeError)
  }

  /** `get_problem_meta` with the schema check failing as an assertion. */
  function GetProblemMeta(problem: ProblemInput, dm: DomainMeta): Result<ProblemMeta> {
    GetProblemMetaWith(problem, dm, AssertionError)
  }

  /** The bound propositions of the problem, in problem order. */
  function InputProps(ps: seq<PropInput>): (r: seq<BoundProp>)
    ensures |r| == |ps|
  {
    seq(|ps|, i requires 0 <= i < |ps| => PropOfInput(ps[i]))
  }

  /** The ground actions of the problem, bound, in problem order. */
  function InputActs(gs: seq<GroundActInput>): (r: seq<BoundAction>)
    requires forall i :: 0 <= i < |gs| ==> MakeBoundAction(gs[i]).Ok?
    ensures |r| == |gs|
  {
    seq(|gs|, i requires 0 <= i < |gs| && MakeBoundAction(gs[i]).Ok? => MakeBoundAction(gs[i]).value)
  }

  /** What a problem must satisfy for `get_problem_meta` to return. */
  predicate ProblemOk(problem: ProblemInput, dm: DomainMeta) {
    GetDomainMeta(problem.domain) == dm &&
    (forall i :: 0 <= i < |problem.props| ==> PropInputOk(problem.props[i])) &&
    forall i :: 0 <= i < |problem.acts| ==> ActInputOk(problem.acts[i], InputProps(problem.props), dm.unboundActs)
  }

  /** Membership by identifier ignores the order of the list. */
  lemma PropsInPermutation(xs: seq<BoundProp>, ps: seq<BoundProp>, qs: seq<BoundProp>)
    requires multiset(ps) == multiset(qs)
    ensures PropsIn(xs, ps) <==> PropsIn(xs, qs)
  {
    forall x, ys: seq<BoundProp>, zs: seq<BoundProp> | multiset(ys) == multiset(zs) && PropIn(x, ys)
      ensures PropIn(x, zs)
    {
      var i :| 0 <= i < |ys| && PropEq(ys[i], x);
      assert ys[i] in multiset(zs);
      var k :| 0 <= k < |zs| && zs[k] == ys[i];
    }
  }

  /** The checks on actions give the same verdict against the sorted
      propositions as against the problem order. */
  lemma ActChecksIgnoreOrder(gs: seq<GroundActInput>, sorted: seq<BoundProp>, props: seq<BoundProp>, schemas: seq<UnboundAction>)
    requires multiset(sorted) == multiset(props)
    ensures (forall i :: 0 <= i < |gs| ==> ActInputOk(gs[i], sorted, schemas)) <==>
            (forall i :: 0 <= i < |gs| ==> ActInputOk(gs[i], props, schemas))
  {
    forall i | 0 <= i < |gs| && MakeBoundAction(gs[i]).Ok?
      ensures ActInputOk(gs[i], sorted, schemas) <==> ActInputOk(gs[i], props, schemas)
    {
      PropsInPermutation(MakeBoundAction(gs[i]).value.props, sorted, props);
    }
  }

  /** `get_problem_meta` returns exactly when the problem passes every
      check, and a domain that differs from `dm` fails the first one. */
  lemma GetProblemMetaSucceeds(problem: ProblemInput, dm: DomainMeta, missingSchema: Failure)
    ensures GetProblemMetaWith(problem, dm, missingSchema).Ok? <==> ProblemOk(problem, dm)
    ensures GetDomainMeta(problem.domain) != dm ==> GetProblemMetaWith(problem, dm, missingSchema) == Err(AssertionError)
  {
    BuildPropsMeaning(problem.props);
    if GetDomainMeta(problem.domain) == dm && BuildProps(problem.props).Ok? {
      var r := BuildProps(problem.props).value;
      assert r.0 == InputProps(problem.props);
      var sorted := SortByKey(r.0, PropIdent);
      SortByKeyCorrect(r.0, PropIdent);
      BuildActsMeaning(problem.acts, sorted, dm.unboundActs, missingSchema);
      ActChecksIgnoreOrder(problem.acts, sorted, r.0, dm.unboundActs);
      GoalsAmongProps(problem.props, r.1, r.0, sorted);
    }
  }

  /** A successful `get_problem_meta` has propositions and actions sorted by
      identifier, each a permutation of the problem's; goals in problem
      order and among the propositions; every action's propositions among
      the propositions, its schema in the domain and one proposition per
      slot. */
  lemma GetProblemMetaResult(problem: ProblemInput, dm: DomainMeta, missingSchema: Failure)
    requires GetProblemMetaWith(problem, dm, missingSchema).Ok?
    ensures forall i :: 0 <= i < |problem.acts| ==> MakeBoundAction(problem.acts[i]).Ok?
    ensures var pm := GetProblemMetaWith(problem, dm, missingSchema).value;
      pm.name == problem.name && pm.domain == dm &&
      SortedBy(pm.props, PropIdent) && multiset(pm.props) == multiset(InputProps(problem.props)) &&
      SortedBy(pm.acts, ActIdent) && multiset(pm.acts) == multiset(InputActs(problem.acts)) &&
      |pm.goals| == |GoalsOf(problem.props)| &&
      (forall i :: 0 <= i < |pm.goals| ==> pm.goals[i] == PropOfInput(GoalsOf(problem.props)[i])) &&
      PropsIn(pm.goals, pm.props)
    ensures var pm := GetProblemMetaWith(problem, dm, missingSchema).value;
      WellFormedActs(pm) &&
      forall k :: 0 <= k < |pm.acts| ==>
        PropsIn(pm.acts[k].props, pm.props) && pm.acts[k].prototype in dm.unboundActs
  {
    BuildPropsMeaning(problem.props);
    var r := BuildProps(problem.props).value;
    assert r.0 == InputProps(problem.props);
    var sorted := SortByKey(r.0, PropIdent);
    SortByKeyCorrect(r.0, PropIdent);
    BuildActsMeaning(problem.acts, sorted, dm.unboundActs, missingSchema);
    var built := BuildActs(problem.acts, sorted, dm.unboundActs, missingSchema).value;
    BuildActsValues(problem.acts, sorted, dm.unboundActs, missingSchema);
    assert forall i :: 0 <= i < |problem.acts| ==> ActInputOk(problem.acts[i], sorted, dm.unboundActs);
    SortByKeyCorrect(built, ActIdent);
    GoalsAmongProps(problem.props, r.1, r.0, sorted);
    var pm := GetProblemMetaWith(problem, dm, missingSchema).value;
    assert pm.acts == SortByKey(built, ActIdent) && pm.props == sorted && pm.goals == r.1;
    CheckedActsPermuted(problem.acts, sorted, dm.unboundActs, pm.acts);
  }

  /** Every action of a reordering of checked inputs passes the checks and
      has one proposition per slot. */
  lemma CheckedActsPermuted(gs: seq<GroundActInput>, props: seq<BoundProp>, schemas: seq<UnboundAction>, acts: seq<BoundAction>)
    requires forall i :: 0 <= i < |gs| ==> ActInputOk(gs[i], props, schemas)
    requires forall i :: 0 <= i < |gs| ==> MakeBoundAction(gs[i]).Ok?
    requires multiset(acts) == multiset(InputActs(gs))
    ensures forall k :: 0 <= k < |acts| ==>
      PropsIn(acts[k].props, props) && acts[k].prototype in schemas &&
      |acts[k].props| == NumSlots(acts[k].prototype)
  {
    var built := InputActs(gs);
    forall k | 0 <= k < |acts|
      ensures PropsIn(acts[k].props, props) && acts[k].prototype in schemas
      ensures |acts[k].props| == NumSlots(acts[k].prototype)
    {
      assert acts[k] in multiset(built);
      var i :| 0 <= i < |built| && built[i] == acts[k];
      assert ActInputOk(gs[i], props, schemas);
      BindActionMeaning(MakeUnboundAction(gs[i].lifted), ArgList(gs[i].args));
    }
  }

  /** The goals are problem propositions, so the constructor's check on
      them always passes. */
  lemma GoalsAmongProps(ps: seq<PropInput>, goals: seq<BoundProp>, props: seq<BoundProp>, sorted: seq<BoundProp>)
    requires |props| == |ps| && forall i :: 0 <= i < |ps| ==> props[i] == PropOfInput(ps[i])
    requires |goals| == |GoalsOf(ps)| && forall i :: 0 <= i < |goals| ==> goals[i] == PropOfInput(GoalsOf(ps)[i])
    requires multiset(sorted) == multiset(props)
    ensures PropsIn(goals, sorted)
  {
    FilterMembers(ps, (p: PropInput) => p.inGoal);
    forall i | 0 <= i < |goals|
      ensures PropIn(goals[i], sorted)
    {
      assert GoalsOf(ps)[i] in GoalsOf(ps);
      var k :| 0 <= k < |ps| && ps[k] == GoalsOf(ps)[i];
      assert props[k] == goals[i];
      assert goals[i] in multiset(sorted);
      var j :| 0 <= j < |sorted| && sorted[j] == goals[i];
    }
  }

  /** A problem whose ground action belongs to a schema the domain lacks:
      the check fails with AttributeError as written, and as an assertion
      once the message names `prototype`. */
  lemma UnknownSchemaFailure()
    ensures var problem := ProblemInput("p", DomainInput("d", [], []), [], [GroundActInput(LiftedAction("a", [], []), [])]);
      var dm := DomainMeta("d", [], []);
      GetProblemMetaAsWritten(problem, dm) == Err(AttributeError) &&
      GetProblemMeta(problem, dm) == Err(AssertionError)
  {
    var problem := ProblemInput("p", DomainInput("d", [], []), [], [GroundActInput(LiftedAction("a", [], []), [])]);
    var dm := DomainMeta("d", [], []);
    assert GetDomainMeta(problem.domain) == dm;
    var g := GroundActInput(LiftedAction("a", [], []), []);
    assert MakeUnboundAction(g.lifted) == UnboundAction("a", [], []);
    assert MakeBoundAction(g) == Ok(BoundAction(UnboundAction("a", [], []), [], []));
  }
}
