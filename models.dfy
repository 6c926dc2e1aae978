/** The shape and index skeleton of the action schema network (models.py):
  the sizes of the weights `PropNetworkWeights` allocates for every module,
  the layout of the flat input vector, the index lists the network gathers
  and pools with, and the gather list that puts the final action scores
  back into problem order.  Tensor values, initialisers and the arithmetic
  of the layers are not modelled: only shapes and indices.
*/
module Models {
  import opened Wrappers
  import opened PyOps
  import opened ProbDomMeta

  // ---------------------------------------------------------------------
  // Weight shapes
  // ---------------------------------------------------------------------

  /** The weights of one module: a matrix `W` of shape (inSize, outSize)
      and a bias `b` of shape (outSize). */
  datatype Block = Block(inSize: nat, outSize: nat)

  /** `hidden[k]` is the pair (action layer width, proposition layer width)
      of hidden layer `k`. */
  type Sizes = seq<(nat, nat)>

  /** Width of the predicate tensors an action module of layer `k` reads:
      truth value and goal flag at the input, the previous proposition
      layer's width otherwise. */
  function PredTensorWidth(hidden: Sizes, k: nat): nat
    requires k <= |hidden|
  {
    if k == 0 then 2 else hidden[k - 1].1
  }

  /** Input width of the action module of schema `a` in layer `k` (`k ==
      |hidden|` is the final layer). */
  function ActInSize(dm: DomainMeta, hidden: Sizes, extraDim: nat, skip: bool, k: nat, a: UnboundAction): nat
    requires k <= |hidden|
  {
    var n := |RelPredNames(a)|;
    if k == 0 then n * 2 + extraDim
    else n * hidden[k - 1].1 + (if skip then hidden[k - 1].0 else 0)
  }

  /** Output width of an action module: the layer's action width, and a
      single score in the final layer. */
  function ActOutSize(hidden: Sizes, k: nat): nat
    requires k <= |hidden|
  {
    if k < |hidden| then hidden[k].0 else 1
  }

  /** Input width of the proposition module of predicate `p` in hidden
      layer `k`. */
  function PropInSize(dm: DomainMeta, hidden: Sizes, skip: bool, k: nat, p: string): nat
    requires k < |hidden|
  {
    |RelActSlots(dm, p)| * hidden[k].0 + (if k > 0 && skip then hidden[k - 1].1 else 0)
  }

  /** The width of the input a module's matrix multiplication receives in
      the forward pass: one channel of width `chanWidth` per entry of its
      index specification, then the extra channels. */
  function ConvInputWidth(chans: nat, chanWidth: nat, extra: seq<nat>): nat
    decreases |extra|
  {
    if |extra| == 0 then chans * chanWidth
    else ConvInputWidth(chans, chanWidth, extra[..|extra| - 1]) + extra[|extra| - 1]
  }

  /** The extra channels of an action module in layer `k`: the extra input
      data in layer 0 (when there is any), the module's own previous output
      when skip connections are on. */
  function ActExtraChannels(hidden: Sizes, extraDim: nat, skip: bool, k: nat): seq<nat>
    requires k <= |hidden|
  {
    (if k == 0 && extraDim > 0 then [extraDim] else []) +
    (if k > 0 && skip then [hidden[k - 1].0] else [])
  }

  /** The extra channels of a proposition module in hidden layer `k`. */
  function PropExtraChannels(hidden: Sizes, skip: bool, k: nat): seq<nat>
    requires k < |hidden|
  {
    if k > 0 && skip then [hidden[k - 1].1] else []
  }

  /** The matrices allocated in `_make_weights` fit the inputs the forward
      pass builds: one channel per relevant predicate (action modules) or
      per relevant (schema, slot) pair (proposition modules), plus the
      extra channels. */
  lemma WeightsFitForward(dm: DomainMeta, hidden: Sizes, extraDim: nat, skip: bool, k: nat, a: UnboundAction, p: string)
    requires k <= |hidden|
    ensures ConvInputWidth(|RelPredNames(a)|, PredTensorWidth(hidden, k), ActExtraChannels(hidden, extraDim, skip, k))
         == ActInSize(dm, hidden, extraDim, skip, k, a)
    ensures k < |hidden| ==>
      ConvInputWidth(|RelActSlots(dm, p)|, hidden[k].0, PropExtraChannels(hidden, skip, k))
      == PropInSize(dm, hidden, skip, k, p)
  {
    var e := ActExtraChannels(hidden, extraDim, skip, k);
    if |e| > 0 {
      assert e[..|e| - 1] == [];
    }
  }

  function ActBlock(dm: DomainMeta, hidden: Sizes, extraDim: nat, skip: bool, k: nat, a: UnboundAction): Block
    requires k <= |hidden|
  {
    Block(ActInSize(dm, hidden, extraDim, skip, k, a), ActOutSize(hidden, k))
  }

  function PropBlock(dm: DomainMeta, hidden: Sizes, skip: bool, k: nat, p: string): Block
    requires k < |hidden|
  {
    Block(PropInSize(dm, hidden, skip, k, p), hidden[k].1)
  }

  /** The blocks one action layer adds to `all_weights`, in schema order. */
  function ActBlocks(dm: DomainMeta, hidden: Sizes, extraDim: nat, skip: bool, k: nat): (r: seq<Block>)
    requires k <= |hidden|
    ensures |r| == |dm.unboundActs|
  {
    seq(|dm.unboundActs|, i requires 0 <= i < |dm.unboundActs| => ActBlock(dm, hidden, extraDim, skip, k, dm.unboundActs[i]))
  }

  /** The blocks one proposition layer adds, in predicate order. */
  function PropBlocks(dm: DomainMeta, hidden: Sizes, skip: bool, k: nat): (r: seq<Block>)
    requires k < |hidden|
    ensures |r| == |dm.predNames|
  {
    seq(|dm.predNames|, i requires 0 <= i < |dm.predNames| => PropBlock(dm, hidden, skip, k, dm.predNames[i]))
  }

  /** `all_weights` after the first `n` hidden layers. */
  function HiddenBlocks(dm: DomainMeta, hidden: Sizes, extraDim: nat, skip: bool, n: nat): seq<Block>
    requires n <= |hidden|
  {
    if n == 0 then []
    else HiddenBlocks(dm, hidden, extraDim, skip, n - 1) +
         ActBlocks(dm, hidden, extraDim, skip, n - 1) + PropBlocks(dm, hidden, skip, n - 1)
  }

  /** `all_weights` holds one weight pair per module: (|hidden| + 1) action
      layers and |hidden| proposition layers. */
  lemma {:induction false} HiddenBlocksCount(dm: DomainMeta, hidden: Sizes, extraDim: nat, skip: bool, n: nat)
    requires n <= |hidden|
    ensures |HiddenBlocks(dm, hidden, extraDim, skip, n)| == n * (|dm.unboundActs| + |dm.predNames|)
  {
    if n > 0 {
      HiddenBlocksCount(dm, hidden, extraDim, skip, n - 1);
    }
  }

  /** Proposition modules can only be built when every predicate feeds
      some action slot. */
  predicate PredsHaveSlots(dm: DomainMeta) {
    forall i :: 0 <= i < |dm.predNames| ==> |RelActSlots(dm, dm.predNames[i])| > 0
  }

  /** The weight manager: its configuration and the weights it allocated
      per layer. */
  class PropNetworkWeights {
    const domMeta: DomainMeta
    const hidden: Sizes
    const extraDim: nat
    const skip: bool
    var actWeights: seq<map<UnboundAction, Block>>
    var propWeights: seq<map<string, Block>>
    var allWeights: seq<Block>

    /** A layer of action weights: one block per schema of the domain. */
    ghost predicate ActLayerOk(k: nat, d: map<UnboundAction, Block>)
      requires k <= |hidden|
    {
      (forall a :: a in d <==> a in domMeta.unboundActs) &&
      forall a :: a in d ==> d[a] == ActBlock(domMeta, hidden, extraDim, skip, k, a)
    }

    /** A layer of proposition weights: one block per predicate. */
    ghost predicate PropLayerOk(k: nat, d: map<string, Block>)
      requires k < |hidden|
    {
      (forall p :: p in d <==> p in domMeta.predNames) &&
      forall p :: p in d ==> d[p] == PropBlock(domMeta, hidden, skip, k, p)
    }

    /** The configuration part of `__init__`; `MakeWeights` is the rest. */
    constructor(dm: DomainMeta, hiddenSizes: Sizes, extra: nat, useSkip: bool)
      ensures domMeta == dm && hidden == hiddenSizes && extraDim == extra && skip == useSkip
      ensures actWeights == [] && propWeights == [] && allWeights == []
    {
      domMeta := dm;
      hidden := hiddenSizes;
      extraDim := extra;
      skip := useSkip;
      actWeights := [];
      propWeights := [];
      allWeights := [];
    }

    /** The loop that fills `act_dict` for layer `k`. */
    method ActLayer(k: nat) returns (d: map<UnboundAction, Block>, blocks: seq<Block>)
      requires k <= |hidden|
      ensures ActLayerOk(k, d)
      ensures blocks == ActBlocks(domMeta, hidden, extraDim, skip, k)
    {
      var acts := domMeta.unboundActs;
      d := map[];
      blocks := [];
      for i := 0 to |acts|
        invariant forall a :: a in d <==> a in acts[..i]
        invariant forall a :: a in d ==> d[a] == ActBlock(domMeta, hidden, extraDim, skip, k, a)
        invariant blocks == ActBlocks(domMeta, hidden, extraDim, skip, k)[..i]
      {
        var b := ActBlock(domMeta, hidden, extraDim, skip, k, acts[i]);
        d := d[acts[i] := b];
        blocks := blocks + [b];
        assert acts[..i + 1] == acts[..i] + [acts[i]];
      }
      assert acts[..|acts|] == acts;
    }

    /** The loop that fills `pred_dict` for hidden layer `k`, asserting
        that every predicate has a relevant slot. */
    method PropLayer(k: nat) returns (r: Result<(map<string, Block>, seq<Block>)>)
      requires k < |hidden|
      ensures r.Ok? <==> PredsHaveSlots(domMeta)
      ensures r.Err? ==> r.failure == AssertionError
      ensures r.Ok? ==> PropLayerOk(k, r.value.0) && r.value.1 == PropBlocks(domMeta, hidden, skip, k)
    {
      var preds := domMeta.predNames;
      var d := map[];
      var blocks := [];
      for i := 0 to |preds|
        invariant forall j :: 0 <= j < i ==> |RelActSlots(domMeta, preds[j])| > 0
        invariant forall p :: p in d <==> p in preds[..i]
        invariant forall p :: p in d ==> d[p] == PropBlock(domMeta, hidden, skip, k, p)
        invariant blocks == PropBlocks(domMeta, hidden, skip, k)[..i]
      {
        if |RelActSlots(domMeta, preds[i])| == 0 {
          return Err(AssertionError);
        }
        var b := PropBlock(domMeta, hidden, skip, k, preds[i]);
        d := d[preds[i] := b];
        blocks := blocks + [b];
        assert preds[..i + 1] == preds[..i] + [preds[i]];
      }
      assert preds[..|preds|] == preds;
      r := Ok((d, blocks));
    }

    /** The weights of the first `k` hidden layers are allocated. */
    ghost predicate HiddenLayersOk(k: nat)
      reads this
      requires k <= |hidden|
    {
      |actWeights| == k && |propWeights| == k &&
      (forall i :: 0 <= i < k ==> ActLayerOk(i, actWeights[i]) && PropLayerOk(i, propWeights[i])) &&
      allWeights == HiddenBlocks(domMeta, hidden, extraDim, skip, k)
    }

    /** One turn of the loop of `_make_weights`: the action and the
        proposition weights of hidden layer `k`. */
    method AddHiddenLayer(k: nat) returns (err: Option<Failure>)
      requires k < |hidden| && HiddenLayersOk(k)
      modifies this
      ensures err.Some? <==> !PredsHaveSlots(domMeta)
      ensures err.Some? ==> err.value == AssertionError
      ensures err.None? ==> HiddenLayersOk(k + 1)
    {
      var d, blocks := ActLayer(k);
      actWeights := actWeights + [d];
      var r := PropLayer(k);
      if r.Err? {
        return Some(r.failure);
      }
      propWeights := propWeights + [r.value.0];
      allWeights := allWeights + blocks + r.value.1;
      err := None;
    }

    /** `_make_weights`: one action layer and one proposition layer per
        hidden size, then the final action layer; AssertionError when a
        predicate has no relevant slot and there is a hidden layer. */
    method MakeWeights() returns (err: Option<Failure>)
      modifies this
      ensures err.Some? <==> |hidden| > 0 && !PredsHaveSlots(domMeta)
      ensures err.Some? ==> err.value == AssertionError
      ensures err.None? ==>
        |actWeights| == |hidden| + 1 && |propWeights| == |hidden| &&
        (forall k :: 0 <= k <= |hidden| ==> ActLayerOk(k, actWeights[k])) &&
        (forall k :: 0 <= k < |hidden| ==> PropLayerOk(k, propWeights[k])) &&
        allWeights == HiddenBlocks(domMeta, hidden, extraDim, skip, |hidden|) +
                      ActBlocks(domMeta, hidden, extraDim, skip, |hidden|)
    {
      actWeights := [];
      propWeights := [];
      allWeights := [];
      var k := 0;
      while k < |hidden|
        invariant 0 <= k <= |hidden| && HiddenLayersOk(k)
        invariant k > 0 ==> PredsHaveSlots(domMeta)
      {
        err := AddHiddenLayer(k);
        if err.Some? {
          return;
        }
        k := k + 1;
      }
      var d, blocks := ActLayer(|hidden|);
      actWeights := actWeights + [d];
      allWeights := allWeights + blocks;
      err := None;
    }
  }

  // ---------------------------------------------------------------------
  // Restoring proposition weights from a snapshot
  // ---------------------------------------------------------------------

  /** `tf.Variable(initial, shape=declared)`: ValueError unless the
      declared shape is the shape of the initial value. */
  function Variable(initial: seq<nat>, declared: seq<nat>): (r: Result<seq<nat>>)
    ensures r.Ok? <==> initial == declared
    ensures r.Ok? ==> r.value == initial
    ensures r.Err? ==> r.failure == ValueError
  {
    if initial == declared then Ok(initial) else Err(ValueError)
  }

  /** Two variables, a matrix and a bias. */
  function VariablePair(wInit: seq<nat>, wDeclared: seq<nat>, bInit: seq<nat>, bDeclared: seq<nat>): Result<Block> {
    match Variable(wInit, wDeclared)
    case Err(f) => Err(f)
    case Ok(w) =>
      match Variable(bInit, bDeclared)
      case Err(f) => Err(f)
      case Ok(b) => if |w| == 2 && |b| == 1 then Ok(Block(w[0], w[1])) else Err(ValueError)
  }

  /** The restore branch of a proposition module as written: the initial
      values have the proposition width, the declared shapes the action
      width. */
  function RestorePropBlockAsWritten(inSize: nat, actSize: nat, propSize: nat): Result<Block> {
    VariablePair([inSize, propSize], [inSize, actSize], [propSize], [actSize])
  }

  /** The restore branch with the declared shapes made of the proposition
      width, as in the fresh branch. */
  function RestorePropBlock(inSize: nat, actSize: nat, propSize: nat): Result<Block> {
    VariablePair([inSize, propSize], [inSize, propSize], [propSize], [propSize])
  }

  /** Restoring succeeds exactly when the layer's two widths coincide. */
  lemma RestorePropBlockAsWrittenFails(inSize: nat, actSize: nat, propSize: nat)
    ensures RestorePropBlockAsWritten(inSize, actSize, propSize).Ok? <==> actSize == propSize
    ensures RestorePropBlockAsWritten(3, 4, 8) == Err(ValueError)
  {
    assert [inSize, propSize] == [inSize, actSize] <==> actSize == propSize by {
      if [inSize, propSize] == [inSize, actSize] {
        assert [inSize, propSize][1] == [inSize, actSize][1];
      }
    }
  }

  /** The corrected restore branch always gives the block the fresh branch
      builds, whatever the two widths. */
  lemma RestorePropBlockMatchesFresh(dm: DomainMeta, hidden: Sizes, skip: bool, k: nat, p: string)
    requires k < |hidden|
    ensures RestorePropBlock(PropInSize(dm, hidden, skip, k, p), hidden[k].0, hidden[k].1)
         == Ok(PropBlock(dm, hidden, skip, k, p))
  {
  }

  // ---------------------------------------------------------------------
  // The flat input vector
  // ---------------------------------------------------------------------

  /** A position of the network input: the mask entry of an action, an
      extra-data entry of an action, or the truth value of a proposition. */
  datatype InputPos = MaskPos(act: nat) | ExtraPos(act: nat, chan: nat) | PropPos(prop: nat)

  predicate ValidPos(numActs: nat, extraDim: nat, numProps: nat, p: InputPos) {
    match p
    case MaskPos(i) => i < numActs
    case ExtraPos(g, d) => g < numActs && d < extraDim
    case PropPos(i) => i < numProps
  }

  /** |mask| + |action data| + |propositions|. */
  function InputWidth(numActs: nat, extraDim: nat, numProps: nat): nat {
    numActs + extraDim * numActs + numProps
  }

  /** Where `call` reads each item: the mask first, then the action data
      reshaped to (actions, extraDim), then the propositions. */
  function EncodePos(numActs: nat, extraDim: nat, p: InputPos): nat {
    match p
    case MaskPos(i) => i
    case ExtraPos(g, d) => numActs + g * extraDim + d
    case PropPos(i) => numActs + extraDim * numActs + i
  }

  function DecodePos(numActs: nat, extraDim: nat, x: nat): InputPos {
    if x < numActs then MaskPos(x)
    else if extraDim > 0 && x < numActs + extraDim * numActs then
      ExtraPos((x - numActs) / extraDim, (x - numActs) % extraDim)
    else PropPos(x - numActs - extraDim * numActs)
  }

  lemma MulDistrib(a: int, b: int, e: int)
    ensures (a - b) * e == a * e - b * e
  {
  }

  lemma {:induction false} MulAtLeast(a: nat, e: nat)
    requires a >= 1
    ensures a * e >= e
    decreases a
  {
    if a > 1 {
      MulAtLeast(a - 1, e);
      MulDistrib(a, 1, e);
    }
  }

  lemma DivModOf(g: nat, e: nat, d: nat)
    requires d < e
    ensures (g * e + d) / e == g && (g * e + d) % e == d
  {
    var x := g * e + d;
    var q, r := x / e, x % e;
    assert x == q * e + r && 0 <= r < e;
    MulDistrib(q, g, e);
    if q > g {
      MulAtLeast(q - g, e);
    } else if q < g {
      MulDistrib(g, q, e);
      MulAtLeast(g - q, e);
    }
  }

  lemma ExtraBelowProps(numActs: nat, extraDim: nat, g: nat, d: nat)
    requires g < numActs && d < extraDim
    ensures g * extraDim + d < extraDim * numActs
  {
    MulAtLeast(numActs - g, extraDim);
    MulDistrib(numActs, g, extraDim);
  }

  /** The three regions partition the input: every valid item has one
      position inside the input ... */
  lemma EncodeThenDecode(numActs: nat, extraDim: nat, numProps: nat, p: InputPos)
    requires ValidPos(numActs, extraDim, numProps, p)
    ensures EncodePos(numActs, extraDim, p) < InputWidth(numActs, extraDim, numProps)
    ensures DecodePos(numActs, extraDim, EncodePos(numActs, extraDim, p)) == p
  {
    if p.ExtraPos? {
      ExtraBelowProps(numActs, extraDim, p.act, p.chan);
      DivModOf(p.act, extraDim, p.chan);
    }
  }

  /** ... and every position of the input holds one valid item. */
  lemma DecodeThenEncode(numActs: nat, extraDim: nat, numProps: nat, x: nat)
    requires x < InputWidth(numActs, extraDim, numProps)
    ensures ValidPos(numActs, extraDim, numProps, DecodePos(numActs, extraDim, x))
    ensures EncodePos(numActs, extraDim, DecodePos(numActs, extraDim, x)) == x
  {
    if numActs <= x < numActs + extraDim * numActs {
      DecodeExtra(numActs, extraDim, x - numActs);
    }
  }

  lemma DecodeExtra(numActs: nat, extraDim: nat, y: nat)
    requires y < extraDim * numActs
    ensures extraDim > 0
    ensures y / extraDim < numActs && y % extraDim < extraDim
    ensures y == (y / extraDim) * extraDim + y % extraDim
  {
    if extraDim > 0 && y / extraDim >= numActs {
      MulDistrib(y / extraDim, numActs, extraDim);
    }
  }

  /** `goal_vec`: one flag per proposition, set for the goals. */
  function GoalFlags(pm: ProblemMeta): (r: seq<bool>)
    ensures |r| == |pm.props|
  {
    seq(|pm.props|, i requires 0 <= i < |pm.props| => PropIn(pm.props[i], pm.goals))
  }

  function CountTrue(bs: seq<bool>): nat
    decreases |bs|
  {
    if |bs| == 0 then 0 else (if bs[0] then 1 else 0) + CountTrue(bs[1..])
  }

  lemma {:induction false} CountTrueBounds(bs: seq<bool>)
    ensures CountTrue(bs) <= |bs|
    ensures CountTrue(bs) > 0 <==> exists i :: 0 <= i < |bs| && bs[i]
    ensures CountTrue(bs) == |bs| <==> forall i :: 0 <= i < |bs| ==> bs[i]
    decreases |bs|
  {
    if |bs| > 0 {
      CountTrueBounds(bs[1..]);
      assert forall i :: 0 < i < |bs| ==> bs[i] == bs[1..][i - 1];
    }
  }

  /** The goal flags and the three assertions made on them: as many set
      flags as goals, some set, and not all set. */
  function ObsGoals(pm: ProblemMeta): Result<seq<bool>> {
    var g := GoalFlags(pm);
    if CountTrue(g) != |pm.goals| then Err(AssertionError)
    else if CountTrue(g) == 0 then Err(AssertionError)
    else if CountTrue(g) == |g| then Err(AssertionError)
    else Ok(g)
  }

  lemma ObsGoalsMeaning(pm: ProblemMeta)
    ensures ObsGoals(pm).Ok? <==>
      CountTrue(GoalFlags(pm)) == |pm.goals| &&
      (exists i :: 0 <= i < |pm.props| && PropIn(pm.props[i], pm.goals)) &&
      (exists i :: 0 <= i < |pm.props| && !PropIn(pm.props[i], pm.goals))
    ensures ObsGoals(pm).Err? ==> ObsGoals(pm).failure == AssertionError
    ensures ObsGoals(pm).Ok? ==> 0 < |pm.goals| < |pm.props|
  {
    var g := GoalFlags(pm);
    CountTrueBounds(g);
    assert forall i :: 0 <= i < |g| ==> g[i] == PropIn(pm.props[i], pm.goals);
  }

  // ---------------------------------------------------------------------
  // _split_input and _split_extra
  // ---------------------------------------------------------------------

  /** The position in `xs` of every item of `ys`, by identifier:
      `xs.index(y)` when `first`, a lookup in the dictionary
      `{x: i for i, x in enumerate(xs)}` otherwise. */
  function Positions<T>(ys: seq<T>, xs: seq<T>, key: T -> string, first: bool): Result<seq<nat>>
    decreases |ys|
  {
    if |ys| == 0 then Ok([])
    else
      var here := if first then FirstIndex(xs, key, key(ys[0])) else LastIndex(xs, key, key(ys[0]));
      match here
      case Err(f) => Err(f)
      case Ok(i) =>
        match Positions(ys[1..], xs, key, first)
        case Err(f) => Err(f)
        case Ok(rest) => Ok([i] + rest)
  }

  lemma {:induction false} PositionsOfMembers<T>(ys: seq<T>, xs: seq<T>, key: T -> string, first: bool)
    requires StrictlySortedBy(xs, key)
    requires forall i :: 0 <= i < |ys| ==> ys[i] in xs
    ensures Positions(ys, xs, key, first).Ok?
    ensures var r := Positions(ys, xs, key, first).value;
      |r| == |ys| && forall i :: 0 <= i < |ys| ==> r[i] < |xs| && xs[r[i]] == ys[i]
    decreases |ys|
  {
    if |ys| > 0 {
      var k :| 0 <= k < |xs| && xs[k] == ys[0];
      FirstIndexOfDistinct(xs, key, k);
      LastIndexOfDistinct(xs, key, k);
      PositionsOfMembers(ys[1..], xs, key, first);
      assert forall i :: 0 < i < |ys| ==> ys[i] == ys[1..][i - 1];
    }
  }

  /** A gathered input, or a zero placeholder for a predicate or schema
      with nothing to gather. */
  datatype Gathered = Gather(indices: seq<nat>) | Zeros

  function AsGathered(r: Result<seq<nat>>): Result<Gathered> {
    match r
    case Err(f) => Err(f)
    case Ok(inds) => Ok(if |inds| == 0 then Zeros else Gather(inds))
  }

  /** The flat proposition positions gathered for predicate `pred`. */
  function PredGather(pm: ProblemMeta, pred: string): Result<Gathered> {
    AsGathered(Positions(PredToProps(pm, pred), pm.props, PropIdent, false))
  }

  /** The action positions gathered from the extra data for schema `a`.
      The ground actions are already in subtensor order. */
  function ExtraGather(pm: ProblemMeta, a: UnboundAction): Result<Gathered> {
    AsGathered(Positions(SchemaToActs(pm, a), pm.acts, ActIdent, true))
  }

  /** `_split_input`: a gathered entry per predicate. */
  function SplitInput(pm: ProblemMeta, preds: seq<string>): Result<map<string, Gathered>>
    decreases |preds|
  {
    if |preds| == 0 then Ok(map[])
    else match PredGather(pm, preds[0])
      case Err(f) => Err(f)
      case Ok(e) =>
        match SplitInput(pm, preds[1..])
        case Err(f) => Err(f)
        case Ok(m) => Ok(m[preds[0] := e])
  }

  /** `_split_extra`: a gathered entry per schema. */
  function SplitExtra(pm: ProblemMeta, acts: seq<UnboundAction>): Result<map<UnboundAction, Gathered>>
    decreases |acts|
  {
    if |acts| == 0 then Ok(map[])
    else match ExtraGather(pm, acts[0])
      case Err(f) => Err(f)
      case Ok(e) =>
        match SplitExtra(pm, acts[1..])
        case Err(f) => Err(f)
        case Ok(m) => Ok(m[acts[0] := e])
  }

  /** With propositions in strict identifier order, predicate `pred`
      gathers, in order, the flat positions of its propositions, and gets
      the placeholder exactly when it has none. */
  lemma PredGatherMeaning(pm: ProblemMeta, pred: string)
    requires StrictlySortedBy(pm.props, PropIdent)
    ensures PredGather(pm, pred).Ok?
    ensures PredGather(pm, pred).value.Zeros? <==> |PredToProps(pm, pred)| == 0
    ensures PredGather(pm, pred).value.Gather? ==>
      var inds := PredGather(pm, pred).value.indices;
      |inds| == |PredToProps(pm, pred)| &&
      forall i :: 0 <= i < |inds| ==> inds[i] < |pm.props| && pm.props[inds[i]] == PredToProps(pm, pred)[i]
  {
    var ps := PredToProps(pm, pred);
    PredToPropsMeaning(pm, pred);
    assert forall i :: 0 <= i < |ps| ==> ps[i] in ps;
    PositionsOfMembers(ps, pm.props, PropIdent, false);
  }

  /** With actions in strict identifier order, schema `a` gathers, in
      order, the positions of its ground actions. */
  lemma ExtraGatherMeaning(pm: ProblemMeta, a: UnboundAction)
    requires StrictlySortedBy(pm.acts, ActIdent)
    ensures ExtraGather(pm, a).Ok?
    ensures ExtraGather(pm, a).value.Zeros? <==> |SchemaToActs(pm, a)| == 0
    ensures ExtraGather(pm, a).value.Gather? ==>
      var inds := ExtraGather(pm, a).value.indices;
      |inds| == |SchemaToActs(pm, a)| &&
      forall i :: 0 <= i < |inds| ==> inds[i] < |pm.acts| && pm.acts[inds[i]] == SchemaToActs(pm, a)[i]
  {
    var gs := SchemaToActs(pm, a);
    SchemaToActsMeaning(pm, a);
    assert forall i :: 0 <= i < |gs| ==> gs[i] in gs;
    PositionsOfMembers(gs, pm.acts, ActIdent, true);
  }

  /** Every predicate gets an entry, the one `PredGather` describes. */
  lemma {:induction false} SplitInputMeaning(pm: ProblemMeta, preds: seq<string>)
    requires StrictlySortedBy(pm.props, PropIdent)
    ensures SplitInput(pm, preds).Ok?
    ensures forall p :: p in SplitInput(pm, preds).value <==> p in preds
    ensures forall p :: p in SplitInput(pm, preds).value ==> Ok(SplitInput(pm, preds).value[p]) == PredGather(pm, p)
    decreases |preds|
  {
    if |preds| > 0 {
      PredGatherMeaning(pm, preds[0]);
      SplitInputMeaning(pm, preds[1..]);
      assert forall p :: p in preds <==> p == preds[0] || p in preds[1..];
    }
  }

  /** Every schema gets an entry, the one `ExtraGather` describes. */
  lemma {:induction false} SplitExtraMeaning(pm: ProblemMeta, acts: seq<UnboundAction>)
    requires StrictlySortedBy(pm.acts, ActIdent)
    ensures SplitExtra(pm, acts).Ok?
    ensures forall a :: a in SplitExtra(pm, acts).value <==> a in acts
    ensures forall a :: a in SplitExtra(pm, acts).value ==> Ok(SplitExtra(pm, acts).value[a]) == ExtraGather(pm, a)
    decreases |acts|
  {
    if |acts| > 0 {
      ExtraGatherMeaning(pm, acts[0]);
      SplitExtraMeaning(pm, acts[1..]);
      assert forall a :: a in acts <==> a == acts[0] || a in acts[1..];
    }
  }

  // ---------------------------------------------------------------------
  // _sort_inputs
  // ---------------------------------------------------------------------

  /** `{k: i for i, k in enumerate(ks)}`: a later occurrence wins. */
  function IndexMap<K(==)>(ks: seq<K>): map<K, nat>
    decreases |ks|
  {
    if |ks| == 0 then map[] else IndexMap(ks[..|ks| - 1])[ks[|ks| - 1] := |ks| - 1]
  }

  lemma {:induction false} IndexMapMeaning<K>(ks: seq<K>)
    ensures forall k :: k in IndexMap(ks) <==> k in ks
    ensures forall k :: k in IndexMap(ks) ==> IndexMap(ks)[k] < |ks| && ks[IndexMap(ks)[k]] == k
    ensures NoDuplicates(ks) ==> forall i :: 0 <= i < |ks| ==> IndexMap(ks)[ks[i]] == i
    decreases |ks|
  {
    if |ks| > 0 {
      var init := ks[..|ks| - 1];
      IndexMapMeaning(init);
      assert forall k :: k in ks <==> k in init || k == ks[|ks| - 1];
      assert forall i :: 0 <= i < |init| ==> init[i] == ks[i];
    }
  }

  function KeysOf<K, V>(items: seq<(K, V)>): (r: seq<K>)
    ensures |r| == |items|
  {
    seq(|items|, i requires 0 <= i < |items| => items[i].0)
  }

  function ValuesOf<K, V>(items: seq<(K, V)>): (r: seq<V>)
    ensures |r| == |items|
  {
    seq(|items|, i requires 0 <= i < |items| => items[i].1)
  }

  /** The sort key of a dictionary item: the key of its key. */
  function ItemKey<K, V>(key: K -> seq<string>): ((K, V)) -> seq<string> {
    (p: (K, V)) => key(p.0)
  }

  function SortedItems<K, V>(items: seq<(K, V)>, key: K -> seq<string>): seq<(K, V)> {
    SortByKeys(items, ItemKey(key))
  }

  /** `_sort_inputs(prev_dict)`: the items sorted by key, the position of
      each key in that order, and the tensors in that order. */
  function SortInputs<K(==), V>(items: seq<(K, V)>, key: K -> seq<string>): (map<K, nat>, seq<V>) {
    var sorted := SortedItems(items, key);
    (IndexMap(KeysOf(sorted)), ValuesOf(sorted))
  }

  /** The order the two results imply agree: every key of the dictionary
      is indexed, and its index picks out its own tensor. The items come out
      sorted by key and are only permuted. */
  lemma SortInputsMeaning<K, V>(items: seq<(K, V)>, key: K -> seq<string>)
    ensures multiset(SortedItems(items, key)) == multiset(items)
    ensures SortedByKeys(SortedItems(items, key), ItemKey(key))
    ensures |SortInputs(items, key).1| == |items|
    ensures forall k :: k in SortInputs(items, key).0 <==> k in KeysOf(items)
    ensures forall k :: k in SortInputs(items, key).0 ==>
      SortInputs(items, key).0[k] < |items| && (k, SortInputs(items, key).1[SortInputs(items, key).0[k]]) in items
  {
    var sorted := SortedItems(items, key);
    SortByKeysCorrect(items, ItemKey(key));
    var ks := KeysOf(sorted);
    IndexMapMeaning(ks);
    PermutedItems(items, sorted);
    forall k | k in IndexMap(ks)
      ensures (k, ValuesOf(sorted)[IndexMap(ks)[k]]) in items
    {
      var i := IndexMap(ks)[k];
      assert sorted[i] == (k, ValuesOf(sorted)[i]);
    }
  }

  /** A permutation of a dictionary's items holds the same items and the
      same keys. */
  lemma PermutedItems<K, V>(items: seq<(K, V)>, sorted: seq<(K, V)>)
    requires multiset(sorted) == multiset(items)
    ensures forall p :: p in sorted ==> p in items
    ensures forall k :: k in KeysOf(sorted) <==> k in KeysOf(items)
  {
    forall p | p in sorted
      ensures p in items
    {
      assert p in multiset(items);
    }
    var ks := KeysOf(sorted);
    forall k
      ensures k in ks <==> k in KeysOf(items)
    {
      if k in ks {
        var i :| 0 <= i < |ks| && ks[i] == k;
        assert sorted[i] in multiset(items);
        var j :| 0 <= j < |items| && items[j] == sorted[i];
        assert KeysOf(items)[j] == k;
      }
      if k in KeysOf(items) {
        var j :| 0 <= j < |items| && KeysOf(items)[j] == k;
        assert items[j] in multiset(sorted);
        var i :| 0 <= i < |sorted| && sorted[i] == items[j];
        assert ks[i] == k;
      }
    }
  }

  /** The key of a predicate's tensor. */
  function PredKey(p: string): seq<string> {
    [p]
  }

  /** The key of a schema: `(schema_name, param_names)`, the tuple its `<`
      compares. */
  function SchemaKey(a: UnboundAction): seq<string> {
    [a.schemaName] + a.paramNames
  }

  /** Comparing the keys compares the predicate names and the schemas. */
  lemma KeysOrder(p: string, q: string, a: UnboundAction, b: UnboundAction)
    ensures StrsLess(PredKey(p), PredKey(q)) <==> StrLess(p, q)
    ensures StrsLess(SchemaKey(a), SchemaKey(b)) <==> SchemaLess(a, b)
  {
    assert SchemaKey(a)[1..] == a.paramNames && SchemaKey(b)[1..] == b.paramNames;
    assert PredKey(p)[1..] == [] && PredKey(q)[1..] == [];
  }

  // ---------------------------------------------------------------------
  // ActionPropModule.forward: the gather of an action module
  // ---------------------------------------------------------------------

  /** The inputs of an action module: a zero placeholder for a schema
      without ground actions, or, for each relevant predicate in slot order,
      the position of that predicate's tensor among the sorted inputs and
      the column each ground action reads from it. */
  datatype ActModuleInput = DummyActInput | ActGather(spec: seq<(nat, seq<nat>)>)

  /** The column of slot `j`'s proposition for each action of `gs`. */
  function ActPools(pm: ProblemMeta, gs: seq<BoundAction>, j: nat): Result<seq<nat>>
    decreases |gs|
  {
    if |gs| == 0 then Ok([])
    else if j >= |gs[0].props| then Err(IndexError)
    else match PropToPredSubtensorInd(pm, gs[0].props[j])
      case Err(f) => Err(f)
      case Ok(i) =>
        match ActPools(pm, gs[1..], j)
        case Err(f) => Err(f)
        case Ok(rest) => Ok([i] + rest)
  }

  /** The index spec for the slots `j`, `j + 1`, ... whose predicates are
      `preds`. */
  function ActSpecEntries(pm: ProblemMeta, gs: seq<BoundAction>, preds: seq<string>, j: nat,
                          predToIdx: map<string, nat>): Result<seq<(nat, seq<nat>)>>
    decreases |preds|
  {
    if |preds| == 0 then Ok([])
    else match ActPools(pm, gs, j)
      case Err(f) => Err(f)
      case Ok(pools) =>
        if preds[0] !in predToIdx then Err(KeyError)
        else match ActSpecEntries(pm, gs, preds[1..], j + 1, predToIdx)
          case Err(f) => Err(f)
          case Ok(rest) => Ok([(predToIdx[preds[0]], pools)] + rest)
  }

  /** What the action module for schema `a` gathers, given the positions
      of the predicate tensors. */
  function ActModuleGather(pm: ProblemMeta, a: UnboundAction, predToIdx: map<string, nat>): Result<ActModuleInput> {
    var gs := SchemaToActs(pm, a);
    if |gs| == 0 then Ok(DummyActInput)
    else match ActSpecEntries(pm, gs, RelPredNames(a), 0, predToIdx)
      case Err(f) => Err(f)
      case Ok(spec) => Ok(ActGather(spec))
  }

  /** Every ground action of `a` has one proposition per slot, each one of
      the problem's propositions and of the slot's predicate, as `bind`
      builds them. */
  predicate ActsMatchSchema(pm: ProblemMeta, a: UnboundAction) {
    forall g :: g in SchemaToActs(pm, a) ==>
      |g.props| == |RelPredNames(a)| &&
      forall j :: 0 <= j < |g.props| ==> g.props[j] in pm.props && g.props[j].predName == RelPredNames(a)[j]
  }

  /** Slot `j` of `g` holds one of the problem's propositions, of
      predicate `pred`. */
  predicate SlotHolds(pm: ProblemMeta, g: BoundAction, j: nat, pred: string) {
    j < |g.props| && g.props[j] in pm.props && g.props[j].predName == pred
  }

  /** Slot `j + m` of every action of `gs` holds a proposition of
      `preds[m]`. */
  predicate SlotsHold(pm: ProblemMeta, gs: seq<BoundAction>, preds: seq<string>, j: nat) {
    forall k, m :: 0 <= k < |gs| && 0 <= m < |preds| ==> SlotHolds(pm, gs[k], j + m, preds[m])
  }

  /** `pools[k]` is the column, among the propositions of `pred`, of the
      proposition in slot `j` of `gs[k]`. */
  predicate PoolsRead(pm: ProblemMeta, gs: seq<BoundAction>, pools: seq<nat>, j: nat, pred: string) {
    |pools| == |gs| &&
    forall k :: 0 <= k < |gs| ==>
      SlotHolds(pm, gs[k], j, pred) && pools[k] < |PredToProps(pm, pred)| &&
      PredToProps(pm, pred)[pools[k]] == gs[k].props[j]
  }

  lemma {:induction false} ActPoolsMeaning(pm: ProblemMeta, gs: seq<BoundAction>, j: nat, pred: string)
    requires StrictlySortedBy(pm.props, PropIdent)
    requires forall k :: 0 <= k < |gs| ==> SlotHolds(pm, gs[k], j, pred)
    ensures ActPools(pm, gs, j).Ok?
    ensures PoolsRead(pm, gs, ActPools(pm, gs, j).value, j, pred)
    decreases |gs|
  {
    if |gs| > 0 {
      var x := gs[0].props[j];
      var ps := PredToProps(pm, pred);
      assert SlotHolds(pm, gs[0], j, pred);
      PredToPropsMeaning(pm, pred);
      var m :| 0 <= m < |ps| && ps[m] == x;
      PropSubtensorIndInverts(pm, pred, m);
      assert forall k :: 0 < k < |gs| ==> gs[k] == gs[1..][k - 1];
      ActPoolsMeaning(pm, gs[1..], j, pred);
    }
  }

  /** The index spec of slots `j`, `j + 1`, ...: each entry names the
      tensor of its predicate and reads the columns of its propositions. */
  predicate SpecReads(pm: ProblemMeta, gs: seq<BoundAction>, preds: seq<string>, j: nat,
                      predToIdx: map<string, nat>, spec: seq<(nat, seq<nat>)>) {
    |spec| == |preds| &&
    forall m :: 0 <= m < |preds| ==>
      preds[m] in predToIdx && spec[m].0 == predToIdx[preds[m]] && PoolsRead(pm, gs, spec[m].1, j + m, preds[m])
  }

  /** The slots of the first predicate hold, and so do those of the rest
      one position further on. */
  lemma SlotsHoldSplit(pm: ProblemMeta, gs: seq<BoundAction>, preds: seq<string>, j: nat)
    requires |preds| > 0 && SlotsHold(pm, gs, preds, j)
    ensures forall k :: 0 <= k < |gs| ==> SlotHolds(pm, gs[k], j, preds[0])
    ensures SlotsHold(pm, gs, preds[1..], j + 1)
  {
    forall k | 0 <= k < |gs|
      ensures SlotHolds(pm, gs[k], j, preds[0])
    {
      assert SlotHolds(pm, gs[k], j + 0, preds[0]);
    }
    forall k, m | 0 <= k < |gs| && 0 <= m < |preds[1..]|
      ensures SlotHolds(pm, gs[k], j + 1 + m, preds[1..][m])
    {
      assert SlotHolds(pm, gs[k], j + (m + 1), preds[m + 1]);
    }
  }

  /** An entry for the first predicate in front of a spec that reads the
      rest is a spec that reads them all. */
  lemma SpecReadsCons(pm: ProblemMeta, gs: seq<BoundAction>, preds: seq<string>, j: nat,
                      predToIdx: map<string, nat>, pools: seq<nat>, rest: seq<(nat, seq<nat>)>)
    requires |preds| > 0 && preds[0] in predToIdx
    requires PoolsRead(pm, gs, pools, j, preds[0])
    requires SpecReads(pm, gs, preds[1..], j + 1, predToIdx, rest)
    ensures SpecReads(pm, gs, preds, j, predToIdx, [(predToIdx[preds[0]], pools)] + rest)
  {
    var spec := [(predToIdx[preds[0]], pools)] + rest;
    forall m | 0 < m < |preds|
      ensures preds[m] in predToIdx && spec[m].0 == predToIdx[preds[m]] && PoolsRead(pm, gs, spec[m].1, j + m, preds[m])
    {
      assert spec[m] == rest[m - 1] && preds[m] == preds[1..][m - 1];
      assert j + 1 + (m - 1) == j + m;
    }
  }

  lemma {:induction false} ActSpecEntriesMeaning(pm: ProblemMeta, gs: seq<BoundAction>, preds: seq<string>, j: nat,
                                                 predToIdx: map<string, nat>)
    requires StrictlySortedBy(pm.props, PropIdent)
    requires SlotsHold(pm, gs, preds, j)
    ensures ActSpecEntries(pm, gs, preds, j, predToIdx).Ok? <==> forall m :: 0 <= m < |preds| ==> preds[m] in predToIdx
    ensures ActSpecEntries(pm, gs, preds, j, predToIdx).Err? ==> ActSpecEntries(pm, gs, preds, j, predToIdx).failure == KeyError
    ensures ActSpecEntries(pm, gs, preds, j, predToIdx).Ok? ==>
      SpecReads(pm, gs, preds, j, predToIdx, ActSpecEntries(pm, gs, preds, j, predToIdx).value)
    decreases |preds|
  {
    if |preds| > 0 {
      SlotsHoldSplit(pm, gs, preds, j);
      ActPoolsMeaning(pm, gs, j, preds[0]);
      ActSpecEntriesMeaning(pm, gs, preds[1..], j + 1, predToIdx);
      assert forall m :: 0 < m < |preds| ==> preds[m] == preds[1..][m - 1];
      var r := ActSpecEntries(pm, gs, preds, j, predToIdx);
      if r.Ok? {
        var rest := ActSpecEntries(pm, gs, preds[1..], j + 1, predToIdx).value;
        SpecReadsCons(pm, gs, preds, j, predToIdx, ActPools(pm, gs, j).value, rest);
      }
    }
  }

  /** An action module with ground actions reads, for its `j`-th relevant
      predicate, the tensor that the sorted inputs hold for that predicate,
      and from it the column of each ground action's `j`-th proposition; it
      fails with KeyError exactly when a relevant predicate has no tensor. */
  lemma ActModuleGatherMeaning(pm: ProblemMeta, a: UnboundAction, predToIdx: map<string, nat>)
    requires StrictlySortedBy(pm.props, PropIdent)
    requires ActsMatchSchema(pm, a)
    ensures var gs := SchemaToActs(pm, a);
      var preds := RelPredNames(a);
      var r := ActModuleGather(pm, a, predToIdx);
      (r.Ok? && r.value.DummyActInput? <==> |gs| == 0) &&
      (r.Ok? <==> |gs| == 0 || forall m :: 0 <= m < |preds| ==> preds[m] in predToIdx) &&
      (r.Err? ==> r.failure == KeyError) &&
      (r.Ok? && r.value.ActGather? ==> SpecReads(pm, gs, preds, 0, predToIdx, r.value.spec))
  {
    var gs := SchemaToActs(pm, a);
    var preds := RelPredNames(a);
    forall k, m | 0 <= k < |gs| && 0 <= m < |preds|
      ensures SlotHolds(pm, gs[k], 0 + m, preds[m])
    {
      assert gs[k] in gs;
    }
    ActSpecEntriesMeaning(pm, gs, preds, 0, predToIdx);
  }

  // ---------------------------------------------------------------------
  // ActionPropModule.forward: the pools of a proposition module
  // ---------------------------------------------------------------------

  /** The inputs of a proposition module: a zero placeholder for a
      predicate without ground propositions, or, for each (schema, slot)
      pair of the predicate, the position of the schema's tensor among the
      sorted inputs and, for each proposition, the pool of action columns
      to take the maximum over. */
  datatype PropModuleInput = DummyPropInput | PropGather(spec: seq<(nat, seq<seq<nat>>)>)

  /** The ground actions `rel_act_slots(prop)` lists under (`s`, `slot`). */
  function MatchingActs(rs: seq<SlotActs>, s: UnboundAction, slot: nat): seq<BoundAction>
    decreases |rs|
  {
    if |rs| == 0 then []
    else (if rs[0].schema == s && rs[0].slot == slot then rs[0].acts else []) + MatchingActs(rs[1..], s, slot)
  }

  lemma {:induction false} MatchingActsMembers(rs: seq<SlotActs>, s: UnboundAction, slot: nat)
    ensures forall g :: g in MatchingActs(rs, s, slot) <==>
      exists k :: 0 <= k < |rs| && rs[k].schema == s && rs[k].slot == slot && g in rs[k].acts
    decreases |rs|
  {
    if |rs| > 0 {
      MatchingActsMembers(rs[1..], s, slot);
      assert forall k :: 0 < k < |rs| ==> rs[k] == rs[1..][k - 1];
      forall g | exists k :: 0 <= k < |rs| && rs[k].schema == s && rs[k].slot == slot && g in rs[k].acts
        ensures g in MatchingActs(rs, s, slot)
      {
        var k :| 0 <= k < |rs| && rs[k].schema == s && rs[k].slot == slot && g in rs[k].acts;
        if k > 0 {
          assert rs[1..][k - 1] == rs[k];
        }
      }
    }
  }

  /** `[act_to_schema_subtensor_ind(g) for g in gs]`. */
  function SubtensorInds(pm: ProblemMeta, gs: seq<BoundAction>): Result<seq<nat>>
    decreases |gs|
  {
    if |gs| == 0 then Ok([])
    else match ActToSchemaSubtensorInd(pm, gs[0])
      case Err(f) => Err(f)
      case Ok(i) =>
        match SubtensorInds(pm, gs[1..])
        case Err(f) => Err(f)
        case Ok(rest) => Ok([i] + rest)
  }

  lemma {:induction false} SubtensorIndsMeaning(pm: ProblemMeta, gs: seq<BoundAction>, s: UnboundAction)
    requires StrictlySortedBy(pm.acts, ActIdent)
    requires forall k :: 0 <= k < |gs| ==> gs[k] in SchemaToActs(pm, s)
    ensures SubtensorInds(pm, gs).Ok?
    ensures var v := SubtensorInds(pm, gs).value;
      |v| == |gs| &&
      forall k :: 0 <= k < |gs| ==> v[k] < |SchemaToActs(pm, s)| && SchemaToActs(pm, s)[v[k]] == gs[k]
    decreases |gs|
  {
    if |gs| > 0 {
      var hs := SchemaToActs(pm, s);
      SchemaToActsMeaning(pm, s);
      var m :| 0 <= m < |hs| && hs[m] == gs[0];
      ActSubtensorIndInverts(pm, s, m);
      assert forall k :: 0 < k < |gs| ==> gs[k] == gs[1..][k - 1];
      SubtensorIndsMeaning(pm, gs[1..], s);
    }
  }

  /** The pool of proposition `x` for (`s`, `slot`): one column per action
      of `s` listing `x` in `slot`, each once. */
  function PropPool(pm: ProblemMeta, x: BoundProp, s: UnboundAction, slot: nat): Result<seq<nat>> {
    match ProblemRelActSlots(pm, x)
    case Err(f) => Err(f)
    case Ok(rs) => SubtensorInds(pm, MatchingActs(rs, s, slot))
  }

  /** `pool` holds exactly the columns of the actions of `s` whose
      proposition in `slot` is `x`. */
  ghost predicate PoolOf(pm: ProblemMeta, pool: seq<nat>, s: UnboundAction, slot: nat, x: BoundProp) {
    forall m: nat :: m in pool <==> m < |SchemaToActs(pm, s)| && HoldsPropAt(SchemaToActs(pm, s)[m], slot, x)
  }

  /** The actions `rel_act_slots(x)` lists under (`s`, `slot`) are the
      actions of `s` holding `x` in `slot`. */
  lemma MatchingActsMeaning(pm: ProblemMeta, x: BoundProp, s: UnboundAction, slot: nat)
    requires WellFormedActs(pm)
    requires (s, slot) in RelActSlots(pm.domain, x.predName)
    ensures ProblemRelActSlots(pm, x).Ok?
    ensures forall g :: g in MatchingActs(ProblemRelActSlots(pm, x).value, s, slot) <==>
      g in SchemaToActs(pm, s) && HoldsPropAt(g, slot, x)
  {
    ProblemRelActSlotsMeaning(pm, x);
    var slots := RelActSlots(pm.domain, x.predName);
    var rs := ProblemRelActSlots(pm, x).value;
    MatchingActsMembers(rs, s, slot);
    SchemaToActsMeaning(pm, s);
    var k0 :| 0 <= k0 < |slots| && slots[k0] == (s, slot);
    assert rs[k0].schema == s && rs[k0].slot == slot;
  }

  lemma PropPoolMeaning(pm: ProblemMeta, x: BoundProp, s: UnboundAction, slot: nat)
    requires WellFormedActs(pm) && StrictlySortedBy(pm.acts, ActIdent)
    requires (s, slot) in RelActSlots(pm.domain, x.predName)
    ensures PropPool(pm, x, s, slot).Ok?
    ensures PoolOf(pm, PropPool(pm, x, s, slot).value, s, slot, x)
  {
    MatchingActsMeaning(pm, x, s, slot);
    var gs := MatchingActs(ProblemRelActSlots(pm, x).value, s, slot);
    var hs := SchemaToActs(pm, s);
    assert forall k :: 0 <= k < |gs| ==> gs[k] in gs;
    SubtensorIndsMeaning(pm, gs, s);
    var inds := SubtensorInds(pm, gs).value;
    forall m: nat
      ensures m in inds <==> m < |hs| && HoldsPropAt(hs[m], slot, x)
    {
      if m in inds {
        var q :| 0 <= q < |inds| && inds[q] == m;
        assert gs[q] in gs;
      }
      if m < |hs| && HoldsPropAt(hs[m], slot, x) {
        assert hs[m] in hs;
        var q :| 0 <= q < |gs| && gs[q] == hs[m];
        ActSubtensorIndInverts(pm, s, m);
        ActSubtensorIndInverts(pm, s, inds[q]);
      }
    }
  }

  /** The pools of the propositions `xs` for (`s`, `slot`). */
  function PropPools(pm: ProblemMeta, xs: seq<BoundProp>, s: UnboundAction, slot: nat): Result<seq<seq<nat>>>
    decreases |xs|
  {
    if |xs| == 0 then Ok([])
    else match PropPool(pm, xs[0], s, slot)
      case Err(f) => Err(f)
      case Ok(pool) =>
        match PropPools(pm, xs[1..], s, slot)
        case Err(f) => Err(f)
        case Ok(rest) => Ok([pool] + rest)
  }

  ghost predicate PoolsOf(pm: ProblemMeta, pools: seq<seq<nat>>, xs: seq<BoundProp>, s: UnboundAction, slot: nat) {
    |pools| == |xs| && forall i :: 0 <= i < |xs| ==> PoolOf(pm, pools[i], s, slot, xs[i])
  }

  lemma {:induction false} PropPoolsMeaning(pm: ProblemMeta, xs: seq<BoundProp>, s: UnboundAction, slot: nat, pred: string)
    requires WellFormedActs(pm) && StrictlySortedBy(pm.acts, ActIdent)
    requires forall i :: 0 <= i < |xs| ==> xs[i].predName == pred
    requires (s, slot) in RelActSlots(pm.domain, pred)
    ensures PropPools(pm, xs, s, slot).Ok?
    ensures PoolsOf(pm, PropPools(pm, xs, s, slot).value, xs, s, slot)
    decreases |xs|
  {
    if |xs| > 0 {
      PropPoolMeaning(pm, xs[0], s, slot);
      assert forall i :: 0 < i < |xs| ==> xs[i] == xs[1..][i - 1];
      PropPoolsMeaning(pm, xs[1..], s, slot, pred);
    }
  }

  /** The index spec of a proposition module over the (schema, slot)
      pairs `slots`. */
  function PropSpecEntries(pm: ProblemMeta, xs: seq<BoundProp>, slots: seq<(UnboundAction, nat)>,
                           actToIdx: map<UnboundAction, nat>): Result<seq<(nat, seq<seq<nat>>)>>
    decreases |slots|
  {
    if |slots| == 0 then Ok([])
    else match PropPools(pm, xs, slots[0].0, slots[0].1)
      case Err(f) => Err(f)
      case Ok(pools) =>
        if slots[0].0 !in actToIdx then Err(KeyError)
        else match PropSpecEntries(pm, xs, slots[1..], actToIdx)
          case Err(f) => Err(f)
          case Ok(rest) => Ok([(actToIdx[slots[0].0], pools)] + rest)
  }

  /** What the proposition module for `pred` gathers, given the positions
      of the schema tensors. */
  function PropModuleGather(pm: ProblemMeta, pred: string, actToIdx: map<UnboundAction, nat>): Result<PropModuleInput> {
    var xs := PredToProps(pm, pred);
    if |xs| == 0 then Ok(DummyPropInput)
    else match PropSpecEntries(pm, xs, RelActSlots(pm.domain, pred), actToIdx)
      case Err(f) => Err(f)
      case Ok(spec) => Ok(PropGather(spec))
  }

  /** Each entry names the tensor of its schema and pools, for each
      proposition, the actions of that schema listing it in that slot. */
  ghost predicate PropSpecReads(pm: ProblemMeta, xs: seq<BoundProp>, slots: seq<(UnboundAction, nat)>,
                          actToIdx: map<UnboundAction, nat>, spec: seq<(nat, seq<seq<nat>>)>) {
    |spec| == |slots| &&
    forall j :: 0 <= j < |slots| ==>
      slots[j].0 in actToIdx && spec[j].0 == actToIdx[slots[j].0] && PoolsOf(pm, spec[j].1, xs, slots[j].0, slots[j].1)
  }

  lemma {:induction false} PropSpecEntriesMeaning(pm: ProblemMeta, xs: seq<BoundProp>, slots: seq<(UnboundAction, nat)>,
                                                  actToIdx: map<UnboundAction, nat>, pred: string)
    requires WellFormedActs(pm) && StrictlySortedBy(pm.acts, ActIdent)
    requires forall i :: 0 <= i < |xs| ==> xs[i].predName == pred
    requires forall j :: 0 <= j < |slots| ==> slots[j] in RelActSlots(pm.domain, pred)
    ensures PropSpecEntries(pm, xs, slots, actToIdx).Ok? <==> forall j :: 0 <= j < |slots| ==> slots[j].0 in actToIdx
    ensures PropSpecEntries(pm, xs, slots, actToIdx).Err? ==> PropSpecEntries(pm, xs, slots, actToIdx).failure == KeyError
    ensures PropSpecEntries(pm, xs, slots, actToIdx).Ok? ==>
      PropSpecReads(pm, xs, slots, actToIdx, PropSpecEntries(pm, xs, slots, actToIdx).value)
    decreases |slots|
  {
    if |slots| > 0 {
      PropPoolsMeaning(pm, xs, slots[0].0, slots[0].1, pred);
      assert forall j :: 0 < j < |slots| ==> slots[j] == slots[1..][j - 1];
      PropSpecEntriesMeaning(pm, xs, slots[1..], actToIdx, pred);
      var r := PropSpecEntries(pm, xs, slots, actToIdx);
      if r.Ok? {
        var rest := PropSpecEntries(pm, xs, slots[1..], actToIdx).value;
        var head := (actToIdx[slots[0].0], PropPools(pm, xs, slots[0].0, slots[0].1).value);
        assert r.value == [head] + rest;
        PropSpecReadsCons(pm, xs, slots, actToIdx, head, rest);
      }
    }
  }

  /** An entry for the first pair before the entries for the others. */
  lemma PropSpecReadsCons(pm: ProblemMeta, xs: seq<BoundProp>, slots: seq<(UnboundAction, nat)>,
                          actToIdx: map<UnboundAction, nat>, head: (nat, seq<seq<nat>>), rest: seq<(nat, seq<seq<nat>>)>)
    requires |slots| > 0 && slots[0].0 in actToIdx && head.0 == actToIdx[slots[0].0]
    requires PoolsOf(pm, head.1, xs, slots[0].0, slots[0].1)
    requires PropSpecReads(pm, xs, slots[1..], actToIdx, rest)
    ensures PropSpecReads(pm, xs, slots, actToIdx, [head] + rest)
  {
    var spec := [head] + rest;
    forall j | 0 < j < |slots|
      ensures slots[j].0 in actToIdx && spec[j].0 == actToIdx[slots[j].0] &&
        PoolsOf(pm, spec[j].1, xs, slots[j].0, slots[j].1)
    {
      assert spec[j] == rest[j - 1] && slots[j] == slots[1..][j - 1];
    }
  }

  /** A proposition module with ground propositions pools, for each
      (schema, slot) pair of its predicate, over the tensor that the sorted
      inputs hold for the schema, and for each proposition over exactly the
      actions listing it in that slot; it fails with KeyError exactly when a
      schema has no tensor. */
  lemma PropModuleGatherMeaning(pm: ProblemMeta, pred: string, actToIdx: map<UnboundAction, nat>)
    requires WellFormedActs(pm) && StrictlySortedBy(pm.acts, ActIdent)
    ensures var xs := PredToProps(pm, pred);
      var slots := RelActSlots(pm.domain, pred);
      var r := PropModuleGather(pm, pred, actToIdx);
      (r.Ok? && r.value.DummyPropInput? <==> |xs| == 0) &&
      (r.Ok? <==> |xs| == 0 || forall j :: 0 <= j < |slots| ==> slots[j].0 in actToIdx) &&
      (r.Err? ==> r.failure == KeyError) &&
      (r.Ok? && r.value.PropGather? ==> PropSpecReads(pm, xs, slots, actToIdx, r.value.spec))
  {
    var xs := PredToProps(pm, pred);
    var slots := RelActSlots(pm.domain, pred);
    PredToPropsMeaning(pm, pred);
    assert forall i :: 0 <= i < |xs| ==> xs[i] in xs;
    assert forall j :: 0 <= j < |slots| ==> slots[j] in slots;
    PropSpecEntriesMeaning(pm, xs, slots, actToIdx, pred);
  }

  // ---------------------------------------------------------------------
  // _merge_finals
  // ---------------------------------------------------------------------

  /** The order of the final action modules: the domain's schemas, each
      once, sorted by `(schema_name, param_names)`. */
  function FinalOrder(pm: ProblemMeta): seq<UnboundAction> {
    SortByKeys(Dedup(pm.domain.unboundActs), SchemaKey)
  }

  /** The actions whose scores the concatenated module outputs hold: the
      actions of each schema of `order` in turn. */
  function ConcatActs(gs: seq<BoundAction>, order: seq<UnboundAction>): seq<BoundAction>
    decreases |order|
  {
    if |order| == 0 then [] else ConcatActs(gs, order[..|order| - 1]) + SchemaActs(gs, order[|order| - 1])
  }

  /** `cumul_sizes[k]`: the number of ground actions of the first `k`
      schemas of `order`. */
  function CumulSize(pm: ProblemMeta, order: seq<UnboundAction>, k: nat): nat
    requires k <= |order|
    decreases k
  {
    if k == 0 then 0 else CumulSize(pm, order, k - 1) + |SchemaToActs(pm, order[k - 1])|
  }

  /** The entry of the concatenated output that holds the score of `g`, and
      the failures on the way: ValueError for an action missing from its
      schema, KeyError for an unknown schema, AssertionError for an index
      past the action count. */
  function GatherIndex(pm: ProblemMeta, order: seq<UnboundAction>, superIdx: map<UnboundAction, nat>,
                       g: BoundAction): Result<nat> {
    match ActToSchemaSubtensorInd(pm, g)
    case Err(f) => Err(f)
    case Ok(sub) =>
      if g.prototype !in superIdx then Err(KeyError)
      else if superIdx[g.prototype] > |order| then Err(IndexError)
      else
        var actual := CumulSize(pm, order, superIdx[g.prototype]) + sub;
        if actual >= |pm.acts| then Err(AssertionError) else Ok(actual)
  }

  function GatherList(pm: ProblemMeta, order: seq<UnboundAction>, superIdx: map<UnboundAction, nat>,
                      gs: seq<BoundAction>): Result<seq<nat>>
    decreases |gs|
  {
    if |gs| == 0 then Ok([])
    else match GatherIndex(pm, order, superIdx, gs[0])
      case Err(f) => Err(f)
      case Ok(i) =>
        match GatherList(pm, order, superIdx, gs[1..])
        case Err(f) => Err(f)
        case Ok(rest) => Ok([i] + rest)
  }

  /** `_merge_finals`: the `gather_list` that reorders the concatenated
      scores into action order. */
  function MergeFinals(pm: ProblemMeta): Result<seq<nat>> {
    var order := FinalOrder(pm);
    GatherList(pm, order, IndexMap(order), pm.acts)
  }

  lemma {:induction false} GatherListMeaning(pm: ProblemMeta, order: seq<UnboundAction>,
                                             superIdx: map<UnboundAction, nat>, gs: seq<BoundAction>)
    ensures GatherList(pm, order, superIdx, gs).Ok? <==>
      forall k :: 0 <= k < |gs| ==> GatherIndex(pm, order, superIdx, gs[k]).Ok?
    ensures GatherList(pm, order, superIdx, gs).Ok? ==>
      var v := GatherList(pm, order, superIdx, gs).value;
      |v| == |gs| && forall k :: 0 <= k < |gs| ==> Ok(v[k]) == GatherIndex(pm, order, superIdx, gs[k])
    decreases |gs|
  {
    if |gs| > 0 {
      GatherListMeaning(pm, order, superIdx, gs[1..]);
      assert forall k :: 0 < k < |gs| ==> gs[k] == gs[1..][k - 1];
    }
  }

  lemma {:induction false} CumulSizeIsLength(pm: ProblemMeta, order: seq<UnboundAction>, k: nat)
    requires k <= |order|
    ensures CumulSize(pm, order, k) == |ConcatActs(pm.acts, order[..k])|
    decreases k
  {
    if k > 0 {
      CumulSizeIsLength(pm, order, k - 1);
      assert order[..k][..k - 1] == order[..k - 1];
    }
  }

  lemma {:induction false} ConcatPrefix(gs: seq<BoundAction>, order: seq<UnboundAction>, k: nat)
    requires k <= |order|
    ensures ConcatActs(gs, order[..k]) <= ConcatActs(gs, order)
    decreases |order|
  {
    if k < |order| {
      var init := order[..|order| - 1];
      ConcatPrefix(gs, init, k);
      assert init[..k] == order[..k];
    } else {
      assert order[..k] == order;
    }
  }

  /** How often `a` occurs in `order`. */
  function Occurrences(order: seq<UnboundAction>, a: UnboundAction): nat
    decreases |order|
  {
    if |order| == 0 then 0 else Occurrences(order[..|order| - 1], a) + (if order[|order| - 1] == a then 1 else 0)
  }

  lemma {:induction false} OccurrencesOfDistinct(order: seq<UnboundAction>, a: UnboundAction)
    requires NoDuplicates(order)
    ensures Occurrences(order, a) == if a in order then 1 else 0
    decreases |order|
  {
    if |order| > 0 {
      var init := order[..|order| - 1];
      assert NoDuplicates(init);
      OccurrencesOfDistinct(init, a);
      assert forall x :: x in order <==> x in init || x == order[|order| - 1];
      if order[|order| - 1] == a {
        assert a !in init;
      }
    }
  }

  lemma {:induction false} ConcatOfEmpty(order: seq<UnboundAction>)
    ensures ConcatActs([], order) == []
    decreases |order|
  {
    if |order| > 0 {
      ConcatOfEmpty(order[..|order| - 1]);
    }
  }

  /** Each action lands once for every occurrence of its schema. */
  lemma {:induction false} ConcatCons(g: BoundAction, rest: seq<BoundAction>, order: seq<UnboundAction>)
    ensures |ConcatActs([g] + rest, order)| == |ConcatActs(rest, order)| + Occurrences(order, g.prototype)
    decreases |order|
  {
    if |order| > 0 {
      var b := order[|order| - 1];
      ConcatCons(g, rest, order[..|order| - 1]);
      assert ([g] + rest)[1..] == rest;
      assert |SchemaActs([g] + rest, b)| == |SchemaActs(rest, b)| + (if g.prototype == b then 1 else 0);
    }
  }

  /** With each schema once in `order` and every action's schema among
      them, the concatenated outputs cover the actions exactly once. */
  lemma {:induction false} ConcatCount(gs: seq<BoundAction>, order: seq<UnboundAction>)
    requires NoDuplicates(order)
    requires forall k :: 0 <= k < |gs| ==> gs[k].prototype in order
    ensures |ConcatActs(gs, order)| == |gs|
    decreases |gs|
  {
    if |gs| == 0 {
      ConcatOfEmpty(order);
    } else {
      assert gs == [gs[0]] + gs[1..];
      assert forall k :: 0 < k < |gs| ==> gs[k] == gs[1..][k - 1];
      ConcatCount(gs[1..], order);
      ConcatCons(gs[0], gs[1..], order);
      OccurrencesOfDistinct(order, gs[0].prototype);
    }
  }

  lemma FinalOrderMeaning(pm: ProblemMeta)
    ensures NoDuplicates(FinalOrder(pm))
    ensures forall a :: a in FinalOrder(pm) <==> a in pm.domain.unboundActs
    ensures SortedByKeys(FinalOrder(pm), SchemaKey)
  {
    var d := Dedup(pm.domain.unboundActs);
    DedupProperties(pm.domain.unboundActs);
    SortByKeysCorrect(d, SchemaKey);
    SortByKeysDistinct(d, SchemaKey);
    forall a
      ensures a in FinalOrder(pm) <==> a in d
    {
      assert a in FinalOrder(pm) <==> a in multiset(FinalOrder(pm));
      assert a in d <==> a in multiset(d);
    }
  }

  /** Entry `sub` of the `k`-th schema's output sits in the
      concatenation after the outputs of the schemas before it. */
  lemma ConcatEntry(gs: seq<BoundAction>, order: seq<UnboundAction>, k: nat, sub: nat)
    requires k < |order| && sub < |SchemaActs(gs, order[k])|
    ensures |ConcatActs(gs, order[..k])| + sub < |ConcatActs(gs, order)|
    ensures ConcatActs(gs, order)[|ConcatActs(gs, order[..k])| + sub] == SchemaActs(gs, order[k])[sub]
  {
    ConcatPrefix(gs, order, k + 1);
    assert order[..k + 1][..k] == order[..k];
    assert ConcatActs(gs, order[..k + 1]) == ConcatActs(gs, order[..k]) + SchemaActs(gs, order[k]);
  }

  /** Action `i` sits in its own schema's list at its subtensor index. */
  lemma ActInOwnSchema(pm: ProblemMeta, i: nat) returns (sub: nat)
    requires StrictlySortedBy(pm.acts, ActIdent) && i < |pm.acts|
    ensures ActToSchemaSubtensorInd(pm, pm.acts[i]) == Ok(sub)
    ensures sub < |SchemaToActs(pm, pm.acts[i].prototype)| && SchemaToActs(pm, pm.acts[i].prototype)[sub] == pm.acts[i]
  {
    var p := pm.acts[i].prototype;
    var hs := SchemaToActs(pm, p);
    SchemaToActsMeaning(pm, p);
    assert pm.acts[i] in pm.acts;
    sub :| 0 <= sub < |hs| && hs[sub] == pm.acts[i];
    ActSubtensorIndInverts(pm, p, sub);
  }

  /** Action `i` is gathered from the entry of its schema's output that
      holds its score. */
  lemma GatherIndexMeaning(pm: ProblemMeta, i: nat)
    requires StrictlySortedBy(pm.acts, ActIdent)
    requires i < |pm.acts|
    requires forall k :: 0 <= k < |pm.acts| ==> pm.acts[k].prototype in pm.domain.unboundActs
    ensures var order := FinalOrder(pm);
      var r := GatherIndex(pm, order, IndexMap(order), pm.acts[i]);
      r.Ok? && r.value < |ConcatActs(pm.acts, order)| && ConcatActs(pm.acts, order)[r.value] == pm.acts[i]
  {
    var order := FinalOrder(pm);
    var idx := IndexMap(order);
    var g := pm.acts[i];
    var p := g.prototype;
    assert p in order && |ConcatActs(pm.acts, order)| == |pm.acts| by {
      FinalOrderMeaning(pm);
      ConcatCount(pm.acts, order);
    }
    assert p in idx && idx[p] < |order| && order[idx[p]] == p by {
      IndexMapMeaning(order);
    }
    var k := idx[p];
    var sub := ActInOwnSchema(pm, i);
    assert CumulSize(pm, order, k) == |ConcatActs(pm.acts, order[..k])| by {
      CumulSizeIsLength(pm, order, k);
    }
    ConcatEntry(pm.acts, order, k, sub);
    GatherIndexFound(pm, order, idx, g, sub);
  }

  /** `_merge_finals`' gather index for an action found at `sub` in its
      schema's list and whose schema has an index: the schema's offset plus
      `sub`, unless that runs past the actions. */
  lemma GatherIndexFound(pm: ProblemMeta, order: seq<UnboundAction>, superIdx: map<UnboundAction, nat>,
                         g: BoundAction, sub: nat)
    requires ActToSchemaSubtensorInd(pm, g) == Ok(sub)
    requires g.prototype in superIdx && superIdx[g.prototype] <= |order|
    requires CumulSize(pm, order, superIdx[g.prototype]) + sub < |pm.acts|
    ensures GatherIndex(pm, order, superIdx, g) == Ok(CumulSize(pm, order, superIdx[g.prototype]) + sub)
  {
  }

  /** When every action's schema is in the domain, `_merge_finals` maps
      each action to the entry of the concatenated scores that belongs to
      it; the concatenation holds every action once, and no entry is
      gathered twice. */
  lemma MergeFinalsMeaning(pm: ProblemMeta)
    requires StrictlySortedBy(pm.acts, ActIdent)
    requires forall k :: 0 <= k < |pm.acts| ==> pm.acts[k].prototype in pm.domain.unboundActs
    ensures MergeFinals(pm).Ok?
    ensures |ConcatActs(pm.acts, FinalOrder(pm))| == |pm.acts|
    ensures var r := MergeFinals(pm).value;
      |r| == |pm.acts| &&
      (forall i :: 0 <= i < |pm.acts| ==> r[i] < |pm.acts| && ConcatActs(pm.acts, FinalOrder(pm))[r[i]] == pm.acts[i]) &&
      (forall i, j :: 0 <= i < j < |pm.acts| ==> r[i] != r[j])
  {
    var order := FinalOrder(pm);
    var cat := ConcatActs(pm.acts, order);
    FinalOrderMeaning(pm);
    ConcatCount(pm.acts, order);
    forall i | 0 <= i < |pm.acts|
      ensures var r := GatherIndex(pm, order, IndexMap(order), pm.acts[i]);
        r.Ok? && r.value < |cat| && cat[r.value] == pm.acts[i]
    {
      GatherIndexMeaning(pm, i);
    }
    GatherListMeaning(pm, order, IndexMap(order), pm.acts);
    var r := MergeFinals(pm).value;
    forall i, j | 0 <= i < j < |pm.acts|
      ensures r[i] != r[j]
    {
      if r[i] == r[j] {
        StrLessIrreflexive(ActIdent(pm.acts[i]));
      }
    }
  }

  /** Conversely, `_merge_finals` succeeds only when every action's schema
      is one of the domain's. */
  lemma MergeFinalsNeedsKnownSchemas(pm: ProblemMeta)
    ensures MergeFinals(pm).Ok? ==> forall k :: 0 <= k < |pm.acts| ==> pm.acts[k].prototype in pm.domain.unboundActs
  {
    var order := FinalOrder(pm);
    FinalOrderMeaning(pm);
    IndexMapMeaning(order);
    GatherListMeaning(pm, order, IndexMap(order), pm.acts);
  }
}
