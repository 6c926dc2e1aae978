/** The parameter parsing of the SSiPP planner (`PlannerSSiPP`) and of its
  short-sighted SSP factory (`ShortSightedSSPFactory`).

  The planner is configured by a string `:[epsilon]:<search_alg>:<method>:<threshold>`
  split on ':' into a deque of flags; each step pops the flags it reads.
  The factory keeps one configuration per short-sighted method in `size_t`
  or `Rational` members.  The two floating-point conversions the source
  uses, `stringToDouble` (an `istream` read that fails on leftover
  characters) and the `Rational(const char*)` constructor of the float
  rationals, are parameters of the model.
*/
module PlannerSsipp {
  import opened Wrappers
  import Utils
  import Rationals
  import AtomStates

  /** 2^64: `size_t` holds the integers modulo this. */
  const SizeModulus: nat := 0x1_0000_0000_0000_0000

  /** The `size_t` an `int` converts to. */
  function ToSizeT(x: int): (s: nat)
    ensures s < SizeModulus
    ensures 0 <= x < SizeModulus ==> s == x
    ensures -(SizeModulus as int) <= x < 0 ==> s == SizeModulus + x
  {
    x % SizeModulus
  }

  datatype ShortSightedMethod = MaxDepth | RandomMaxDepth | MinProbTrajectory | Greedy

  /** `OptAlg`: the optimal planner run on each short-sighted SSP. */
  datatype OptAlg = Lrtdp | Vi

  /** The configuration the factory ends up with: the method and the
      threshold it reads. */
  datatype S4PConfig =
    | MaxDepthCfg(t: nat)
    | RandomMaxDepthCfg(lb: nat, ub: nat)
    | MinProbTrajectoryCfg(minP: real)
    | GreedyCfg(maxNodes: nat)

  /** The names `init` accepts for the minimum-trajectory-probability
      method. */
  predicate IsMinProbName(name: string) {
    name == "min_prob_traj" || name == "min_trace_p" || name == "traj_based"
  }

  predicate IsRandomDepthName(name: string) {
    name == "random_max_depth" || name == "max_depth_random"
  }

  // ---------------------------------------------------------------------
  // ShortSightedSSPFactory::init
  // ---------------------------------------------------------------------

  /** A depth or node count as `init` reads it: `atoi` into a `size_t`,
      rejected only when 0, so a negative value wraps around. */
  function CountConfig(arg: string): (r: Result<nat>)
    ensures r.Ok? ==> 0 < r.value < SizeModulus && r.value == ToSizeT(AtomStates.Atoi(arg))
    ensures r.Err? <==> AtomStates.Atoi(arg) % SizeModulus == 0
  {
    var t := ToSizeT(AtomStates.Atoi(arg));
    if t <= 0 then Err(Die) else Ok(t)
  }

  /** The random depths: exactly two comma-separated `atoi` values, neither
      of them checked. */
  function DepthRangeConfig(arg: string): (r: Result<S4PConfig>)
    ensures r.Ok? ==>
      r.value.RandomMaxDepthCfg? && |Utils.Pieces(arg, ',')| == 2
      && r.value.lb == ToSizeT(AtomStates.Atoi(Utils.Pieces(arg, ',')[0]))
      && r.value.ub == ToSizeT(AtomStates.Atoi(Utils.Pieces(arg, ',')[1]))
  {
    var inner := Utils.Split(arg, ",");
    if inner.Err? || |inner.value| != 2 then Err(Die)
    else Ok(RandomMaxDepthCfg(ToSizeT(AtomStates.Atoi(inner.value[0])), ToSizeT(AtomStates.Atoi(inner.value[1]))))
  }

  /** The trajectory probability, which must lie in (0, 1]. */
  function ProbConfig(arg: string, readRational: string -> real): (r: Result<S4PConfig>)
    ensures r.Ok? <==> 0.0 < readRational(arg) <= 1.0
    ensures r.Ok? ==> r == Ok(MinProbTrajectoryCfg(readRational(arg)))
  {
    var p := readRational(arg);
    if p <= 0.0 || p > 1.0 then Err(Die) else Ok(MinProbTrajectoryCfg(p))
  }

  /** The configuration a method name and its threshold select; an unknown
      name is rejected. */
  function MethodConfig(name: string, arg: string, readRational: string -> real): (r: Result<S4PConfig>)
    ensures r.Err? ==> r == Err(Die)
    ensures r.Ok? && r.value.MaxDepthCfg? ==> name == "max_depth"
    ensures r.Ok? && r.value.GreedyCfg? ==> name == "greedy"
    ensures r.Ok? && r.value.MinProbTrajectoryCfg? ==> IsMinProbName(name)
    ensures r.Ok? && r.value.RandomMaxDepthCfg? ==> IsRandomDepthName(name)
  {
    if name == "max_depth" then
      var t :- CountConfig(arg);
      Ok(MaxDepthCfg(t))
    else if IsRandomDepthName(name) then DepthRangeConfig(arg)
    else if IsMinProbName(name) then ProbConfig(arg, readRational)
    else if name == "greedy" then
      var n :- CountConfig(arg);
      Ok(GreedyCfg(n))
    else Err(Die)
  }

  /** What `ShortSightedSSPFactory::init(flags)` reads, as written: exactly
      two flags, a method name and its threshold. */
  function FactoryConfig(flags: seq<string>, readRational: string -> real): (r: Result<S4PConfig>)
    ensures |flags| != 2 ==> r == Err(Die)
    ensures r.Err? ==> r == Err(Die)
  {
    if |flags| != 2 then Err(Die) else MethodConfig(flags[0], flags[1], readRational)
  }

  /** The method name and threshold that configure `cfg`, as the factory's
      usage text describes them (random depths as "lb,ub"). */
  function FactoryFlags(cfg: S4PConfig, probText: string): seq<string> {
    match cfg
    case MaxDepthCfg(t) => ["max_depth", Rationals.NatToString(t)]
    case RandomMaxDepthCfg(lb, ub) => ["random_max_depth", Rationals.NatToString(lb) + [','] + Rationals.NatToString(ub)]
    case MinProbTrajectoryCfg(_) => ["min_prob_traj", probText]
    case GreedyCfg(n) => ["greedy", Rationals.NatToString(n)]
  }

  /** A configuration the factory can be given: depths and node counts that
      `atoi` reads (positive where checked), a probability in (0, 1]. */
  predicate Proper(cfg: S4PConfig) {
    match cfg
    case MaxDepthCfg(t) => 0 < t <= 0x7fff_ffff
    case RandomMaxDepthCfg(lb, ub) => lb <= 0x7fff_ffff && ub <= 0x7fff_ffff
    case MinProbTrajectoryCfg(p) => 0.0 < p <= 1.0
    case GreedyCfg(n) => 0 < n <= 0x7fff_ffff
  }

  function ProbOf(cfg: S4PConfig): real {
    if cfg.MinProbTrajectoryCfg? then cfg.minP else 0.0
  }

  /** A printed positive count is read back. */
  lemma CountRoundTrip(t: nat)
    requires 0 < t <= 0x7fff_ffff
    ensures CountConfig(Rationals.NatToString(t)) == Ok(t)
  {
    AtomStates.AtoiOfNumeral(t);
  }

  /** Two printed depths joined by ',' are read back. */
  lemma DepthRangeRoundTrip(lb: nat, ub: nat)
    requires lb <= 0x7fff_ffff && ub <= 0x7fff_ffff
    ensures DepthRangeConfig(Rationals.NatToString(lb) + [','] + Rationals.NatToString(ub)) == Ok(RandomMaxDepthCfg(lb, ub))
  {
    var a, b := Rationals.NatToString(lb), Rationals.NatToString(ub);
    NoComma(a);
    NoComma(b);
    assert Utils.Join([a, b], ',') == a + [','] + b;
    Utils.JoinPieces([a, b], ',');
    AtomStates.AtoiOfNumeral(lb);
    AtomStates.AtoiOfNumeral(ub);
  }

  /** Printing a proper configuration and reading it back gives it again
      (the probability text must read as the probability). */
  lemma FactoryRoundTrip(cfg: S4PConfig, probText: string, readRational: string -> real)
    requires Proper(cfg)
    requires readRational(probText) == ProbOf(cfg)
    ensures FactoryConfig(FactoryFlags(cfg, probText), readRational) == Ok(cfg)
  {
    match cfg
    case MaxDepthCfg(t) =>
      CountRoundTrip(t);
    case RandomMaxDepthCfg(lb, ub) =>
      DepthRangeRoundTrip(lb, ub);
    case MinProbTrajectoryCfg(_) =>
    case GreedyCfg(n) =>
      CountRoundTrip(n);
  }

  lemma NoComma(s: string)
    requires forall i :: 0 <= i < |s| ==> Rationals.IsDigit(s[i])
    ensures ',' !in s && ':' !in s
  {
  }

  /** The three names of the trajectory-probability method mean the same. */
  lemma MinProbNames(name: string, arg: string, readRational: string -> real)
    requires IsMinProbName(name)
    ensures FactoryConfig([name, arg], readRational) == FactoryConfig(["min_prob_traj", arg], readRational)
    ensures FactoryConfig([name, arg], readRational).Ok? <==> 0.0 < readRational(arg) <= 1.0
  {
  }

  /** As written, a negative depth is not rejected: `atoi("-3")` becomes
      the `size_t` 2^64 - 3, which passes the check `t <= 0`. */
  lemma NegativeDepthAcceptedAsWritten(readRational: string -> real)
    ensures FactoryConfig(["max_depth", "-3"], readRational) == Ok(MaxDepthCfg(SizeModulus - 3))
    ensures FactoryConfig(["greedy", "-3"], readRational) == Ok(GreedyCfg(SizeModulus - 3))
  {
    NegativeAtoi();
  }

  lemma NegativeAtoi()
    ensures AtomStates.Atoi("-3") == -3
  {
    var s := "-3";
    assert s[1..] == "3";
    assert AtomStates.LeadingDigits("3") == 1;
    assert "3"[..1] == "3";
    assert Rationals.DigitsValue("3") == 3 by {
      assert "3"[..0] == "";
    }
  }

  /** The check the error message describes: the value `atoi` reads must
      be positive before it is stored. */
  function IntendedFactoryConfig(flags: seq<string>, readRational: string -> real): (r: Result<S4PConfig>) {
    if |flags| == 2 && (flags[0] == "max_depth" || flags[0] == "greedy") && AtomStates.Atoi(flags[1]) <= 0
    then Err(Die)
    else FactoryConfig(flags, readRational)
  }

  /** With the intended check, a stored depth or node count is exactly the
      positive number given, and every accepted list is accepted as
      written with the same configuration. */
  lemma IntendedCountsArePositive(flags: seq<string>, readRational: string -> real)
    requires IntendedFactoryConfig(flags, readRational).Ok?
    requires |flags| == 2 ==> AtomStates.Atoi(flags[1]) < SizeModulus
    ensures FactoryConfig(flags, readRational) == IntendedFactoryConfig(flags, readRational)
    ensures var cfg := IntendedFactoryConfig(flags, readRational).value;
      (cfg.MaxDepthCfg? ==> cfg.t == AtomStates.Atoi(flags[1]) > 0)
      && (cfg.GreedyCfg? ==> cfg.maxNodes == AtomStates.Atoi(flags[1]) > 0)
  {
  }

  class ShortSightedSSPFactory {
    var initialized: bool
    var s4pMethod: ShortSightedMethod
    /** `max_depth_cfg_.t`. */
    var maxDepthT: nat
    /** `random_max_depth_cfg_.lb` and `.ub`. */
    var randomLb: nat
    var randomUb: nat
    /** `min_prob_cfg_.min_p`. */
    var minP: real
    /** `greedy_cfg_.max_nodes`. */
    var maxNodes: nat

    /** Not initialised; the configuration members, which the source leaves
        unset, start at zero. */
    constructor ()
      ensures !initialized
    {
      initialized := false;
      s4pMethod := MaxDepth;
      maxDepthT, randomLb, randomUb, minP, maxNodes := 0, 0, 0, 0.0, 0;
    }

    /** The configuration of the selected method. */
    function Config(): S4PConfig
      reads this
    {
      match s4pMethod
      case MaxDepth => MaxDepthCfg(maxDepthT)
      case RandomMaxDepth => RandomMaxDepthCfg(randomLb, randomUb)
      case MinProbTrajectory => MinProbTrajectoryCfg(minP)
      case Greedy => GreedyCfg(maxNodes)
    }

    /** `init(flags)`: pops the method name and its threshold from the
        deque and stores them; every rejection stops the process.  The
        flags left over are returned. */
    method Init(flags: seq<string>, readRational: string -> real) returns (r: Result<seq<string>>)
      modifies this
      ensures r.Err? <==> FactoryConfig(flags, readRational).Err?
      ensures r.Err? ==> r == Err(Die)
      ensures r.Ok? ==> r.value == [] && initialized && Config() == FactoryConfig(flags, readRational).value
      ensures r.Ok? ==>
        (s4pMethod != MaxDepth ==> maxDepthT == old(maxDepthT))
        && (s4pMethod != RandomMaxDepth ==> randomLb == old(randomLb) && randomUb == old(randomUb))
        && (s4pMethod != MinProbTrajectory ==> minP == old(minP))
        && (s4pMethod != Greedy ==> maxNodes == old(maxNodes))
    {
      var fl := flags;
      if |fl| != 2 {
        return Err(Die);
      }
      if fl[0] == "max_depth" {
        s4pMethod := MaxDepth;
        fl := fl[1..];
        maxDepthT := ToSizeT(AtomStates.Atoi(fl[0]));
        if maxDepthT <= 0 {
          return Err(Die);
        }
        fl := fl[1..];
      } else if IsRandomDepthName(fl[0]) {
        s4pMethod := RandomMaxDepth;
        fl := fl[1..];
        var split := Utils.SplitString(fl[0], ",");
        var inner := if split.Ok? then split.value else [];
        if |inner| != 2 {
          return Err(Die);
        }
        randomLb := ToSizeT(AtomStates.Atoi(inner[0]));
        inner := inner[1..];
        randomUb := ToSizeT(AtomStates.Atoi(inner[0]));
        fl := fl[1..];
      } else if IsMinProbName(fl[0]) {
        s4pMethod := MinProbTrajectory;
        fl := fl[1..];
        minP := readRational(fl[0]);
        if minP <= 0.0 || minP > 1.0 {
          return Err(Die);
        }
        fl := fl[1..];
      } else if fl[0] == "greedy" {
        s4pMethod := Greedy;
        fl := fl[1..];
        maxNodes := ToSizeT(AtomStates.Atoi(fl[0]));
        if maxNodes <= 0 {
          return Err(Die);
        }
        fl := fl[1..];
      } else {
        return Err(Die);
      }
      initialized := true;
      return Ok(fl);
    }
  }

  // ---------------------------------------------------------------------
  // PlannerSSiPP::parseParameters
  // ---------------------------------------------------------------------

  /** The settings `parseParameters` leaves in the planner. */
  datatype Settings = Settings(shortSightedEpsilon: real, optPlanner: OptAlg, s4p: S4PConfig)

  /** The optimal planner a flag names. */
  function OptAlgOf(flag: string): Result<OptAlg> {
    if flag == "lrtdp" then Ok(Lrtdp) else if flag == "vi" then Ok(Vi) else Err(Die)
  }

  function OptAlgName(alg: OptAlg): string {
    match alg
    case Lrtdp => "lrtdp"
    case Vi => "vi"
  }

  /** The search algorithm and the factory's flags, after the epsilon.
      Reading the algorithm when no field is left is undefined. */
  function AlgSettings(eps: real, rest: seq<string>, readRational: string -> real): (r: Result<Settings>)
    ensures r.Ok? ==> r.value.shortSightedEpsilon == eps && |rest| >= 3
  {
    if |rest| == 0 then Err(UndefinedBehaviour)
    else
      var alg :- OptAlgOf(rest[0]);
      var cfg :- FactoryConfig(rest[1..], readRational);
      Ok(Settings(eps, alg, cfg))
  }

  /** The optional local epsilon: a field that reads as a double is it,
      otherwise the planner's own epsilon is used; it must be positive. */
  function EpsilonSettings(rest: seq<string>, epsilon: real, readDouble: string -> Option<real>,
                           readRational: string -> real): (r: Result<Settings>)
    requires |rest| > 0
    ensures r.Ok? ==> r.value.shortSightedEpsilon > 0.0
    ensures r.Ok? && readDouble(rest[0]).None? ==> r.value.shortSightedEpsilon == epsilon
    ensures r.Ok? && readDouble(rest[0]).Some? ==> r.value.shortSightedEpsilon == readDouble(rest[0]).value
  {
    var eps := if readDouble(rest[0]).Some? then readDouble(rest[0]).value else epsilon;
    var rest' := if readDouble(rest[0]).Some? then rest[1..] else rest;
    if !(eps > 0.0) then Err(Die) else AlgSettings(eps, rest', readRational)
  }

  /** The ':'-fields must start with an empty one. */
  function FieldSettings(flags: seq<string>, epsilon: real, readDouble: string -> Option<real>,
                         readRational: string -> real): (r: Result<Settings>)
    ensures r.Ok? ==> |flags| > 0 && flags[0] == ""
  {
    if |flags| == 0 || flags[0] != "" then Err(Die)
    else if |flags| == 1 then Err(UndefinedBehaviour)
    else EpsilonSettings(flags[1..], epsilon, readDouble, readRational)
  }

  /** What `parseParameters(flags_str)` reads from the ':'-fields of the
      string. */
  function Parameters(flagsStr: string, epsilon: real, readDouble: string -> Option<real>,
                      readRational: string -> real): (r: Result<Settings>)
    ensures r.Ok? ==> r.value.shortSightedEpsilon > 0.0
  {
    var flags :- Utils.Split(flagsStr, ":");
    FieldSettings(flags, epsilon, readDouble, readRational)
  }

  /** The flag string that configures `s`: an empty first field, the
      epsilon text, the algorithm, the factory's flags. */
  function SettingsFlags(s: Settings, epsText: string, probText: string): string {
    Utils.Join(["", epsText, OptAlgName(s.optPlanner)] + FactoryFlags(s.s4p, probText), ':')
  }

  /** No field of a printed configuration holds ':'. */
  lemma FlagsFree(cfg: S4PConfig, probText: string)
    requires ':' !in probText
    ensures forall k :: 0 <= k < |FactoryFlags(cfg, probText)| ==> ':' !in FactoryFlags(cfg, probText)[k]
  {
    match cfg
    case MaxDepthCfg(t) => NoComma(Rationals.NatToString(t));
    case RandomMaxDepthCfg(lb, ub) =>
      var a, b := Rationals.NatToString(lb), Rationals.NatToString(ub);
      NoComma(a);
      NoComma(b);
      assert ':' !in a + [','] + b;
    case MinProbTrajectoryCfg(_) =>
    case GreedyCfg(n) => NoComma(Rationals.NatToString(n));
  }

  /** Splitting fields free of ':' joined by ':' gives them back. */
  lemma SplitJoined(ps: seq<string>)
    requires |ps| > 1 && forall k :: 0 <= k < |ps| ==> ':' !in ps[k]
    ensures Utils.Split(Utils.Join(ps, ':'), ":") == Ok(ps)
  {
    Utils.JoinPieces(ps, ':');
    assert Utils.Join(ps, ':') == ps[0] + [':'] + Utils.Join(ps[1..], ':');
  }

  /** The algorithm name and a proper configuration are read back. */
  lemma AlgRoundTrip(eps: real, alg: OptAlg, cfg: S4PConfig, probText: string, readRational: string -> real)
    requires Proper(cfg) && readRational(probText) == ProbOf(cfg)
    ensures AlgSettings(eps, [OptAlgName(alg)] + FactoryFlags(cfg, probText), readRational) == Ok(Settings(eps, alg, cfg))
  {
    FactoryRoundTrip(cfg, probText, readRational);
    assert ([OptAlgName(alg)] + FactoryFlags(cfg, probText))[1..] == FactoryFlags(cfg, probText);
  }

  /** Printing proper settings with their epsilon and reading them back
      gives them again. */
  lemma ParametersRoundTrip(s: Settings, epsText: string, probText: string, epsilon: real,
                            readDouble: string -> Option<real>, readRational: string -> real)
    requires Proper(s.s4p) && s.shortSightedEpsilon > 0.0
    requires ':' !in epsText && ':' !in probText
    requires readDouble(epsText) == Some(s.shortSightedEpsilon)
    requires readRational(probText) == ProbOf(s.s4p)
    ensures Parameters(SettingsFlags(s, epsText, probText), epsilon, readDouble, readRational) == Ok(s)
  {
    var tail := [OptAlgName(s.optPlanner)] + FactoryFlags(s.s4p, probText);
    var ps := ["", epsText] + tail;
    assert ps == ["", epsText, OptAlgName(s.optPlanner)] + FactoryFlags(s.s4p, probText);
    FlagsFree(s.s4p, probText);
    assert forall k :: 0 <= k < |ps| ==> ':' !in ps[k] by {
      forall k | 2 < k < |ps| ensures ps[k] == FactoryFlags(s.s4p, probText)[k - 3] { }
    }
    SplitJoined(ps);
    AlgRoundTrip(s.shortSightedEpsilon, s.optPlanner, s.s4p, probText, readRational);
    assert ps[1..] == [epsText] + tail && ps[1..][1..] == tail;
  }

  /** Without an epsilon field the planner's own epsilon is used, and it
      must be positive. */
  lemma DefaultEpsilon(alg: OptAlg, cfg: S4PConfig, probText: string, epsilon: real,
                       readDouble: string -> Option<real>, readRational: string -> real)
    requires Proper(cfg) && ':' !in probText
    requires readDouble(OptAlgName(alg)) == None
    requires readRational(probText) == ProbOf(cfg)
    ensures var text := Utils.Join(["", OptAlgName(alg)] + FactoryFlags(cfg, probText), ':');
      Parameters(text, epsilon, readDouble, readRational)
        == if epsilon > 0.0 then Ok(Settings(epsilon, alg, cfg)) else Err(Die)
  {
    var tail := [OptAlgName(alg)] + FactoryFlags(cfg, probText);
    var ps := [""] + tail;
    assert ps == ["", OptAlgName(alg)] + FactoryFlags(cfg, probText);
    FlagsFree(cfg, probText);
    assert forall k :: 0 <= k < |ps| ==> ':' !in ps[k] by {
      forall k | 1 < k < |ps| ensures ps[k] == FactoryFlags(cfg, probText)[k - 2] { }
    }
    SplitJoined(ps);
    AlgRoundTrip(epsilon, alg, cfg, probText, readRational);
    assert ps[1..] == tail;
  }

  /** A flag string that does not start with ':' is rejected. */
  lemma NonEmptyFirstFieldRejected(flagsStr: string, epsilon: real, readDouble: string -> Option<real>,
                                   readRational: string -> real)
    requires flagsStr == [] || flagsStr[0] != ':'
    ensures Parameters(flagsStr, epsilon, readDouble, readRational) == Err(Die)
  {
    if flagsStr != [] && ':' in flagsStr {
      Utils.FirstAtIsFirst(flagsStr, ':');
    }
  }

  /** An epsilon with nothing after it leaves the algorithm to be read from
      an empty deque. */
  lemma EpsilonAloneUndefined(epsText: string, epsilon: real, readDouble: string -> Option<real>,
                              readRational: string -> real)
    requires ':' !in epsText && readDouble(epsText).Some? && readDouble(epsText).value > 0.0
    ensures Parameters([':'] + epsText, epsilon, readDouble, readRational) == Err(UndefinedBehaviour)
  {
    SplitJoined(["", epsText]);
    assert Utils.Join(["", epsText], ':') == [':'] + epsText;
  }

  class PlannerSSiPP {
    /** `epsilon_`: the convergence threshold of the whole problem. */
    const epsilon: real
    var shortSightedEpsilon: real
    var optPlannerClass: OptAlg
    const factory: ShortSightedSSPFactory

    /** The members before `parseParameters` runs. */
    constructor (epsilon: real)
      ensures this.epsilon == epsilon && shortSightedEpsilon == -1.0 && optPlannerClass == Lrtdp
      ensures fresh(factory) && !factory.initialized
    {
      this.epsilon := epsilon;
      shortSightedEpsilon := -1.0;
      optPlannerClass := Lrtdp;
      factory := new ShortSightedSSPFactory();
    }

    /** `parseParameters(flags_str)`: splits the string on ':' and pops
        the empty first field, the optional epsilon and the algorithm, then
        hands the rest to the factory; anything left over is rejected. */
    method ParseParameters(flagsStr: string, readDouble: string -> Option<real>, readRational: string -> real)
      returns (r: Result<()>)
      modifies this, factory
      ensures r.Err? <==> Parameters(flagsStr, epsilon, readDouble, readRational).Err?
      ensures r.Err? ==> r.failure == Parameters(flagsStr, epsilon, readDouble, readRational).failure
      ensures r.Ok? ==>
        var s := Parameters(flagsStr, epsilon, readDouble, readRational).value;
        shortSightedEpsilon == s.shortSightedEpsilon && optPlannerClass == s.optPlanner
        && factory.initialized && factory.Config() == s.s4p
    {
      var split := Utils.SplitString(flagsStr, ":");
      var flags := if split.Ok? then split.value else [];
      if |flags| == 0 || flags[0] != "" {
        return Err(Die);
      }
      flags := flags[1..];
      if |flags| == 0 {
        return Err(UndefinedBehaviour);
      }
      var d := readDouble(flags[0]);
      if d.Some? {
        shortSightedEpsilon := d.value;
        flags := flags[1..];
      } else {
        shortSightedEpsilon := epsilon;
      }
      if !(shortSightedEpsilon > 0.0) {
        return Err(Die);
      }
      if |flags| == 0 {
        return Err(UndefinedBehaviour);
      }
      if flags[0] == "lrtdp" {
        optPlannerClass := Lrtdp;
      } else if flags[0] == "vi" {
        optPlannerClass := Vi;
      } else {
        return Err(Die);
      }
      flags := flags[1..];
      var left := factory.Init(flags, readRational);
      if left.Err? {
        return Err(left.failure);
      }
      if |left.value| != 0 {
        return Err(Die);
      }
      return Ok(());
    }
  }
}
