/** The command-line helpers of the experiment runner: reading a value
    off a line of output, parsing the list of test problems to run, finding
    the experiment directory of a checkpoint, and building the flags of the
    training and test runs from an architecture and a problem configuration.

    A configuration module is modelled as a record of its settings; settings
    that are only printed are held as the text Python's `str` gives them.
*/
module RunLearning {
  import opened Wrappers
  import opened Utils
  import opened Supervised

  // ---------------------------------------------------------------------
  // Strings
  // ---------------------------------------------------------------------

  predicate StartsWith(s: string, prefix: string) {
    |prefix| <= |s| && s[..|prefix|] == prefix
  }

  /** The characters Python's `str.isspace()` accepts, which `strip()`,
      `split()` and `int()` remove: the ASCII tab to carriage return, the
      separators 0x1C to 0x1F and the space, and the Unicode spaces and
      line and paragraph separators. */
  predicate IsPyWhitespace(c: char) {
    var n := c as int;
    (9 <= n <= 13) || (0x1C <= n <= 0x20) || n == 0x85 || n == 0xA0 || n == 0x1680 ||
    (0x2000 <= n <= 0x200A) || n == 0x2028 || n == 0x2029 || n == 0x202F || n == 0x205F ||
    n == 0x3000
  }

  /** `s.strip()` with something left. */
  predicate HasNonWhitespace(s: string) {
    exists i :: 0 <= i < |s| && !IsPyWhitespace(s[i])
  }

  /** `s.strip()`. */
  function PyStrip(s: string): (r: string)
    ensures |r| == 0 <==> !HasNonWhitespace(s)
    decreases |s|
  {
    if |s| > 0 && IsPyWhitespace(s[0]) then
      var r := PyStrip(s[1..]);
      assert HasNonWhitespace(s) <==> HasNonWhitespace(s[1..]) by {
        assert forall i :: 0 < i < |s| ==> s[i] == s[1..][i - 1];
      }
      r
    else if |s| > 0 && IsPyWhitespace(s[|s| - 1]) then
      var r := PyStrip(s[..|s| - 1]);
      assert HasNonWhitespace(s) <==> HasNonWhitespace(s[..|s| - 1]) by {
        assert forall i :: 0 <= i < |s| - 1 ==> s[i] == s[..|s| - 1][i];
      }
      r
    else
      assert |s| > 0 ==> HasNonWhitespace(s) by {
        if |s| > 0 {
          assert !IsPyWhitespace(s[0]);
        }
      }
      s
  }

  // ---------------------------------------------------------------------
  // extract_by_prefix
  // ---------------------------------------------------------------------

  /** The rest of the first line that starts with `prefix`, and None when
      no line does. */
  function ExtractByPrefix(lines: seq<string>, prefix: string): Option<string>
    decreases |lines|
  {
    if |lines| == 0 then None
    else if StartsWith(lines[0], prefix) then Some(lines[0][|prefix|..])
    else ExtractByPrefix(lines[1..], prefix)
  }

  lemma {:induction false} ExtractByPrefixMeaning(lines: seq<string>, prefix: string)
    ensures ExtractByPrefix(lines, prefix).Some? <==>
      exists i :: 0 <= i < |lines| && StartsWith(lines[i], prefix)
    ensures ExtractByPrefix(lines, prefix).Some? ==>
      exists i :: 0 <= i < |lines| && lines[i] == prefix + ExtractByPrefix(lines, prefix).value &&
        forall k :: 0 <= k < i ==> !StartsWith(lines[k], prefix)
    decreases |lines|
  {
    if |lines| > 0 {
      if StartsWith(lines[0], prefix) {
        assert lines[0] == prefix + lines[0][|prefix|..];
      } else {
        ExtractByPrefixMeaning(lines[1..], prefix);
        assert forall i :: 0 < i < |lines| ==> lines[i] == lines[1..][i - 1];
        if ExtractByPrefix(lines[1..], prefix).Some? {
          var r := ExtractByPrefix(lines[1..], prefix).value;
          var i :| 0 <= i < |lines| - 1 && lines[1..][i] == prefix + r &&
            forall k :: 0 <= k < i ==> !StartsWith(lines[1..][k], prefix);
          assert lines[i + 1] == prefix + r;
          forall k | 0 <= k < i + 1
            ensures !StartsWith(lines[k], prefix)
          {
            if k > 0 {
              assert lines[k] == lines[1..][k - 1];
            }
          }
        }
      }
    }
  }

  // ---------------------------------------------------------------------
  // Decimal integers: Python's str(int) and int(str)
  // ---------------------------------------------------------------------

  predicate IsDigit(c: char) {
    '0' <= c <= '9'
  }

  function DigitChar(d: nat): char
    requires d < 10
  {
    (48 + d) as char
  }

  function DigitValue(c: char): nat
    requires IsDigit(c)
  {
    c as nat - 48
  }

  /** The decimal digits of `n`. */
  function NatStr(n: nat): (r: string)
    ensures |r| > 0 && forall k :: 0 <= k < |r| ==> IsDigit(r[k])
    decreases n
  {
    if n < 10 then [DigitChar(n)] else NatStr(n / 10) + [DigitChar(n % 10)]
  }

  /** `str(i)`. */
  function IntStr(i: int): string {
    if i < 0 then "-" + NatStr(-i) else NatStr(i)
  }

  /** The value of a string of digits. */
  function DigitsValue(s: string): nat
    requires forall k :: 0 <= k < |s| ==> IsDigit(s[k])
    decreases |s|
  {
    if |s| == 0 then 0
    else DigitsValue(s[..|s| - 1]) * 10 + DigitValue(s[|s| - 1])
  }

  /** Digits, optionally grouped by single underscores between them. */
  predicate IsDigitGroups(s: string) {
    |s| > 0 && IsDigit(s[0]) && IsDigit(s[|s| - 1]) &&
    (forall k :: 0 <= k < |s| ==> IsDigit(s[k]) || s[k] == '_') &&
    (forall k :: 0 <= k < |s| - 1 ==> !(s[k] == '_' && s[k + 1] == '_'))
  }

  /** The digits of `s` without its underscores. */
  function WithoutUnderscores(s: string): (r: string)
    requires forall k :: 0 <= k < |s| ==> IsDigit(s[k]) || s[k] == '_'
    ensures forall k :: 0 <= k < |r| ==> IsDigit(r[k])
    ensures (forall k :: 0 <= k < |s| ==> IsDigit(s[k])) ==> r == s
    decreases |s|
  {
    if |s| == 0 then ""
    else
      var rest := WithoutUnderscores(s[1..]);
      if s[0] == '_' then rest else [s[0]] + rest
  }

  /** `int(s)`: surrounding whitespace, an optional sign and decimal digits
      (grouped by single underscores); ValueError otherwise. */
  function ParseInt(s: string): Result<int> {
    ParseSigned(PyStrip(s))
  }

  /** `int` on a string already stripped of whitespace. */
  function ParseSigned(t: string): Result<int> {
    if |t| == 0 then Err(ValueError)
    else
      var negative := t[0] == '-';
      var body := if t[0] == '-' || t[0] == '+' then t[1..] else t;
      if !IsDigitGroups(body) then Err(ValueError)
      else
        var v: int := DigitsValue(WithoutUnderscores(body));
        Ok(if negative then -v else v)
  }

  lemma {:induction false} NatStrValue(n: nat)
    ensures DigitsValue(NatStr(n)) == n
    decreases n
  {
    if n >= 10 {
      NatStrValue(n / 10);
      var s := NatStr(n / 10) + [DigitChar(n % 10)];
      assert s[..|s| - 1] == NatStr(n / 10);
    }
  }

  /** A string with no whitespace at either end is its own strip. */
  lemma PyStripOfTrimmed(s: string)
    requires |s| > 0 && !IsPyWhitespace(s[0]) && !IsPyWhitespace(s[|s| - 1])
    ensures PyStrip(s) == s
  {
  }

  /** The digits of a number are a group of digits with that value. */
  lemma NatStrDigits(n: nat)
    ensures IsDigitGroups(NatStr(n))
    ensures WithoutUnderscores(NatStr(n)) == NatStr(n)
    ensures DigitsValue(NatStr(n)) == n
  {
    NatStrValue(n);
  }

  lemma ParseIntOfDigits(n: nat)
    ensures ParseInt(NatStr(n)) == Ok(n)
  {
    var s := NatStr(n);
    NatStrDigits(n);
    PyStripOfTrimmed(s);
    assert s[0] != '-' && s[0] != '+';
  }

  /** A minus sign before a group of digits negates its value. */
  lemma ParseSignedNegated(d: string)
    requires IsDigitGroups(d) && WithoutUnderscores(d) == d
    ensures ParseSigned("-" + d) == Ok(-(DigitsValue(d) as int))
  {
    var s := "-" + d;
    assert s[0] == '-';
    assert s[1..] == d;
  }

  lemma ParseIntOfNegated(n: nat)
    requires n > 0
    ensures ParseInt("-" + NatStr(n)) == Ok(-(n as int))
  {
    var d := NatStr(n);
    var s := "-" + d;
    assert ParseSigned(s) == Ok(-(n as int)) by {
      NatStrDigits(n);
      ParseSignedNegated(d);
    }
    assert PyStrip(s) == s by {
      assert s[0] == '-' && s[|s| - 1] == d[|d| - 1];
      PyStripOfTrimmed(s);
    }
  }

  /** `int(str(i)) == i`. */
  lemma ParseIntStr(i: int)
    ensures ParseInt(IntStr(i)) == Ok(i)
  {
    if i < 0 {
      ParseIntOfNegated(-i);
    } else {
      ParseIntOfDigits(i);
    }
  }

  /** A decimal integer has no commas and starts with no whitespace. */
  lemma IntStrShape(i: int)
    ensures |IntStr(i)| > 0 && ',' !in IntStr(i) && !IsPyWhitespace(IntStr(i)[0])
  {
    var d := NatStr(if i < 0 then -i else i);
    assert forall k :: 0 <= k < |d| ==> d[k] != ',';
    if i < 0 {
      assert forall k :: 0 < k < |"-" + d| ==> ("-" + d)[k] == d[k - 1];
    }
  }

  // ---------------------------------------------------------------------
  // parse_idx_list
  // ---------------------------------------------------------------------

  /** `[int(s) for s in idx_list.split(',') if s.strip()]`. */
  function ParseFields(fields: seq<string>): Result<seq<int>>
    decreases |fields|
  {
    if |fields| == 0 then Ok([])
    else if !HasNonWhitespace(fields[0]) then ParseFields(fields[1..])
    else match ParseInt(fields[0])
      case Err(f) => Err(f)
      case Ok(v) =>
        match ParseFields(fields[1..])
        case Err(f) => Err(f)
        case Ok(rest) => Ok([v] + rest)
  }

  function ParseIdxList(idxList: string): Result<seq<int>> {
    ParseFields(Pieces(idxList, ','))
  }

  /** The fields of a comma-separated list of `str(i)`. */
  function IntStrs(xs: seq<int>): (r: seq<string>)
    ensures |r| == |xs| && forall k :: 0 <= k < |xs| ==> r[k] == IntStr(xs[k])
  {
    seq(|xs|, k requires 0 <= k < |xs| => IntStr(xs[k]))
  }

  /** Fields that are not blank and that each parse to a number give the
      list of those numbers. */
  lemma {:induction false} ParseFieldsOfValues(fs: seq<string>, xs: seq<int>)
    requires |fs| == |xs|
    requires forall k :: 0 <= k < |fs| ==> HasNonWhitespace(fs[k]) && ParseInt(fs[k]) == Ok(xs[k])
    ensures ParseFields(fs) == Ok(xs)
    decreases |fs|
  {
    if |fs| > 0 {
      ParseFieldsOfValues(fs[1..], xs[1..]);
      assert xs == [xs[0]] + xs[1..];
    }
  }

  /** Blank fields are skipped, and the others parse in order. */
  lemma ParseFieldsOfInts(xs: seq<int>)
    ensures ParseFields(IntStrs(xs)) == Ok(xs)
  {
    var fs := IntStrs(xs);
    forall k | 0 <= k < |fs|
      ensures HasNonWhitespace(fs[k]) && ParseInt(fs[k]) == Ok(xs[k])
    {
      IntStrShape(xs[k]);
      assert !IsPyWhitespace(fs[k][0]);
      ParseIntStr(xs[k]);
    }
    ParseFieldsOfValues(fs, xs);
  }

  /** `parse_idx_list(','.join(map(str, xs))) == xs`. */
  lemma ParseIdxListOfJoin(xs: seq<int>)
    ensures ParseIdxList(Join(IntStrs(xs), ',')) == Ok(xs)
  {
    var fs := IntStrs(xs);
    if |xs| == 0 {
      assert Join(fs, ',') == "";
      assert Pieces("", ',') == [""];
      assert !HasNonWhitespace("");
    } else {
      forall k | 0 <= k < |fs|
        ensures ',' !in fs[k]
      {
        IntStrShape(xs[k]);
      }
      JoinPieces(fs, ',');
      ParseFieldsOfInts(xs);
    }
  }

  // ---------------------------------------------------------------------
  // Paths
  // ---------------------------------------------------------------------

  /** POSIX `os.path.join(a, b)`: an absolute `b` replaces `a`; otherwise a
      slash goes between them unless `a` is empty or ends with one. */
  function PathJoin(a: string, b: string): string {
    if |b| > 0 && b[0] == '/' then b
    else if |a| == 0 || a[|a| - 1] == '/' then a + b
    else a + "/" + b
  }

  /** `add_prefix(prefix, filenames)`. */
  function AddPrefix(prefix: string, filenames: seq<string>): (r: seq<string>)
    ensures |r| == |filenames|
    ensures forall k :: 0 <= k < |filenames| ==> r[k] == PathJoin(prefix, filenames[k])
  {
    seq(|filenames|, k requires 0 <= k < |filenames| => PathJoin(prefix, filenames[k]))
  }

  /** A joined path ends with its second part, and starts with the first
      when the second is relative. */
  lemma PathJoinMeaning(a: string, b: string)
    ensures var p := PathJoin(a, b);
      |b| <= |p| && p[|p| - |b|..] == b &&
      (!(|b| > 0 && b[0] == '/') ==> StartsWith(p, a))
  {
    var p := PathJoin(a, b);
    if !(|b| > 0 && b[0] == '/') {
      assert p[..|a|] == a;
    }
  }

  /** Prefixing two lists prefixes their concatenation. */
  lemma AddPrefixConcat(prefix: string, xs: seq<string>, ys: seq<string>)
    ensures AddPrefix(prefix, xs + ys) == AddPrefix(prefix, xs) + AddPrefix(prefix, ys)
  {
  }

  // ---------------------------------------------------------------------
  // get_prefix_dir
  // ---------------------------------------------------------------------

  /** A component naming an experiment directory. */
  predicate IsExperimentsPart(part: string) {
    StartsWith(part, "experiments.")
  }

  /** The last position below `upto` whose part starts with 'experiments.'. */
  function LastExperimentsPart(parts: seq<string>, upto: nat): (r: Option<nat>)
    requires upto <= |parts|
    ensures r.Some? ==> r.value < upto
    decreases upto
  {
    if upto == 0 then None
    else if IsExperimentsPart(parts[upto - 1]) then Some(upto - 1)
    else LastExperimentsPart(parts, upto - 1)
  }

  /** `get_prefix_dir` on the absolute path of the checkpoint: the path up
      to its last component but one that starts with 'experiments.'. */
  function GetPrefixDir(absPath: string): Result<string> {
    PrefixDirOfParts(Pieces(absPath, '/'))
  }

  /** The prefix directory from the components of the path. */
  function PrefixDirOfParts(parts: seq<string>): Result<string> {
    var upto := if |parts| == 0 then 0 else |parts| - 1;
    match LastExperimentsPart(parts, upto)
    case None => Err(ValueError)
    case Some(idx) => Ok(Join(parts[..idx + 1], '/'))
  }

  lemma {:induction false} LastExperimentsPartMeaning(parts: seq<string>, upto: nat)
    requires upto <= |parts|
    ensures LastExperimentsPart(parts, upto).Some? <==>
      exists k :: 0 <= k < upto && IsExperimentsPart(parts[k])
    ensures LastExperimentsPart(parts, upto).Some? ==>
      var i := LastExperimentsPart(parts, upto).value;
      IsExperimentsPart(parts[i]) &&
      forall k :: i < k < upto ==> !IsExperimentsPart(parts[k])
    decreases upto
  {
    if upto > 0 && !IsExperimentsPart(parts[upto - 1]) {
      LastExperimentsPartMeaning(parts, upto - 1);
    }
  }

  /** Joining a first run of the pieces gives a prefix of the whole join. */
  lemma {:induction false} JoinPrefix(ps: seq<string>, k: nat, d: char)
    requires 1 <= k <= |ps|
    ensures StartsWith(Join(ps, d), Join(ps[..k], d))
    decreases k
  {
    if k > 1 {
      JoinPrefix(ps[1..], k - 1, d);
      assert ps[..k][1..] == ps[1..][..k - 1];
      var head := ps[0] + [d];
      assert Join(ps[..k], d) == head + Join(ps[1..][..k - 1], d);
      assert Join(ps, d) == head + Join(ps[1..], d);
    }
  }

  /** `dir` is the join of the components up to `i`, the last component
      but the final one that starts with 'experiments.'. */
  ghost predicate PrefixDirAt(parts: seq<string>, i: nat, dir: string) {
    i < |parts| - 1 && dir == Join(parts[..i + 1], '/') && IsExperimentsPart(parts[i]) &&
    forall k :: i < k < |parts| - 1 ==> !IsExperimentsPart(parts[k])
  }

  /** On the components of a path: the result is the join of a leading run
      ending in an 'experiments.' component, other than the last, after
      which no component but the last starts so; a ValueError exactly when
      there is no such component. */
  lemma PrefixDirOfPartsMeaning(parts: seq<string>)
    requires |parts| > 0
    ensures PrefixDirOfParts(parts).Ok? <==>
      exists k :: 0 <= k < |parts| - 1 && IsExperimentsPart(parts[k])
    ensures PrefixDirOfParts(parts).Err? ==> PrefixDirOfParts(parts).failure == ValueError
    ensures PrefixDirOfParts(parts).Ok? ==> StartsWith(Join(parts, '/'), PrefixDirOfParts(parts).value)
    ensures PrefixDirOfParts(parts).Ok? ==> exists i :: PrefixDirAt(parts, i, PrefixDirOfParts(parts).value)
  {
    var upto := |parts| - 1;
    var r := LastExperimentsPart(parts, upto);
    if r.Some? {
      var i := r.value;
      var v := Join(parts[..i + 1], '/');
      PrefixDirOfPartsFound(parts, i);
      JoinPrefix(parts, i + 1, '/');
      assert PrefixDirAt(parts, i, v) by {
        LastExperimentsPartMeaning(parts, upto);
      }
      assert 0 <= i < upto && IsExperimentsPart(parts[i]);
    } else {
      assert PrefixDirOfParts(parts) == Err(ValueError);
      assert !exists k :: 0 <= k < upto && IsExperimentsPart(parts[k]) by {
        LastExperimentsPartMeaning(parts, upto);
      }
    }
  }

  /** The scan's find decides the result. */
  lemma PrefixDirOfPartsFound(parts: seq<string>, i: nat)
    requires |parts| > 0 && LastExperimentsPart(parts, |parts| - 1) == Some(i)
    ensures PrefixDirOfParts(parts) == Ok(Join(parts[..i + 1], '/'))
  {
  }

  /** `get_prefix_dir` returns a leading part of the path ending in its last
      'experiments.' component other than the final one, and raises a
      ValueError exactly when there is none. */
  lemma GetPrefixDirMeaning(absPath: string)
    ensures var parts := Pieces(absPath, '/');
      GetPrefixDir(absPath).Ok? <==>
        exists k :: 0 <= k < |parts| - 1 && IsExperimentsPart(parts[k])
    ensures GetPrefixDir(absPath).Err? ==> GetPrefixDir(absPath).failure == ValueError
    ensures GetPrefixDir(absPath).Ok? ==>
      var parts := Pieces(absPath, '/');
      StartsWith(absPath, GetPrefixDir(absPath).value) &&
      exists i :: PrefixDirAt(parts, i, GetPrefixDir(absPath).value)
  {
    PiecesProperties(absPath, '/');
    PrefixDirOfPartsMeaning(Pieces(absPath, '/'));
  }

  // ---------------------------------------------------------------------
  // build_arch_flags
  // ---------------------------------------------------------------------

  /** A step of `LEARNING_RATE_STEPS`: the epoch, the rate and the text
      `str` gives for the rate. */
  datatype LrStep = LrStep(epoch: PyNum, rate: real, rateText: string)

  /** A regularisation setting: None, or a number with its text. */
  type RegSetting = Option<(real, string)>

  /** The architecture module's settings. */
  datatype ArchConfig = ArchConfig(
    supervised: bool, dropout: string, skip: bool, detEval: bool,
    useLmcutFeatures: bool, useActHistoryFeatures: bool, teacherExperienceMode: string,
    l1Reg: RegSetting, l2Reg: RegSetting,
    numLayers: string, hiddenSize: string, evalRounds: string, roundTurnLimit: string,
    timeLimitSeconds: string, supervisedLearningRate: string, supervisedBatchSize: string,
    supervisedEarlyStop: string, saveEveryNEpochs: string, ssippTeacherHeuristic: string,
    optBatchPerEpoch: string, teacherPlanner: string, trainingStrategy: string,
    maxOptEpochs: string, limitTrainObsSize: string,
    learningRateSteps: seq<LrStep>)

  /** `str(L1_REG) if L1_REG else '0.0'`. */
  function RegText(reg: RegSetting): string {
    if reg.Some? && reg.value.0 != 0.0 then reg.value.1 else "0.0"
  }

  /** `int(x)`: a float is truncated toward zero. */
  function PyIntOf(x: PyNum): int {
    match x
    case PyInt(i) => i
    case PyFloat(f) => if f >= 0.0 then f.Floor else -((-f).Floor)
  }

  /** The checks on one learning-rate step: `assert k > 0, r > 0` makes
      `r > 0` the message of the assertion, so only the epoch is checked. */
  predicate StepAcceptedAsWritten(st: LrStep) {
    NumValue(st.epoch) > 0.0 && st.epoch.PyInt?
  }

  /** The check evidently intended: a positive integer epoch and a
      positive rate. */
  predicate StepIntended(st: LrStep) {
    NumValue(st.epoch) > 0.0 && st.epoch.PyInt? && st.rate > 0.0
  }

  predicate KnownExperienceMode(mode: string) {
    mode == "ROLLOUT" || mode == "ENVELOPE"
  }

  /** The settings `build_arch_flags` accepts, as written. */
  predicate ArchAccepted(cfg: ArchConfig) {
    cfg.supervised && KnownExperienceMode(cfg.teacherExperienceMode) &&
    forall k :: 0 <= k < |cfg.learningRateSteps| ==> StepAcceptedAsWritten(cfg.learningRateSteps[k])
  }

  /** The settings evidently meant to be accepted. */
  predicate ArchAcceptedIntended(cfg: ArchConfig) {
    cfg.supervised && KnownExperienceMode(cfg.teacherExperienceMode) &&
    forall k :: 0 <= k < |cfg.learningRateSteps| ==> StepIntended(cfg.learningRateSteps[k])
  }

  /** The switches, in the order they are emitted. */
  function SwitchFlags(cfg: ArchConfig, isTrain: bool): seq<string> {
    Switches(cfg.dropout, isTrain, !cfg.skip, cfg.detEval, !cfg.useLmcutFeatures,
             cfg.useActHistoryFeatures, cfg.teacherExperienceMode == "ROLLOUT")
  }

  /** The switch flags, from the conditions that ask for each. */
  function Switches(dropout: string, dropoutOn: bool, noSkip: bool, detEval: bool, noLmCuts: bool,
                    actHistory: bool, noEnvelope: bool): seq<string> {
    Opt(dropoutOn, ["--dropout", dropout]) +
    Opt(noSkip, ["--no-skip"]) +
    Opt(detEval, ["--det-eval"]) +
    Opt(noLmCuts, ["--no-use-lm-cuts"]) +
    Opt(actHistory, ["--use-act-history"]) +
    Opt(noEnvelope, ["--no-use-teacher-envelope"])
  }

  /** The `if ...: flags.append(...)` sequence of `build_arch_flags`. */
  method AppendSwitches(dropout: string, dropoutOn: bool, noSkip: bool, detEval: bool, noLmCuts: bool,
                        actHistory: bool, noEnvelope: bool) returns (flags: seq<string>)
    ensures flags == Switches(dropout, dropoutOn, noSkip, detEval, noLmCuts, actHistory, noEnvelope)
  {
    flags := [];
    if dropoutOn {
      flags := flags + ["--dropout", dropout];
    }
    assert flags == Opt(dropoutOn, ["--dropout", dropout]);
    if noSkip {
      flags := flags + ["--no-skip"];
    }
    assert flags == Opt(dropoutOn, ["--dropout", dropout]) + Opt(noSkip, ["--no-skip"]);
    if detEval {
      flags := flags + ["--det-eval"];
    }
    assert flags == Opt(dropoutOn, ["--dropout", dropout]) + Opt(noSkip, ["--no-skip"]) +
                    Opt(detEval, ["--det-eval"]);
    if noLmCuts {
      flags := flags + ["--no-use-lm-cuts"];
    }
    assert flags == Opt(dropoutOn, ["--dropout", dropout]) + Opt(noSkip, ["--no-skip"]) +
                    Opt(detEval, ["--det-eval"]) + Opt(noLmCuts, ["--no-use-lm-cuts"]);
    if actHistory {
      flags := flags + ["--use-act-history"];
    }
    assert flags == Opt(dropoutOn, ["--dropout", dropout]) + Opt(noSkip, ["--no-skip"]) +
                    Opt(detEval, ["--det-eval"]) + Opt(noLmCuts, ["--no-use-lm-cuts"]) +
                    Opt(actHistory, ["--use-act-history"]);
    if noEnvelope {
      flags := flags + ["--no-use-teacher-envelope"];
    }
  }

  /** `xs` when `b` holds, nothing otherwise. */
  function Opt(b: bool, xs: seq<string>): seq<string> {
    if b then xs else []
  }

  /** The settings every run gets, as option and value pairs. */
  function SettingFlags(cfg: ArchConfig, rollout: PyNum, teacherHeuristic: string): seq<string> {
    ["--num-layers", cfg.numLayers,
     "--hidden-size", cfg.hiddenSize,
     "--target-rollouts-per-epoch", IntStr(PyIntOf(rollout)),
     "--l2-reg", RegText(cfg.l2Reg),
     "--l1-reg", RegText(cfg.l1Reg),
     "-R", cfg.evalRounds,
     "-L", cfg.roundTurnLimit,
     "-t", cfg.timeLimitSeconds,
     "--supervised-lr", cfg.supervisedLearningRate,
     "--supervised-bs", cfg.supervisedBatchSize,
     "--supervised-early-stop", cfg.supervisedEarlyStop,
     "--save-every", cfg.saveEveryNEpochs,
     "--ssipp-teacher-heur", cfg.ssippTeacherHeuristic,
     "--opt-batch-per-epoch", cfg.optBatchPerEpoch,
     "--teacher-planner", cfg.teacherPlanner,
     "--fd-teacher-heuristic", teacherHeuristic,
     "--sup-objective", cfg.trainingStrategy,
     "--max-opt-epochs", cfg.maxOptEpochs,
     "--limit-train-obs-size", cfg.limitTrainObsSize]
  }

  /** '--lr-step k r' for each step. */
  function StepFlags(steps: seq<LrStep>): (r: seq<string>)
    ensures |r| == 3 * |steps|
    decreases |steps|
  {
    if |steps| == 0 then []
    else
      StepFlags(steps[..|steps| - 1]) +
      ["--lr-step", IntStr(PyIntOf(steps[|steps| - 1].epoch)), steps[|steps| - 1].rateText]
  }

  /** `build_arch_flags`: the switches, then the settings, then the
      learning-rate steps. The errors are an AssertionError for an
      unsupervised configuration or a bad step and a ValueError for an
      unknown experience mode.*/
  method BuildArchFlags(cfg: ArchConfig, rollout: PyNum, teacherHeuristic: string, isTrain: bool)
    returns (r: Result<seq<string>>)
    ensures r.Ok? <==> ArchAccepted(cfg)
    ensures r.Err? ==> r.failure == (if cfg.supervised && !KnownExperienceMode(cfg.teacherExperienceMode)
                                     then ValueError else AssertionError)
    ensures r.Ok? ==> r.value == SwitchFlags(cfg, isTrain) + SettingFlags(cfg, rollout, teacherHeuristic) +
                                 StepFlags(cfg.learningRateSteps)
  {
    if !cfg.supervised {
      return Err(AssertionError);
    }
    var flags := AppendSwitches(cfg.dropout, isTrain, !cfg.skip, cfg.detEval, !cfg.useLmcutFeatures,
                            cfg.useActHistoryFeatures, cfg.teacherExperienceMode == "ROLLOUT");
    if !KnownExperienceMode(cfg.teacherExperienceMode) {
      return Err(ValueError);
    }
    flags := flags + SettingFlags(cfg, rollout, teacherHeuristic);
    r := AppendLrSteps(flags, cfg.learningRateSteps);
  }

  /** The loop over `LEARNING_RATE_STEPS`: each step is checked, then its
      flags are appended. */
  method AppendLrSteps(flags0: seq<string>, steps: seq<LrStep>) returns (r: Result<seq<string>>)
    ensures r.Ok? <==> forall k :: 0 <= k < |steps| ==> StepAcceptedAsWritten(steps[k])
    ensures r.Err? ==> r.failure == AssertionError
    ensures r.Ok? ==> r.value == flags0 + StepFlags(steps)
  {
    var flags := flags0;
    var i := 0;
    while i < |steps|
      invariant 0 <= i <= |steps|
      invariant forall k :: 0 <= k < i ==> StepAcceptedAsWritten(steps[k])
      invariant flags == flags0 + StepFlags(steps[..i])
    {
      var st := steps[i];
      if !(NumValue(st.epoch) > 0.0) {
        return Err(AssertionError);
      }
      if !st.epoch.PyInt? {
        return Err(AssertionError);
      }
      assert steps[..i + 1][..i] == steps[..i];
      flags := flags + ["--lr-step", IntStr(PyIntOf(st.epoch)), st.rateText];
      i := i + 1;
    }
    assert steps[..i] == steps;
    return Ok(flags);
  }

  /** An option name. */
  predicate IsOption(s: string) {
    |s| > 0 && s[0] == '-'
  }

  /** Membership in six joined pieces. */
  lemma InSix(x: string, p0: seq<string>, p1: seq<string>, p2: seq<string>, p3: seq<string>, p4: seq<string>, p5: seq<string>)
    ensures x in p0 + p1 + p2 + p3 + p4 + p5 <==> x in p0 || x in p1 || x in p2 || x in p3 || x in p4 || x in p5
  {
  }

  /** Each switch appears exactly when its condition holds; the dropout
      value is not itself an option name. */
  lemma SwitchesMeaning(dropout: string, dropoutOn: bool, noSkip: bool, detEval: bool, noLmCuts: bool,
                        actHistory: bool, noEnvelope: bool)
    requires !IsOption(dropout)
    ensures var f := Switches(dropout, dropoutOn, noSkip, detEval, noLmCuts, actHistory, noEnvelope);
      ("--dropout" in f <==> dropoutOn) &&
      ("--no-skip" in f <==> noSkip) &&
      ("--det-eval" in f <==> detEval) &&
      ("--no-use-lm-cuts" in f <==> noLmCuts) &&
      ("--use-act-history" in f <==> actHistory) &&
      ("--no-use-teacher-envelope" in f <==> noEnvelope)
  {
    var f := Switches(dropout, dropoutOn, noSkip, detEval, noLmCuts, actHistory, noEnvelope);
    var p0 := Opt(dropoutOn, ["--dropout", dropout]);
    var p1 := Opt(noSkip, ["--no-skip"]);
    var p2 := Opt(detEval, ["--det-eval"]);
    var p3 := Opt(noLmCuts, ["--no-use-lm-cuts"]);
    var p4 := Opt(actHistory, ["--use-act-history"]);
    var p5 := Opt(noEnvelope, ["--no-use-teacher-envelope"]);
    assert f == p0 + p1 + p2 + p3 + p4 + p5;
    InSix("--dropout", p0, p1, p2, p3, p4, p5);
    InSix("--no-skip", p0, p1, p2, p3, p4, p5);
    InSix("--det-eval", p0, p1, p2, p3, p4, p5);
    InSix("--no-use-lm-cuts", p0, p1, p2, p3, p4, p5);
    InSix("--use-act-history", p0, p1, p2, p3, p4, p5);
    InSix("--no-use-teacher-envelope", p0, p1, p2, p3, p4, p5);
  }


  /** '--dropout' appears exactly in training runs, and each other switch
      exactly when its setting asks for it. */
  lemma SwitchFlagsMeaning(cfg: ArchConfig, isTrain: bool)
    requires !IsOption(cfg.dropout)
    ensures var f := SwitchFlags(cfg, isTrain);
      ("--dropout" in f <==> isTrain) &&
      ("--no-skip" in f <==> !cfg.skip) &&
      ("--det-eval" in f <==> cfg.detEval) &&
      ("--no-use-lm-cuts" in f <==> !cfg.useLmcutFeatures) &&
      ("--use-act-history" in f <==> cfg.useActHistoryFeatures) &&
      ("--no-use-teacher-envelope" in f <==> cfg.teacherExperienceMode == "ROLLOUT")
  {
    SwitchesMeaning(cfg.dropout, isTrain, !cfg.skip, cfg.detEval, !cfg.useLmcutFeatures,
                    cfg.useActHistoryFeatures, cfg.teacherExperienceMode == "ROLLOUT");
  }

  /** Each regularisation value is '0.0' when the setting is falsy and
      its own text otherwise. */
  lemma SettingFlagsMeaning(cfg: ArchConfig, rollout: PyNum, teacherHeuristic: string)
    ensures var f := SettingFlags(cfg, rollout, teacherHeuristic);
      |f| == 38 && f[6] == "--l2-reg" && f[8] == "--l1-reg" &&
      (cfg.l2Reg.None? || cfg.l2Reg.value.0 == 0.0 ==> f[7] == "0.0") &&
      (cfg.l1Reg.None? || cfg.l1Reg.value.0 == 0.0 ==> f[9] == "0.0") &&
      (cfg.l2Reg.Some? && cfg.l2Reg.value.0 != 0.0 ==> f[7] == cfg.l2Reg.value.1) &&
      (cfg.l1Reg.Some? && cfg.l1Reg.value.0 != 0.0 ==> f[9] == cfg.l1Reg.value.1)
  {
  }

  /** Step `j` becomes flags `3j` to `3j + 2`: '--lr-step', the epoch and
      the rate. */
  lemma {:induction false} StepFlagsMeaning(steps: seq<LrStep>)
    ensures forall j :: 0 <= j < |steps| ==>
      StepFlags(steps)[3 * j] == "--lr-step" &&
      StepFlags(steps)[3 * j + 1] == IntStr(PyIntOf(steps[j].epoch)) &&
      StepFlags(steps)[3 * j + 2] == steps[j].rateText
    decreases |steps|
  {
    if |steps| > 0 {
      var init, last := steps[..|steps| - 1], steps[|steps| - 1];
      StepFlagsMeaning(init);
      var f, g := StepFlags(steps), StepFlags(init);
      var tail := ["--lr-step", IntStr(PyIntOf(last.epoch)), last.rateText];
      assert f == g + tail;
      forall j | 0 <= j < |steps|
        ensures f[3 * j] == "--lr-step" && f[3 * j + 1] == IntStr(PyIntOf(steps[j].epoch)) &&
                f[3 * j + 2] == steps[j].rateText
      {
        if j < |init| {
          assert init[j] == steps[j];
          assert f[3 * j] == g[3 * j] && f[3 * j + 1] == g[3 * j + 1] && f[3 * j + 2] == g[3 * j + 2];
        } else {
          assert f[3 * j] == tail[0] && f[3 * j + 1] == tail[1] && f[3 * j + 2] == tail[2];
        }
      }
    }
  }

  /** The steps as the trainer receives them. */
  function TrainerSteps(steps: seq<LrStep>): (r: seq<(PyNum, real)>)
    ensures |r| == |steps|
  {
    seq(|steps|, k requires 0 <= k < |steps| => (steps[k].epoch, steps[k].rate))
  }

  /** As written, a schedule with a negative rate passes: the flags are
      built, and the trainer's own check of the schedule fails later. */
  lemma NegativeRateAcceptedAsWritten(cfg: ArchConfig)
    requires cfg.supervised && cfg.teacherExperienceMode == "ENVELOPE"
    requires cfg.learningRateSteps == [LrStep(PyInt(5), -0.1, "-0.1")]
    ensures ArchAccepted(cfg)
    ensures LrSteps(0.001, TrainerSteps(cfg.learningRateSteps)) == Err(AssertionError)
  {
    LrStepsMeaning(0.001, TrainerSteps(cfg.learningRateSteps));
    assert !StepOk(TrainerSteps(cfg.learningRateSteps)[0]);
  }

  /** With the intended check, every accepted schedule is one the trainer
      accepts. */
  lemma IntendedStepsSuitTrainer(cfg: ArchConfig, lr: real)
    requires ArchAcceptedIntended(cfg) && lr > 0.0
    ensures ArchAccepted(cfg)
    ensures LrSteps(lr, TrainerSteps(cfg.learningRateSteps)).Ok?
  {
    var ts := TrainerSteps(cfg.learningRateSteps);
    forall k | 0 <= k < |ts|
      ensures StepOk(ts[k])
    {
      assert ts[k] == (cfg.learningRateSteps[k].epoch, cfg.learningRateSteps[k].rate);
      assert StepIntended(cfg.learningRateSteps[k]);
    }
    LrStepsMeaning(lr, ts);
  }

  // ---------------------------------------------------------------------
  // build_prob_flags_train and build_prob_flags_test
  // ---------------------------------------------------------------------

  /** The problem module's settings. */
  datatype ProbConfig = ProbConfig(
    pddlDir: string, commonPddls: seq<string>, trainPddls: seq<string>,
    trainNames: seq<string>, testRuns: seq<(seq<string>, Option<string>)>)

  /** `build_prob_flags_train`: '-p name' for each training problem name,
      then the common and the training PDDL files under the PDDL
      directory. */
  method BuildProbFlagsTrain(pm: ProbConfig) returns (r: seq<string>)
    ensures var n := |pm.trainNames|;
      |r| == 2 * n + |pm.commonPddls| + |pm.trainPddls| &&
      (forall j :: 0 <= j < n ==> r[2 * j] == "-p" && r[2 * j + 1] == pm.trainNames[j]) &&
      r[2 * n..] == AddPrefix(pm.pddlDir, pm.commonPddls + pm.trainPddls)
  {
    var pddls := AddPrefix(pm.pddlDir, pm.commonPddls);
    var trainPddls := AddPrefix(pm.pddlDir, pm.trainPddls);
    pddls := pddls + trainPddls;
    AddPrefixConcat(pm.pddlDir, pm.commonPddls, pm.trainPddls);
    var otherFlags: seq<string> := [];
    var i := 0;
    while i < |pm.trainNames|
      invariant 0 <= i <= |pm.trainNames|
      invariant |otherFlags| == 2 * i
      invariant forall j :: 0 <= j < i ==> otherFlags[2 * j] == "-p" && otherFlags[2 * j + 1] == pm.trainNames[j]
    {
      otherFlags := otherFlags + ["-p", pm.trainNames[i]];
      i := i + 1;
    }
    r := otherFlags + pddls;
    assert r[2 * |pm.trainNames|..] == pddls;
  }

  /** The flags of one test run. */
  function TestFlags(pm: ProbConfig, run: (seq<string>, Option<string>)): seq<string> {
    (if run.1.Some? then ["-p", run.1.value] else []) +
    AddPrefix(pm.pddlDir, pm.commonPddls) + AddPrefix(pm.pddlDir, run.0)
  }

  /** The indices below `n` kept by `allowed_idxs`, in order. */
  function KeptIndices(n: nat, allowed: Option<seq<int>>): (r: seq<nat>)
    ensures forall j :: 0 <= j < |r| ==> r[j] < n
    decreases n
  {
    if n == 0 then []
    else
      KeptIndices(n - 1, allowed) +
      (if allowed.None? || (n - 1) in allowed.value then [n - 1] else [])
  }

  lemma {:induction false} KeptIndicesMeaning(n: nat, allowed: Option<seq<int>>)
    ensures forall i :: 0 <= i < n ==> (i in KeptIndices(n, allowed) <==> allowed.None? || i in allowed.value)
    ensures forall a, b :: 0 <= a < b < |KeptIndices(n, allowed)| ==> KeptIndices(n, allowed)[a] < KeptIndices(n, allowed)[b]
    ensures allowed.None? ==> |KeptIndices(n, allowed)| == n
    decreases n
  {
    if n > 0 {
      KeptIndicesMeaning(n - 1, allowed);
    }
  }

  /** `build_prob_flags_test`: one entry per test run kept by
      `allowed_idxs`, keeping its original index, with '-p name' only for
      named problems. */
  method BuildProbFlagsTest(pm: ProbConfig, allowed: Option<seq<int>>)
    returns (rv: seq<(nat, seq<string>)>)
    ensures |rv| == |KeptIndices(|pm.testRuns|, allowed)|
    ensures forall j :: 0 <= j < |rv| ==>
      rv[j].0 == KeptIndices(|pm.testRuns|, allowed)[j] &&
      rv[j].1 == TestFlags(pm, pm.testRuns[rv[j].0])
  {
    var pddls := AddPrefix(pm.pddlDir, pm.commonPddls);
    rv := [];
    var idx := 0;
    while idx < |pm.testRuns|
      invariant 0 <= idx <= |pm.testRuns|
      invariant |rv| == |KeptIndices(idx, allowed)|
      invariant forall j :: 0 <= j < |rv| ==>
        rv[j].0 == KeptIndices(idx, allowed)[j] && rv[j].0 < |pm.testRuns| &&
        rv[j].1 == TestFlags(pm, pm.testRuns[rv[j].0])
    {
      var (pddlPaths, probName) := pm.testRuns[idx];
      if allowed.Some? && idx !in allowed.value {
        idx := idx + 1;
        continue;
      }
      var probFlag: seq<string> := [];
      if probName.Some? {
        probFlag := ["-p", probName.value];
      }
      var thesePddls := AddPrefix(pm.pddlDir, pddlPaths);
      rv := rv + [(idx, probFlag + pddls + thesePddls)];
      idx := idx + 1;
    }
  }
}
