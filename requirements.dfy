/** The PDDL requirement flags of a domain (`Requirements` of the mGPT
    planner core): eleven booleans set by the parser, the `adl` and
    `quantified_preconditions` shorthands that set several of them, and
    `asPDDL`, which prints them back as a `(:requirements ...)` list. */
module PddlRequirements {

  /** The eleven flags, as a value. */
  datatype Flags = Flags(strips: bool, typing: bool, negativePreconditions: bool,
                         disjunctivePreconditions: bool, equality: bool,
                         existentialPreconditions: bool, universalPreconditions: bool,
                         conditionalEffects: bool, fluents: bool,
                         probabilisticEffects: bool, rewards: bool)

  /** The flags a fresh `Requirements` holds: only `strips`. */
  const InitialFlags := Flags(true, false, false, false, false, false, false, false, false, false, false)

  /** The flags after `quantified_preconditions()`. */
  function WithQuantified(f: Flags): Flags {
    f.(existentialPreconditions := true, universalPreconditions := true)
  }

  /** The flags after `adl()`. */
  function WithAdl(f: Flags): Flags {
    WithQuantified(f.(strips := true, typing := true, negativePreconditions := true,
                      disjunctivePreconditions := true, equality := true)).(conditionalEffects := true)
  }

  /** The eight flags that `:adl` stands for. */
  predicate AllAdl(f: Flags) {
    f.strips && f.typing && f.negativePreconditions && f.disjunctivePreconditions && f.equality
    && f.existentialPreconditions && f.universalPreconditions && f.conditionalEffects
  }

  /** A requirement key that `asPDDL` can print. */
  datatype Key = Strips | Typing | NegativePreconditions | DisjunctivePreconditions | Equality
               | ExistentialPreconditions | UniversalPreconditions | ConditionalEffects | Fluents
               | Adl | ProbabilisticEffects | Rewards

  /** A key as PPDDL spells it. */
  function PddlName(k: Key): string {
    match k
    case Strips => ":strips"
    case Typing => ":typing"
    case NegativePreconditions => ":negative-preconditions"
    case DisjunctivePreconditions => ":disjunctive-preconditions"
    case Equality => ":equality"
    case ExistentialPreconditions => ":existential-preconditions"
    case UniversalPreconditions => ":universal-preconditions"
    case ConditionalEffects => ":conditional-effects"
    case Fluents => ":fluents"
    case Adl => ":adl"
    case ProbabilisticEffects => ":probabilistic-effects"
    case Rewards => ":rewards"
  }

  /** A key as `asPDDL` spells it: the five two-word keys of the single
      flags with an underscore. */
  function AsWrittenName(k: Key): string {
    match k
    case NegativePreconditions => ":negative_preconditions"
    case DisjunctivePreconditions => ":disjunctive_preconditions"
    case ExistentialPreconditions => ":existential_preconditions"
    case UniversalPreconditions => ":universal_preconditions"
    case ConditionalEffects => ":conditional_effects"
    case _ => PddlName(k)
  }

  /** The requirement keys of PPDDL that the flags stand for. */
  const PddlKeys: set<string> :=
    {":strips", ":typing", ":negative-preconditions", ":disjunctive-preconditions", ":equality",
     ":existential-preconditions", ":universal-preconditions", ":conditional-effects", ":fluents",
     ":adl", ":probabilistic-effects", ":rewards"}

  /** The keys with `k` appended when its flag is set: one
      `if (flag) ost << key;` of `asPDDL`. */
  function Then(keys: seq<Key>, flag: bool, k: Key): seq<Key> {
    if flag then keys + [k] else keys
  }

  /** Whether a flag is set, for the keys of the nine single flags. */
  predicate IsSet(f: Flags, k: Key) {
    match k
    case Strips => f.strips
    case Typing => f.typing
    case NegativePreconditions => f.negativePreconditions
    case DisjunctivePreconditions => f.disjunctivePreconditions
    case Equality => f.equality
    case ExistentialPreconditions => f.existentialPreconditions
    case UniversalPreconditions => f.universalPreconditions
    case ConditionalEffects => f.conditionalEffects
    case Fluents => f.fluents
    case _ => false
  }

  /** The single flags in the order `asPDDL` prints them: the eight ADL
      flags, then `fluents`. */
  const SingleOrder: seq<Key> :=
    [Strips, Typing, NegativePreconditions, DisjunctivePreconditions, Equality,
     ExistentialPreconditions, UniversalPreconditions, ConditionalEffects, Fluents]

  /** The keys of `ks` whose flag is set, in order. */
  function Filter(f: Flags, ks: seq<Key>): seq<Key> {
    if |ks| == 0 then []
    else Then(Filter(f, ks[..|ks| - 1]), IsSet(f, ks[|ks| - 1]), ks[|ks| - 1])
  }

  /** The keys printed for all but `:adl`: `:adl` for the eight ADL flags
      together, which then hides `fluents`; else each single flag set. */
  function Front(f: Flags): seq<Key> {
    if AllAdl(f) then [Adl] else Filter(f, SingleOrder)
  }

  /** The keys `asPDDL` prints: the front, then the probabilistic and
      reward keys unless ignored. */
  function Keys(f: Flags, ignoreProb: bool, ignoreRewards: bool): seq<Key> {
    Then(Then(Front(f), f.probabilisticEffects && !ignoreProb, ProbabilisticEffects),
         f.rewards && !ignoreRewards, Rewards)
  }

  /** A key spelled as PPDDL does or, when `asWritten`, as `asPDDL` does. */
  function Name(k: Key, asWritten: bool): string {
    if asWritten then AsWrittenName(k) else PddlName(k)
  }

  /** The keys, each after a space. */
  function Joined(keys: seq<Key>, asWritten: bool): string {
    if |keys| == 0 then ""
    else Joined(keys[..|keys| - 1], asWritten) + " " + Name(keys[|keys| - 1], asWritten)
  }

  /** The string `asPDDL` returns for these keys: the empty string when
      there is no key. */
  function Text(keys: seq<Key>, asWritten: bool): string {
    var s := "(:requirements" + Joined(keys, asWritten) + ")";
    if s == "(:requirements)" then "" else s
  }

  /** The requirements list of a domain as `asPDDL` builds it. */
  function AsWrittenText(f: Flags, ignoreProb: bool, ignoreRewards: bool): string {
    Text(Keys(f, ignoreProb, ignoreRewards), true)
  }

  /** The same list with the keys spelled as PPDDL does. */
  function PddlText(f: Flags, ignoreProb: bool, ignoreRewards: bool): string {
    Text(Keys(f, ignoreProb, ignoreRewards), false)
  }

  lemma JoinedSnoc(keys: seq<Key>, k: Key, asWritten: bool)
    ensures Joined(keys + [k], asWritten) == Joined(keys, asWritten) + " " + Name(k, asWritten)
  {
    assert (keys + [k])[..|keys|] == keys;
  }

  /** Each key adds at least its space, so only no key joins to nothing. */
  lemma {:induction false} JoinedLength(keys: seq<Key>, asWritten: bool)
    ensures |Joined(keys, asWritten)| >= |keys|
  {
    if |keys| > 0 {
      JoinedLength(keys[..|keys| - 1], asWritten);
    }
  }

  lemma Closed(ost: string, keys: seq<Key>, asWritten: bool)
    requires ost == "(:requirements" + Joined(keys, asWritten) + ")"
    ensures Text(keys, asWritten) == if ost == "(:requirements)" then "" else ost
  {
  }

  /** `asPDDL` returns the empty string exactly when it prints no key, and
      otherwise the keys between `(:requirements` and `)`. */
  lemma TextEmptyIff(keys: seq<Key>, asWritten: bool)
    ensures Text(keys, asWritten) == "" <==> keys == []
    ensures keys != [] ==> Text(keys, asWritten) == "(:requirements" + Joined(keys, asWritten) + ")"
  {
    JoinedLength(keys, asWritten);
    if keys != [] {
      var s := "(:requirements" + Joined(keys, asWritten) + ")";
      assert |s| > |"(:requirements)"|;
    }
  }

  lemma ThenIn(keys: seq<Key>, flag: bool, k: Key, j: Key)
    ensures j in Then(keys, flag, k) <==> j in keys || (flag && j == k)
  {
  }

  /** A key is kept exactly when it is listed and its flag is set. */
  lemma {:induction false} FilterIn(f: Flags, ks: seq<Key>, j: Key)
    ensures j in Filter(f, ks) <==> j in ks && IsSet(f, j)
  {
    if |ks| > 0 {
      var n := |ks| - 1;
      FilterIn(f, ks[..n], j);
      ThenIn(Filter(f, ks[..n]), IsSet(f, ks[n]), ks[n], j);
      assert ks == ks[..n] + [ks[n]];
    }
  }

  /** What `asPDDL` prints: `:adl` exactly when the eight ADL flags are
      set, and otherwise each single flag exactly when it is set (so
      `fluents` is hidden by `:adl`); the probabilistic and reward keys
      exactly when set and not ignored. */
  lemma KeysIn(f: Flags, ignoreProb: bool, ignoreRewards: bool, j: Key)
    ensures j in Keys(f, ignoreProb, ignoreRewards) <==>
      (if AllAdl(f) then j == Adl else IsSet(f, j))
      || (j == ProbabilisticEffects && f.probabilisticEffects && !ignoreProb)
      || (j == Rewards && f.rewards && !ignoreRewards)
  {
    FilterIn(f, SingleOrder, j);
    ThenIn(Front(f), f.probabilisticEffects && !ignoreProb, ProbabilisticEffects, j);
    ThenIn(Then(Front(f), f.probabilisticEffects && !ignoreProb, ProbabilisticEffects),
           f.rewards && !ignoreRewards, Rewards, j);
    if IsSet(f, j) {
      assert j in SingleOrder by {
        match j
        case Strips => assert SingleOrder[0] == j;
        case Typing => assert SingleOrder[1] == j;
        case NegativePreconditions => assert SingleOrder[2] == j;
        case DisjunctivePreconditions => assert SingleOrder[3] == j;
        case Equality => assert SingleOrder[4] == j;
        case ExistentialPreconditions => assert SingleOrder[5] == j;
        case UniversalPreconditions => assert SingleOrder[6] == j;
        case ConditionalEffects => assert SingleOrder[7] == j;
        case Fluents => assert SingleOrder[8] == j;
      }
    }
  }

  /** Under `:adl` it comes first. */
  lemma AdlFirst(f: Flags, ignoreProb: bool, ignoreRewards: bool)
    requires AllAdl(f)
    ensures Keys(f, ignoreProb, ignoreRewards)[0] == Adl
  {
  }

  /** Nothing is printed exactly when no single flag is set and the
      probabilistic and reward flags are unset or ignored. */
  lemma KeysEmptyIff(f: Flags, ignoreProb: bool, ignoreRewards: bool)
    ensures Keys(f, ignoreProb, ignoreRewards) == [] <==>
      !f.strips && !f.typing && !f.negativePreconditions && !f.disjunctivePreconditions
      && !f.equality && !f.existentialPreconditions && !f.universalPreconditions
      && !f.conditionalEffects && !f.fluents
      && (f.probabilisticEffects ==> ignoreProb) && (f.rewards ==> ignoreRewards)
  {
    var keys := Keys(f, ignoreProb, ignoreRewards);
    if keys == [] {
      KeysIn(f, ignoreProb, ignoreRewards, Strips);
      KeysIn(f, ignoreProb, ignoreRewards, Typing);
      KeysIn(f, ignoreProb, ignoreRewards, NegativePreconditions);
      KeysIn(f, ignoreProb, ignoreRewards, DisjunctivePreconditions);
      KeysIn(f, ignoreProb, ignoreRewards, Equality);
      KeysIn(f, ignoreProb, ignoreRewards, ExistentialPreconditions);
      KeysIn(f, ignoreProb, ignoreRewards, UniversalPreconditions);
      KeysIn(f, ignoreProb, ignoreRewards, ConditionalEffects);
      KeysIn(f, ignoreProb, ignoreRewards, Fluents);
      KeysIn(f, ignoreProb, ignoreRewards, ProbabilisticEffects);
      KeysIn(f, ignoreProb, ignoreRewards, Rewards);
    } else {
      KeysIn(f, ignoreProb, ignoreRewards, keys[0]);
    }
  }

  /** `quantified_preconditions` sets both quantifier flags and nothing else. */
  lemma WithQuantifiedSets(f: Flags)
    ensures var g := WithQuantified(f);
            g.existentialPreconditions && g.universalPreconditions &&
            g.(existentialPreconditions := f.existentialPreconditions,
               universalPreconditions := f.universalPreconditions) == f
  {
  }

  /** `adl` sets the eight ADL flags, leaves `fluents`,
      `probabilistic_effects` and `rewards` alone, and doing it twice is
      doing it once. */
  lemma WithAdlSets(f: Flags)
    ensures AllAdl(WithAdl(f))
    ensures WithAdl(f).fluents == f.fluents && WithAdl(f).probabilisticEffects == f.probabilisticEffects
    ensures WithAdl(f).rewards == f.rewards
    ensures WithAdl(WithAdl(f)) == WithAdl(f)
    ensures AllAdl(f) ==> WithAdl(f) == f
  {
  }

  /** With PPDDL spelling every printed key is a PPDDL requirement key, and
      the list is empty exactly when the one `asPDDL` prints is. */
  lemma PddlNamesValid(f: Flags, ignoreProb: bool, ignoreRewards: bool)
    ensures forall k :: k in Keys(f, ignoreProb, ignoreRewards) ==> PddlName(k) in PddlKeys
    ensures PddlText(f, ignoreProb, ignoreRewards) == "" <==> AsWrittenText(f, ignoreProb, ignoreRewards) == ""
  {
    TextEmptyIff(Keys(f, ignoreProb, ignoreRewards), true);
    TextEmptyIff(Keys(f, ignoreProb, ignoreRewards), false);
  }

  /** As `asPDDL` spells them, the keys of the two-word single flags are
      not PPDDL keys, and each is printed when its flag is set without all
      of ADL: a domain with `:strips` and `:negative-preconditions` gets
      `(:requirements :strips :negative_preconditions)`. */
  lemma AsWrittenKeysInvalid(f: Flags, ignoreProb: bool, ignoreRewards: bool, k: Key)
    requires !AllAdl(f) && IsSet(f, k)
    requires k in {NegativePreconditions, DisjunctivePreconditions, ExistentialPreconditions,
                   UniversalPreconditions, ConditionalEffects}
    ensures k in Keys(f, ignoreProb, ignoreRewards) && AsWrittenName(k) !in PddlKeys
  {
    KeysIn(f, ignoreProb, ignoreRewards, k);
  }

  /** The text with the PPDDL key of `k` appended when its flag is set. */
  function ThenText(t: string, flag: bool, k: Key): string {
    if flag then t + " " + PddlName(k) else t
  }

  /** The `else` branch of `asPDDL` on the text so far, one `if` per flag. */
  function SinglesText(t: string, f: Flags): string {
    ThenText(ThenText(ThenText(ThenText(ThenText(ThenText(ThenText(ThenText(ThenText(t,
      f.strips, Strips), f.typing, Typing), f.negativePreconditions, NegativePreconditions),
      f.disjunctivePreconditions, DisjunctivePreconditions), f.equality, Equality),
      f.existentialPreconditions, ExistentialPreconditions), f.universalPreconditions, UniversalPreconditions),
      f.conditionalEffects, ConditionalEffects), f.fluents, Fluents)
  }

  /** The text after the `if`/`else` of `asPDDL`. */
  function FrontText(f: Flags): string {
    if AllAdl(f) then ThenText("(:requirements", true, Adl) else SinglesText("(:requirements", f)
  }

  /** The text after one `if` per key of `ks`. */
  function FilterText(t: string, f: Flags, ks: seq<Key>): string {
    if |ks| == 0 then t
    else ThenText(FilterText(t, f, ks[..|ks| - 1]), IsSet(f, ks[|ks| - 1]), ks[|ks| - 1])
  }

  lemma FilterTextSnoc(t: string, f: Flags, ks: seq<Key>, k: Key)
    ensures FilterText(t, f, ks + [k]) == ThenText(FilterText(t, f, ks), IsSet(f, k), k)
  {
    assert (ks + [k])[..|ks|] == ks;
  }

  lemma FilterTextTake(t: string, f: Flags, ks: seq<Key>, k: nat)
    requires k < |ks|
    ensures FilterText(t, f, ks[..k + 1]) == ThenText(FilterText(t, f, ks[..k]), IsSet(f, ks[k]), ks[k])
  {
    assert ks[..k + 1][..k] == ks[..k];
  }

  /** One `if` per key of a nine-key list, written out. */
  lemma FilterTextNine(t: string, f: Flags, ks: seq<Key>)
    requires |ks| == 9
    ensures FilterText(t, f, ks) ==
      ThenText(ThenText(ThenText(ThenText(ThenText(ThenText(ThenText(ThenText(ThenText(t, IsSet(f, ks[0]), ks[0]), IsSet(f, ks[1]), ks[1]), IsSet(f, ks[2]), ks[2]), IsSet(f, ks[3]), ks[3]), IsSet(f, ks[4]), ks[4]), IsSet(f, ks[5]), ks[5]), IsSet(f, ks[6]), ks[6]), IsSet(f, ks[7]), ks[7]), IsSet(f, ks[8]), ks[8])
  {
    assert ks[..0] == [];
    var s0 := t;
    var s1 := ThenText(s0, IsSet(f, ks[0]), ks[0]);
    var s2 := ThenText(s1, IsSet(f, ks[1]), ks[1]);
    var s3 := ThenText(s2, IsSet(f, ks[2]), ks[2]);
    var s4 := ThenText(s3, IsSet(f, ks[3]), ks[3]);
    var s5 := ThenText(s4, IsSet(f, ks[4]), ks[4]);
    var s6 := ThenText(s5, IsSet(f, ks[5]), ks[5]);
    var s7 := ThenText(s6, IsSet(f, ks[6]), ks[6]);
    var s8 := ThenText(s7, IsSet(f, ks[7]), ks[7]);
    var s9 := ThenText(s8, IsSet(f, ks[8]), ks[8]);
    assert FilterText(t, f, ks[..1]) == s1 by { FilterTextTake(t, f, ks, 0); }
    assert FilterText(t, f, ks[..2]) == s2 by { FilterTextTake(t, f, ks, 1); }
    assert FilterText(t, f, ks[..3]) == s3 by { FilterTextTake(t, f, ks, 2); }
    assert FilterText(t, f, ks[..4]) == s4 by { FilterTextTake(t, f, ks, 3); }
    assert FilterText(t, f, ks[..5]) == s5 by { FilterTextTake(t, f, ks, 4); }
    assert FilterText(t, f, ks[..6]) == s6 by { FilterTextTake(t, f, ks, 5); }
    assert FilterText(t, f, ks[..7]) == s7 by { FilterTextTake(t, f, ks, 6); }
    assert FilterText(t, f, ks[..8]) == s8 by { FilterTextTake(t, f, ks, 7); }
    assert FilterText(t, f, ks[..9]) == s9 by { FilterTextTake(t, f, ks, 8); }
    assert ks[..9] == ks;
  }

  /** The nine `if`s are one per single flag, in order. */
  lemma SinglesTextOrder(t: string, f: Flags)
    ensures SinglesText(t, f) == FilterText(t, f, SingleOrder)
  {
    var o := SingleOrder;
    assert o[0] == Strips && o[1] == Typing && o[2] == NegativePreconditions;
    assert o[3] == DisjunctivePreconditions && o[4] == Equality && o[5] == ExistentialPreconditions;
    assert o[6] == UniversalPreconditions && o[7] == ConditionalEffects && o[8] == Fluents;
    FilterTextNine(t, f, o);
  }

  /** Appending a key's text is appending the key. */
  lemma ThenJoined(t: string, keys: seq<Key>, flag: bool, k: Key)
    ensures ThenText(t + Joined(keys, false), flag, k) == t + Joined(Then(keys, flag, k), false)
  {
    if flag {
      JoinedSnoc(keys, k, false);
    } else {
      assert t + Joined(keys, false) == t + Joined(Then(keys, flag, k), false);
    }
  }

  /** The `if`s of `ks` print the keys `Filter` keeps. */
  lemma {:induction false} FilterTextJoined(t: string, f: Flags, ks: seq<Key>)
    ensures FilterText(t, f, ks) == t + Joined(Filter(f, ks), false)
  {
    if |ks| == 0 {
      assert t + "" == t;
    } else {
      var n := |ks| - 1;
      FilterTextJoined(t, f, ks[..n]);
      ThenJoined(t, Filter(f, ks[..n]), IsSet(f, ks[n]), ks[n]);
    }
  }

  /** The `if`/`else` of `asPDDL` prints the keys of `Front`. */
  lemma FrontTextJoined(f: Flags)
    ensures FrontText(f) == "(:requirements" + Joined(Front(f), false)
  {
    if AllAdl(f) {
      ThenJoined("(:requirements", [], true, Adl);
      assert "(:requirements" + Joined([], false) == "(:requirements";
    } else {
      SinglesTextOrder("(:requirements", f);
      FilterTextJoined("(:requirements", f, SingleOrder);
    }
  }

  /** The flags of a domain. */
  class Requirements {
    var strips: bool
    var typing: bool
    var negativePreconditions: bool
    var disjunctivePreconditions: bool
    var equality: bool
    var existentialPreconditions: bool
    var universalPreconditions: bool
    var conditionalEffects: bool
    var fluents: bool
    var probabilisticEffects: bool
    var rewards: bool

    /** The flags as a value. */
    function Current(): (f: Flags)
      reads this
      ensures f.strips == strips && f.fluents == fluents && f.rewards == rewards
    {
      Flags(strips, typing, negativePreconditions, disjunctivePreconditions, equality,
            existentialPreconditions, universalPreconditions, conditionalEffects, fluents,
            probabilisticEffects, rewards)
    }

    /** By default only `strips` is set. */
    constructor ()
      ensures Current() == InitialFlags
    {
      strips := true;
      typing := false;
      negativePreconditions := false;
      disjunctivePreconditions := false;
      equality := false;
      existentialPreconditions := false;
      universalPreconditions := false;
      conditionalEffects := false;
      fluents := false;
      probabilisticEffects := false;
      rewards := false;
    }

    /** `quantified_preconditions()`. */
    method QuantifiedPreconditions()
      modifies this
      ensures Current() == WithQuantified(old(Current()))
    {
      existentialPreconditions := true;
      universalPreconditions := true;
    }

    /** `adl()`. */
    method Adl()
      modifies this
      ensures Current() == WithAdl(old(Current()))
    {
      strips := true;
      typing := true;
      negativePreconditions := true;
      disjunctivePreconditions := true;
      equality := true;
      QuantifiedPreconditions();
      conditionalEffects := true;
    }

    /** `asPDDL(ignore_prob, ignore_rewards)`, appending to a string as the
        code appends to its stream, with the keys spelled as PPDDL does. */
    method AsPddl(ignoreProb: bool, ignoreRewards: bool) returns (s: string)
      ensures s == PddlText(Current(), ignoreProb, ignoreRewards)
    {
      var ost := PrintFront();
      ghost var f := Current();
      FrontTextJoined(f);
      ThenJoined("(:requirements", Front(f), probabilisticEffects && !ignoreProb, ProbabilisticEffects);
      ost := Append(ost, probabilisticEffects && !ignoreProb, ProbabilisticEffects);
      ThenJoined("(:requirements", Then(Front(f), probabilisticEffects && !ignoreProb, ProbabilisticEffects),
                 rewards && !ignoreRewards, Rewards);
      ost := Append(ost, rewards && !ignoreRewards, Rewards);
      ost := ost + ")";
      Closed(ost, Keys(f, ignoreProb, ignoreRewards), false);
      if ost == "(:requirements)" {
        s := "";
      } else {
        s := ost;
      }
    }

    /** The `if`/`else` of `asPDDL`: `:adl`, or one key per single flag set. */
    method PrintFront() returns (ost: string)
      ensures ost == FrontText(Current())
    {
      ost := "(:requirements";
      if strips && typing && negativePreconditions && disjunctivePreconditions
         && equality && existentialPreconditions && universalPreconditions && conditionalEffects {
        ost := Append(ost, true, Key.Adl);
      } else {
        ost := PrintSingles(ost);
      }
    }

    /** The `else` branch of `asPDDL`: one `if` per single flag. */
    method PrintSingles(ost: string) returns (ost': string)
      ensures ost' == SinglesText(ost, Current())
    {
      ost' := Append(ost, strips, Strips);
      ost' := Append(ost', typing, Typing);
      ost' := Append(ost', negativePreconditions, NegativePreconditions);
      ost' := Append(ost', disjunctivePreconditions, DisjunctivePreconditions);
      ost' := Append(ost', equality, Equality);
      ost' := Append(ost', existentialPreconditions, ExistentialPreconditions);
      ost' := Append(ost', universalPreconditions, UniversalPreconditions);
      ost' := Append(ost', conditionalEffects, ConditionalEffects);
      ost' := Append(ost', fluents, Fluents);
    }
  }

  /** One `if (flag) ost << key;` of `asPDDL`. */
  method Append(ost: string, flag: bool, k: Key) returns (ost': string)
    ensures ost' == ThenText(ost, flag, k)
  {
    if flag {
      ost' := ost + " " + PddlName(k);
    } else {
      ost' := ost;
    }
  }
}
