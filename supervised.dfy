/** The supervised-learning side of ASNets: the replay buffer of teacher
    experience, the teacher's Q-value vectors, the envelope filter and the
    learning-rate schedule check.

    The teacher (a planner answering "what is a best action" or "what are
    the Q-values of these actions") is outside the model: its answers are
    parameters.  A state is reduced to what these operations read of it,
    the enabled flag of every action.
*/
module Supervised {
  import opened Wrappers
  import opened PyOps
  import opened ProbDomMeta
  import Seqs

  // ---------------------------------------------------------------------
  // WeightedReplayBuffer
  // ---------------------------------------------------------------------

  /** `keys` and `counts` are a counter of the elements of `added`: the
      keys are the distinct elements, each counted with its multiplicity. */
  ghost predicate CounterOf<T(!new)>(keys: seq<T>, counts: map<T, nat>, added: multiset<T>) {
    NoDuplicates(keys) &&
    (forall x :: x in counts <==> x in keys) &&
    (forall x :: x in keys <==> x in added) &&
    (forall x :: x in counts ==> counts[x] == added[x])
  }

  /** Counting one more element keeps the counter. */
  lemma CounterAdd<T(!new)>(keys: seq<T>, counts: map<T, nat>, added: multiset<T>, x: T)
    requires CounterOf(keys, counts, added)
    ensures x in counts ==> CounterOf(keys, counts[x := counts[x] + 1], added + multiset{x})
    ensures x !in counts ==> CounterOf(keys + [x], counts[x := 1], added + multiset{x})
  {
    if x !in counts {
      assert NoDuplicates(keys + [x]) by {
        forall a, b | 0 <= a < b < |keys| + 1
          ensures (keys + [x])[a] != (keys + [x])[b]
        {
          if b == |keys| {
            assert keys[a] in keys;
          }
        }
      }
    }
  }

  /** The elements of a sequence, as a set. */
  function KeySet<T>(s: seq<T>): set<T> {
    set x | x in s
  }

  /** The keys after counting `x` once more: the keys so far are `k0`
      followed by the first occurrences in `p` of elements not in `k0`. */
  lemma UpdateKeys<T(!new)>(k0: seq<T>, p: seq<T>, x: T, keys: seq<T>, counts: map<T, nat>, added: multiset<T>)
    requires CounterOf(keys, counts, added)
    requires keys == k0 + DedupFrom(p, KeySet(k0))
    ensures x in counts ==> k0 + DedupFrom(p + [x], KeySet(k0)) == keys
    ensures x !in counts ==> k0 + DedupFrom(p + [x], KeySet(k0)) == keys + [x]
  {
    var seen := KeySet(k0);
    DedupFromSnoc(p, x, seen);
    DedupFromProperties(p, seen);
    assert x in keys <==> x in seen || x in p;
  }

  /** The keys after counting `x`: a new element joins at the end. */
  function Keyed<T>(keys: seq<T>, counts: map<T, nat>, x: T): seq<T> {
    if x in counts then keys else keys + [x]
  }

  /** The multiplicities after counting `x` once more. */
  function Counted<T>(counts: map<T, nat>, x: T): map<T, nat> {
    if x in counts then counts[x := counts[x] + 1] else counts[x := 1]
  }

  /** One element counted by `update`: the counter is kept and the keys are
      those of the longer prefix. */
  lemma CountStep<T(!new)>(k0: seq<T>, p: seq<T>, x: T, keys: seq<T>, counts: map<T, nat>, added: multiset<T>)
    requires CounterOf(keys, counts, added)
    requires keys == k0 + DedupFrom(p, KeySet(k0))
    ensures CounterOf(Keyed(keys, counts, x), Counted(counts, x), added + multiset{x})
    ensures Keyed(keys, counts, x) == k0 + DedupFrom(p + [x], KeySet(k0))
  {
    UpdateKeys(k0, p, x, keys, counts, added);
    CounterAdd(keys, counts, added, x);
  }

  /** The multiplicity of each key, in key order. */
  function CountsOf<T>(keys: seq<T>, counts: map<T, nat>): (r: seq<nat>)
    requires forall i :: 0 <= i < |keys| ==> keys[i] in counts
    ensures |r| == |keys| && forall i :: 0 <= i < |keys| ==> r[i] == counts[keys[i]]
  {
    seq(|keys|, i requires 0 <= i < |keys| => counts[keys[i]])
  }

  /** `WeightedReplayBuffer`: a `Counter` of the elements added so far,
      which lists its keys in insertion order. */
  class ReplayBuffer<T(==,!new)> {
    /** The counter's keys, in insertion order. */
    var keys: seq<T>
    /** The counter's multiplicities. */
    var counts: map<T, nat>
    /** Every element added so far, with multiplicity. */
    ghost var added: multiset<T>

    ghost predicate Valid()
      reads this
    {
      CounterOf(keys, counts, added)
    }

    constructor ()
      ensures Valid() && keys == [] && added == multiset{}
    {
      keys := [];
      counts := map[];
      added := multiset{};
    }

    /** `len(buffer)`: the number of distinct elements. */
    function Len(): nat
      reads this
    {
      |keys|
    }

    /** `update(new_elems)`: every element is counted once more, and the
        new ones join the keys in the order they first appear. */
    method Update(xs: seq<T>)
      requires Valid()
      modifies this
      ensures Valid()
      ensures added == old(added) + multiset(xs)
      ensures keys == old(keys) + DedupFrom(xs, KeySet(old(keys)))
    {
      ghost var k0, a0 := keys, added;
      var ks, cs := keys, counts;
      ghost var ad := added;
      var i := 0;
      while i < |xs|
        invariant 0 <= i <= |xs|
        invariant CounterOf(ks, cs, ad)
        invariant ad == a0 + multiset(xs[..i])
        invariant ks == k0 + DedupFrom(xs[..i], KeySet(k0))
      {
        var x := xs[i];
        CountStep(k0, xs[..i], x, ks, cs, ad);
        Seqs.TakeSnoc(xs, i);
        ks, cs, ad := Keyed(ks, cs, x), Counted(cs, x), ad + multiset{x};
        i := i + 1;
      }
      assert xs[..|xs|] == xs;
      keys, counts, added := ks, cs, ad;
    }

    /** `len` is the number of distinct elements added so far. */
    lemma LenIsDistinctCount()
      requires Valid()
      ensures Len() == |set x | x in added|
    {
      DistinctCard(keys);
      assert (set x | x in keys) == (set x | x in added);
    }

    /** `get_full_dataset()`: the distinct elements and, in parallel, the
        multiplicity of each. */
    function FullDataset(): (r: (seq<T>, seq<nat>))
      requires Valid()
      reads this
      ensures |r.0| == |r.1| && NoDuplicates(r.0)
      ensures forall x :: x in r.0 <==> x in added
      ensures forall i :: 0 <= i < |r.0| ==> r.1[i] == added[r.0[i]]
    {
      assert forall i :: 0 <= i < |keys| ==> keys[i] in keys;
      (keys, CountsOf(keys, counts))
    }
  }

  // ---------------------------------------------------------------------
  // The envelope filter of internal_extend_replay
  // ---------------------------------------------------------------------

  /** What the modelled operations read of a state: each action of the
      problem, in action order, with its enabled flag. */
  datatype CState = CState(actsEnabled: seq<(BoundAction, bool)>)

  /** `sum(p[1] for p in acts_enabled)`. */
  function NumEnabled(acts: seq<(BoundAction, bool)>): nat
    decreases |acts|
  {
    if |acts| == 0 then 0 else (if acts[0].1 then 1 else 0) + NumEnabled(acts[1..])
  }

  /** A teacher state kept for training: more than one action enabled. */
  predicate KeptInEnvelope(p: (CState, BoundAction)) {
    NumEnabled(p.0.actsEnabled) > 1
  }

  /** The loop building `filtered_envelope`: it keeps, in order, the
      pairs whose state has more than one enabled action. */
  method FilterEnvelope(env: seq<(CState, BoundAction)>) returns (filtered: seq<(CState, BoundAction)>)
    ensures filtered == Filter(env, KeptInEnvelope)
    ensures forall p :: p in filtered <==> p in env && NumEnabled(p.0.actsEnabled) > 1
  {
    filtered := [];
    var i := 0;
    while i < |env|
      invariant 0 <= i <= |env|
      invariant filtered == Filter(env[..i], KeptInEnvelope)
    {
      FilterSnoc(env[..i], env[i], KeptInEnvelope);
      var nactions := NumEnabled(env[i].0.actsEnabled);
      if nactions > 1 {
        filtered := filtered + [env[i]];
      }
      assert env[..i + 1] == env[..i] + [env[i]];
      i := i + 1;
    }
    assert env[..|env|] == env;
    FilterMembers(env, KeptInEnvelope);
  }

  /** What `opt_pol_experience` answers for a state: the teacher's
      envelope, or `TeacherTimeout`. */
  datatype TeacherAnswer = Experience(pairs: seq<(CState, BoundAction)>) | TeacherTimeout

  /** The pair `p` comes from state `s`: the teacher answered for `s` and
      `p` is a kept pair of its envelope. */
  predicate FromState(s: CState, teacher: CState -> TeacherAnswer, p: (CState, BoundAction)) {
    teacher(s).Experience? && p in teacher(s).pairs && KeptInEnvelope(p)
  }

  /** The pair `p` comes from some state of the path. */
  predicate FromPath(path: seq<CState>, teacher: CState -> TeacherAnswer, p: (CState, BoundAction)) {
    exists j :: 0 <= j < |path| && FromState(path[j], teacher, p)
  }

  /** The pair `p` comes from some state of some path. */
  predicate FromPaths(paths: seq<seq<CState>>, teacher: CState -> TeacherAnswer, p: (CState, BoundAction)) {
    exists i :: 0 <= i < |paths| && FromPath(paths[i], teacher, p)
  }

  /** The inner loop of `internal_extend_replay` over one path: every state
      the teacher answers for adds the kept pairs of its envelope to the
      set; a state the teacher times out on is skipped. */
  method ExtendFromPath(path: seq<CState>, teacher: CState -> TeacherAnswer, acc: set<(CState, BoundAction)>)
    returns (r: set<(CState, BoundAction)>)
    ensures forall p :: p in r <==> p in acc || FromPath(path, teacher, p)
  {
    r := acc;
    var j := 0;
    while j < |path|
      invariant 0 <= j <= |path|
      invariant forall p :: p in r <==> p in acc || FromPath(path[..j], teacher, p)
    {
      var answer := teacher(path[j]);
      if answer.Experience? {
        var filtered := FilterEnvelope(answer.pairs);
        r := r + set x | x in filtered;
      }
      forall p
        ensures FromPath(path[..j + 1], teacher, p) <==> FromPath(path[..j], teacher, p) || FromState(path[j], teacher, p)
      {
        if FromPath(path[..j + 1], teacher, p) {
          var k :| 0 <= k < j + 1 && FromState(path[..j + 1][k], teacher, p);
          if k < j {
            assert path[..j][k] == path[..j + 1][k];
          }
        }
        if FromPath(path[..j], teacher, p) {
          var k :| 0 <= k < j && FromState(path[..j][k], teacher, p);
          assert path[..j + 1][k] == path[..j][k];
        }
        if FromState(path[j], teacher, p) {
          assert path[..j + 1][j] == path[j];
        }
      }
      j := j + 1;
    }
    assert path[..j] == path;
  }

  /** The two loops of `internal_extend_replay`: `new_pairs` is the set
      of kept envelope pairs of every state of every path, so a pair met
      twice is one element. */
  method CollectNewPairs(paths: seq<seq<CState>>, teacher: CState -> TeacherAnswer)
    returns (newPairs: set<(CState, BoundAction)>)
    ensures forall p :: p in newPairs <==> FromPaths(paths, teacher, p)
  {
    newPairs := {};
    var i := 0;
    while i < |paths|
      invariant 0 <= i <= |paths|
      invariant forall p :: p in newPairs <==> FromPaths(paths[..i], teacher, p)
    {
      newPairs := ExtendFromPath(paths[i], teacher, newPairs);
      forall p
        ensures FromPaths(paths[..i + 1], teacher, p) <==> FromPaths(paths[..i], teacher, p) || FromPath(paths[i], teacher, p)
      {
        if FromPaths(paths[..i + 1], teacher, p) {
          var k :| 0 <= k < i + 1 && FromPath(paths[..i + 1][k], teacher, p);
          if k < i {
            assert paths[..i][k] == paths[..i + 1][k];
          }
        }
        if FromPaths(paths[..i], teacher, p) {
          var k :| 0 <= k < i && FromPath(paths[..i][k], teacher, p);
          assert paths[..i + 1][k] == paths[..i][k];
        }
        if FromPath(paths[i], teacher, p) {
          assert paths[..i + 1][i] == paths[i];
        }
      }
      i := i + 1;
    }
    assert paths[..i] == paths;
  }

  /** Iterating over a set: each element once, in some order. */
  method SetToSeq<T>(s: set<T>) returns (xs: seq<T>)
    ensures multiset(xs) == multiset(s)
  {
    var rest := s;
    xs := [];
    while rest != {}
      invariant rest <= s
      invariant multiset(xs) + multiset(rest) == multiset(s)
      decreases |rest|
    {
      var x :| x in rest;
      assert multiset(rest) == multiset(rest - {x}) + multiset{x};
      xs := xs + [x];
      rest := rest - {x};
    }
  }

  /** `internal_extend_replay` after the rollouts when planning is on:
      every distinct new pair is counted once more in the replay buffer,
      and the keys gain exactly the pairs not counted before. */
  method ExtendReplay(replay: ReplayBuffer<(CState, BoundAction)>, paths: seq<seq<CState>>,
                      teacher: CState -> TeacherAnswer)
    returns (newPairs: set<(CState, BoundAction)>)
    requires replay.Valid()
    modifies replay
    ensures replay.Valid()
    ensures forall p :: p in newPairs <==> FromPaths(paths, teacher, p)
    ensures replay.added == old(replay.added) + multiset(newPairs)
    ensures forall p :: p in replay.keys <==> p in old(replay.keys) || p in newPairs
  {
    newPairs := CollectNewPairs(paths, teacher);
    var xs := SetToSeq(newPairs);
    replay.Update(xs);
    ghost var seen := KeySet(old(replay.keys));
    DedupFromProperties(xs, seen);
    assert forall p :: p in xs <==> p in multiset(xs);
  }

  /** The number of enabled actions counts the enabled flags. */
  lemma {:induction false} NumEnabledCounts(acts: seq<(BoundAction, bool)>)
    ensures NumEnabled(acts) == |EnabledIndices(acts)|
    decreases |acts|
  {
    if |acts| > 0 {
      var init := acts[..|acts| - 1];
      NumEnabledCounts(init);
      NumEnabledSnoc(init, acts[|acts| - 1]);
      assert acts == init + [acts[|acts| - 1]];
      assert forall k :: 0 <= k < |init| ==> init[k] == acts[k];
      assert EnabledIndices(init) == EnabledIndices(acts[..|acts| - 1]);
    }
  }

  lemma {:induction false} NumEnabledSnoc(acts: seq<(BoundAction, bool)>, a: (BoundAction, bool))
    ensures NumEnabled(acts + [a]) == NumEnabled(acts) + (if a.1 then 1 else 0)
    decreases |acts|
  {
    if |acts| > 0 {
      assert (acts + [a])[1..] == acts[1..] + [a];
      NumEnabledSnoc(acts[1..], a);
    } else {
      assert [a][1..] == [];
    }
  }

  // ---------------------------------------------------------------------
  // planner_trace: Q-values from a single best action
  // ---------------------------------------------------------------------

  /** `s.lstrip(cs)`. */
  function StripLeading(s: string, cs: set<char>): string
    decreases |s|
  {
    if |s| > 0 && s[0] in cs then StripLeading(s[1..], cs) else s
  }

  /** `s.rstrip(cs)`. */
  function StripTrailing(s: string, cs: set<char>): string
    decreases |s|
  {
    if |s| > 0 && s[|s| - 1] in cs then StripTrailing(s[..|s| - 1], cs) else s
  }

  /** `s.strip(cs)`. */
  function Strip(s: string, cs: set<char>): string {
    StripTrailing(StripLeading(s, cs), cs)
  }

  /** The characters `strip('()')` removes. */
  const Parens: set<char> := {'(', ')'}

  lemma {:induction false} StripLeadingMeaning(s: string, cs: set<char>) returns (i: nat)
    ensures i <= |s| && StripLeading(s, cs) == s[i..]
    ensures forall k :: 0 <= k < i ==> s[k] in cs
    ensures i < |s| ==> s[i] !in cs
    decreases |s|
  {
    if |s| > 0 && s[0] in cs {
      var j := StripLeadingMeaning(s[1..], cs);
      i := j + 1;
      assert s[1..][j..] == s[i..];
      assert forall k :: 0 < k < i ==> s[k] == s[1..][k - 1];
    } else {
      i := 0;
    }
  }

  lemma {:induction false} StripTrailingMeaning(s: string, cs: set<char>) returns (j: nat)
    ensures j <= |s| && StripTrailing(s, cs) == s[..j]
    ensures forall k :: j <= k < |s| ==> s[k] in cs
    ensures j > 0 ==> s[j - 1] !in cs
    decreases |s|
  {
    if |s| > 0 && s[|s| - 1] in cs {
      j := StripTrailingMeaning(s[..|s| - 1], cs);
      assert s[..|s| - 1][..j] == s[..j];
      assert forall k :: j <= k < |s| - 1 ==> s[k] == s[..|s| - 1][k];
    } else {
      j := |s|;
    }
  }

  /** `strip` cuts a run of characters of `cs` from each end and nothing
      else, so what is left neither starts nor ends with one of them. */
  lemma StripMeaning(s: string, cs: set<char>)
    ensures exists i, j :: (0 <= i <= j <= |s| && Strip(s, cs) == s[i..j] &&
      (forall k :: 0 <= k < i ==> s[k] in cs) && (forall k :: j <= k < |s| ==> s[k] in cs))
    ensures |Strip(s, cs)| > 0 ==>
      Strip(s, cs)[0] !in cs && Strip(s, cs)[|Strip(s, cs)| - 1] !in cs
  {
    var i := StripLeadingMeaning(s, cs);
    var t := s[i..];
    var j := StripTrailingMeaning(t, cs);
    assert t[..j] == s[i..i + j];
    forall k | i + j <= k < |s|
      ensures s[k] in cs
    {
      assert s[k] == t[k - i];
    }
    var r := Strip(s, cs);
    if |r| > 0 {
      assert r[0] == t[0];
    }
  }

  /** The check after `strip('()')` that the action name neither starts
      nor ends with ')' cannot fail. */
  lemma StripParensCheckHolds(raw: string)
    ensures var ident := Strip(raw, Parens);
      |ident| == 0 || (ident[0] != ')' && ident[|ident| - 1] != ')')
  {
    StripMeaning(raw, Parens);
  }

  /** One Q-value per action for a teacher that names a single best
      action: 0 for the actions whose identifier is the name with its
      parentheses stripped, the dead-end value for the others; an
      AssertionError when no action matches. Without a name every action
      gets the dead-end value. */
  method SingleActionQValues(idents: seq<string>, best: Option<string>, deadEnd: real)
    returns (r: Result<seq<real>>)
    ensures best.None? ==> r == Ok(seq(|idents|, _ => deadEnd))
    ensures best.Some? ==> (r.Ok? <==> Strip(best.value, Parens) in idents)
    ensures r.Err? ==> r.failure == AssertionError
    ensures r.Ok? && best.Some? ==>
      |r.value| == |idents| &&
      forall i :: 0 <= i < |idents| ==>
        r.value[i] == (if idents[i] == Strip(best.value, Parens) then 0.0 else deadEnd)
    ensures r.Ok? && best.Some? && deadEnd != 0.0 ==>
      forall i :: 0 <= i < |idents| ==> (r.value[i] == 0.0 <==> idents[i] == Strip(best.value, Parens))
  {
    if best.None? {
      return Ok(seq(|idents|, _ => deadEnd));
    }
    var target := Strip(best.value, Parens);
    var qs: seq<real> := [];
    var found := false;
    var i := 0;
    while i < |idents|
      invariant 0 <= i <= |idents|
      invariant |qs| == i
      invariant forall k :: 0 <= k < i ==> qs[k] == (if idents[k] == target then 0.0 else deadEnd)
      invariant found <==> target in idents[..i]
    {
      if idents[i] == target {
        qs := qs + [0.0];
        found := true;
      } else {
        qs := qs + [deadEnd];
      }
      assert idents[..i + 1] == idents[..i] + [idents[i]];
      i := i + 1;
    }
    assert idents[..|idents|] == idents;
    if !found {
      return Err(AssertionError);
    }
    return Ok(qs);
  }

  // ---------------------------------------------------------------------
  // planner_trace: Q-values for the enabled actions
  // ---------------------------------------------------------------------

  /** The positions of the enabled actions, in order. */
  function EnabledIndices(acts: seq<(BoundAction, bool)>): (r: seq<nat>)
    ensures forall j :: 0 <= j < |r| ==> r[j] < |acts|
    decreases |acts|
  {
    if |acts| == 0 then []
    else
      var init := EnabledIndices(acts[..|acts| - 1]);
      if acts[|acts| - 1].1 then init + [|acts| - 1] else init
  }

  /** `en_act_names`: the names the teacher is asked about. */
  function EnabledNames(acts: seq<(BoundAction, bool)>): (r: seq<string>)
    ensures |r| == |EnabledIndices(acts)|
  {
    var en := EnabledIndices(acts);
    seq(|en|, j requires 0 <= j < |en| => "(" + ActIdent(acts[en[j]].0) + ")")
  }

  /** The enabled positions are exactly the enabled actions, in increasing
      order. */
  lemma {:induction false} EnabledIndicesMeaning(acts: seq<(BoundAction, bool)>)
    ensures forall k :: 0 <= k < |acts| ==> (acts[k].1 <==> k in EnabledIndices(acts))
    ensures forall a, b :: 0 <= a < b < |EnabledIndices(acts)| ==> EnabledIndices(acts)[a] < EnabledIndices(acts)[b]
    decreases |acts|
  {
    if |acts| > 0 {
      var init := acts[..|acts| - 1];
      EnabledIndicesMeaning(init);
      assert forall k :: 0 <= k < |init| ==> init[k] == acts[k];
    }
  }

  /** The Q-values of all actions when the teacher answers `teacherQ` for
      the enabled ones: the dead-end value for disabled actions and the
      teacher's values, in order, for the enabled ones; an AssertionError
      when the teacher's answer has the wrong length. */
  method FullQValues(acts: seq<(BoundAction, bool)>, teacherQ: seq<real>, deadEnd: real)
    returns (r: Result<seq<real>>)
    ensures r.Ok? <==> |teacherQ| == |EnabledIndices(acts)|
    ensures r.Err? ==> r.failure == AssertionError
    ensures r.Ok? ==>
      |r.value| == |acts| &&
      (forall k :: 0 <= k < |acts| && !acts[k].1 ==> r.value[k] == deadEnd) &&
      (forall j :: 0 <= j < |teacherQ| ==> r.value[EnabledIndices(acts)[j]] == teacherQ[j])
  {
    var enIndices := CollectEnabled(acts);
    if |teacherQ| != |enIndices| {
      return Err(AssertionError);
    }
    EnabledIndicesMeaning(acts);
    var q := Scatter(|acts|, enIndices, teacherQ, deadEnd);
    return Ok(q);
  }

  /** The loop collecting `en_indices`. */
  method CollectEnabled(acts: seq<(BoundAction, bool)>) returns (enIndices: seq<nat>)
    ensures enIndices == EnabledIndices(acts)
  {
    enIndices := [];
    var i := 0;
    while i < |acts|
      invariant 0 <= i <= |acts|
      invariant enIndices == EnabledIndices(acts[..i])
    {
      assert acts[..i + 1][..i] == acts[..i];
      if acts[i].1 {
        enIndices := enIndices + [i];
      }
      i := i + 1;
    }
    assert acts[..|acts|] == acts;
  }

  /** The loop writing the teacher's values at the enabled positions of a
      vector filled with the dead-end value. */
  method Scatter(n: nat, enIndices: seq<nat>, teacherQ: seq<real>, deadEnd: real) returns (r: seq<real>)
    requires |teacherQ| == |enIndices|
    requires forall a :: 0 <= a < |enIndices| ==> enIndices[a] < n
    requires forall a, b :: 0 <= a < b < |enIndices| ==> enIndices[a] < enIndices[b]
    ensures |r| == n
    ensures forall a :: 0 <= a < |enIndices| ==> r[enIndices[a]] == teacherQ[a]
    ensures forall k :: 0 <= k < n && k !in enIndices ==> r[k] == deadEnd
  {
    var q := new real[n](_ => deadEnd);
    var j := 0;
    while j < |enIndices|
      invariant 0 <= j <= |enIndices|
      invariant forall a :: 0 <= a < j ==> q[enIndices[a]] == teacherQ[a]
      invariant forall k :: 0 <= k < q.Length && k !in enIndices[..j] ==> q[k] == deadEnd
    {
      assert enIndices[..j + 1] == enIndices[..j] + [enIndices[j]];
      q[enIndices[j]] := teacherQ[j];
      j := j + 1;
    }
    assert enIndices[..j] == enIndices;
    r := q[..];
  }

  /** `tuple(zip(bound_acts_ordered, q_values))`. */
  function ZipActs(acts: seq<BoundAction>, qs: seq<real>): (r: seq<(BoundAction, real)>)
    requires |acts| == |qs|
    ensures |r| == |acts|
  {
    seq(|acts|, i requires 0 <= i < |acts| => (acts[i], qs[i]))
  }

  /** One (state, Q-values) pair of `planner_trace`: the teacher's best
      action `best` in single-action mode, or its Q-values `teacherQ` for
      the enabled actions otherwise; the Q-vector must have one entry per
      action of the problem. */
  method PlannerTraceEntry(pm: ProblemMeta, s: CState, onlyOneGoodAction: bool,
                           best: Option<string>, teacherQ: seq<real>, deadEnd: real)
    returns (r: Result<seq<(BoundAction, real)>>)
    ensures r.Err? ==> r.failure == AssertionError
    ensures onlyOneGoodAction ==>
      (r.Ok? <==> best.None? || Strip(best.value, Parens) in ActIdents(pm.acts))
    ensures !onlyOneGoodAction ==>
      (r.Ok? <==> |teacherQ| == |EnabledIndices(s.actsEnabled)| && |s.actsEnabled| == |pm.acts|)
    ensures r.Ok? ==> |r.value| == |pm.acts| && forall i :: 0 <= i < |pm.acts| ==> r.value[i].0 == pm.acts[i]
    ensures r.Ok? && onlyOneGoodAction ==>
      forall i :: 0 <= i < |pm.acts| ==>
        r.value[i].1 == (if best.Some? && ActIdent(pm.acts[i]) == Strip(best.value, Parens) then 0.0 else deadEnd)
    ensures r.Ok? && !onlyOneGoodAction ==>
      (forall k :: 0 <= k < |pm.acts| && !s.actsEnabled[k].1 ==> r.value[k].1 == deadEnd) &&
      (forall j :: 0 <= j < |teacherQ| ==> r.value[EnabledIndices(s.actsEnabled)[j]].1 == teacherQ[j])
  {
    var q: Result<seq<real>>;
    if onlyOneGoodAction {
      q := SingleActionQValues(ActIdents(pm.acts), best, deadEnd);
    } else {
      q := FullQValues(s.actsEnabled, teacherQ, deadEnd);
    }
    if q.Err? {
      return Err(q.failure);
    }
    if |pm.acts| != |q.value| {
      return Err(AssertionError);
    }
    return Ok(ZipActs(pm.acts, q.value));
  }

  /** `[ba.unique_ident for ba in bound_acts_ordered]`. */
  function ActIdents(acts: seq<BoundAction>): (r: seq<string>)
    ensures |r| == |acts| && forall i :: 0 <= i < |acts| ==> r[i] == ActIdent(acts[i])
  {
    seq(|acts|, i requires 0 <= i < |acts| => ActIdent(acts[i]))
  }

  // ---------------------------------------------------------------------
  // flatten_obs_qvs
  // ---------------------------------------------------------------------

  function PairIdent(p: (BoundAction, real)): string {
    ActIdent(p.0)
  }

  /** `[dict(qv_pairs)[ba] for ba in bound_acts_ordered]`: actions compare
      by identifier, a later pair wins, KeyError for a missing action. */
  function QvList(acts: seq<BoundAction>, pairs: seq<(BoundAction, real)>): Result<seq<real>>
    decreases |acts|
  {
    if |acts| == 0 then Ok([])
    else match LastIndex(pairs, PairIdent, ActIdent(acts[0]))
      case Err(f) => Err(f)
      case Ok(i) =>
        if i >= |pairs| then Err(KeyError)
        else match QvList(acts[1..], pairs)
          case Err(f) => Err(f)
          case Ok(rest) => Ok([pairs[i].1] + rest)
  }

  /** Flattening the pairs `planner_trace` builds gives back its Q-vector,
      in action order. */
  lemma {:induction false} FlattenInvertsZip(pm: ProblemMeta, qs: seq<real>, n: nat)
    requires StrictlySortedBy(pm.acts, ActIdent)
    requires |qs| == |pm.acts| && n <= |pm.acts|
    ensures QvList(pm.acts[n..], ZipActs(pm.acts, qs)) == Ok(qs[n..])
    decreases |pm.acts| - n
  {
    var pairs := ZipActs(pm.acts, qs);
    if n < |pm.acts| {
      assert StrictlySortedBy(pairs, PairIdent) by {
        forall a, b | 0 <= a < b < |pairs|
          ensures StrLess(PairIdent(pairs[a]), PairIdent(pairs[b]))
        {
          assert pairs[a].0 == pm.acts[a] && pairs[b].0 == pm.acts[b];
        }
      }
      LastIndexOfDistinct(pairs, PairIdent, n);
      assert PairIdent(pairs[n]) == ActIdent(pm.acts[n]);
      FlattenInvertsZip(pm, qs, n + 1);
      var rest := pm.acts[n..];
      assert rest[0] == pm.acts[n] && rest[1..] == pm.acts[n + 1..];
      assert pairs[n].1 == qs[n];
      assert qs[n..] == [pairs[n].1] + qs[n + 1..];
      assert LastIndex(pairs, PairIdent, ActIdent(rest[0])) == Ok(n);
      assert QvList(rest[1..], pairs) == Ok(qs[n + 1..]);
      assert QvList(rest, pairs) == Ok([pairs[n].1] + qs[n + 1..]);
    } else {
      assert pm.acts[n..] == [] && qs[n..] == [];
    }
  }

  // ---------------------------------------------------------------------
  // SupervisedTrainer.__init__: the learning-rate schedule and batch size
  // ---------------------------------------------------------------------

  /** A Python number: an `int` or a `float`. */
  datatype PyNum = PyInt(i: int) | PyFloat(f: real)

  function NumValue(n: PyNum): real {
    match n
    case PyInt(i) => i as real
    case PyFloat(f) => f
  }

  /** `<` on (epoch, rate) tuples. */
  predicate StepLess(a: (PyNum, real), b: (PyNum, real)) {
    NumValue(a.0) < NumValue(b.0) || (NumValue(a.0) == NumValue(b.0) && a.1 < b.1)
  }

  /** `a <= b` on (epoch, rate) tuples. */
  predicate StepLeq(a: (PyNum, real), b: (PyNum, real)) {
    !StepLess(b, a)
  }

  predicate StepsSorted(s: seq<(PyNum, real)>) {
    forall a, b :: 0 <= a < b < |s| ==> StepLeq(s[a], s[b])
  }

  /** Every entry of `s` is at least `y`. */
  predicate StepsAbove(y: (PyNum, real), s: seq<(PyNum, real)>) {
    forall k :: 0 <= k < |s| ==> StepLeq(y, s[k])
  }

  function InsertStep(x: (PyNum, real), s: seq<(PyNum, real)>): seq<(PyNum, real)>
    decreases |s|
  {
    if |s| == 0 || StepLeq(x, s[0]) then [x] + s else [s[0]] + InsertStep(x, s[1..])
  }

  /** `sorted(lr_steps)`. */
  function SortSteps(s: seq<(PyNum, real)>): seq<(PyNum, real)>
    decreases |s|
  {
    if |s| == 0 then [] else InsertStep(s[0], SortSteps(s[1..]))
  }

  lemma StepLeqTransitive(a: (PyNum, real), b: (PyNum, real), c: (PyNum, real))
    requires StepLeq(a, b) && StepLeq(b, c)
    ensures StepLeq(a, c)
  {
  }

  lemma SortedCons(y: (PyNum, real), s: seq<(PyNum, real)>)
    requires StepsSorted(s) && StepsAbove(y, s)
    ensures StepsSorted([y] + s)
  {
    var r := [y] + s;
    forall a, b | 0 <= a < b < |r|
      ensures StepLeq(r[a], r[b])
    {
      assert r[b] == s[b - 1];
      if a > 0 {
        assert r[a] == s[a - 1];
      }
    }
  }

  lemma {:induction false} InsertStepAbove(y: (PyNum, real), x: (PyNum, real), s: seq<(PyNum, real)>)
    requires StepsAbove(y, s) && StepLeq(y, x)
    ensures StepsAbove(y, InsertStep(x, s))
    decreases |s|
  {
    if |s| > 0 && !StepLeq(x, s[0]) {
      InsertStepAbove(y, x, s[1..]);
      assert StepsAbove(y, [s[0]] + InsertStep(x, s[1..])) by {
        var t := [s[0]] + InsertStep(x, s[1..]);
        forall k | 0 <= k < |t|
          ensures StepLeq(y, t[k])
        {
          if k > 0 {
            assert t[k] == InsertStep(x, s[1..])[k - 1];
          }
        }
      }
    } else {
      var t := [x] + s;
      assert forall k :: 0 < k < |t| ==> t[k] == s[k - 1];
    }
  }

  lemma {:induction false} InsertStepCorrect(x: (PyNum, real), s: seq<(PyNum, real)>)
    requires StepsSorted(s)
    ensures StepsSorted(InsertStep(x, s))
    ensures multiset(InsertStep(x, s)) == multiset(s) + multiset{x}
    decreases |s|
  {
    assert |s| > 0 ==> s == [s[0]] + s[1..];
    if |s| > 0 && !StepLeq(x, s[0]) {
      InsertStepCorrect(x, s[1..]);
      assert StepsAbove(s[0], s[1..]) by {
        forall k | 0 <= k < |s[1..]|
          ensures StepLeq(s[0], s[1..][k])
        {
          assert s[1..][k] == s[k + 1];
        }
      }
      InsertStepAbove(s[0], x, s[1..]);
      SortedCons(s[0], InsertStep(x, s[1..]));
    } else if |s| > 0 {
      forall k | 0 <= k < |s|
        ensures StepLeq(x, s[k])
      {
        if k > 0 {
          StepLeqTransitive(x, s[0], s[k]);
        }
      }
      SortedCons(x, s);
    }
  }

  lemma {:induction false} SortStepsCorrect(s: seq<(PyNum, real)>)
    ensures StepsSorted(SortSteps(s))
    ensures multiset(SortSteps(s)) == multiset(s)
    decreases |s|
  {
    if |s| > 0 {
      SortStepsCorrect(s[1..]);
      InsertStepCorrect(s[0], SortSteps(s[1..]));
      assert s == [s[0]] + s[1..];
    }
  }

  /** What each step must satisfy: an `int` epoch that is not negative
      and a positive rate. */
  predicate StepOk(st: (PyNum, real)) {
    st.0.PyInt? && st.0.i >= 0 && st.1 > 0.0
  }

  predicate AllStepsOk(s: seq<(PyNum, real)>) {
    forall k :: 0 <= k < |s| ==> StepOk(s[k])
  }

  /** `[(0, lr)] + sorted(lr_steps)` and the assertions on every entry. */
  function LrSteps(lr: real, steps: seq<(PyNum, real)>): Result<seq<(PyNum, real)>> {
    var all := [(PyInt(0), lr)] + SortSteps(steps);
    if AllStepsOk(all) then Ok(all) else Err(AssertionError)
  }

  lemma AllStepsOkCons(x: (PyNum, real), s: seq<(PyNum, real)>)
    ensures AllStepsOk([x] + s) <==> StepOk(x) && AllStepsOk(s)
  {
    var t := [x] + s;
    assert forall k :: 0 < k < |t| ==> t[k] == s[k - 1];
    if StepOk(x) && AllStepsOk(s) {
      forall k | 0 < k < |t|
        ensures StepOk(t[k])
      {
        assert t[k] == s[k - 1];
      }
    }
    if AllStepsOk(t) {
      assert StepOk(t[0]);
      forall k | 0 <= k < |s|
        ensures StepOk(s[k])
      {
        assert s[k] == t[k + 1];
      }
    }
  }

  lemma AllStepsOkPermutation(a: seq<(PyNum, real)>, b: seq<(PyNum, real)>)
    requires multiset(a) == multiset(b)
    ensures AllStepsOk(a) ==> AllStepsOk(b)
  {
    if AllStepsOk(a) {
      forall k | 0 <= k < |b|
        ensures StepOk(b[k])
      {
        assert b[k] in multiset(a);
        var m :| 0 <= m < |a| && a[m] == b[k];
      }
    }
  }

  /** The schedule is accepted exactly when the initial rate is positive
      and every step has a non-negative `int` epoch and a positive rate;
      it then starts at epoch 0 with the initial rate, followed by the steps
      in sorted order. */
  lemma LrStepsMeaning(lr: real, steps: seq<(PyNum, real)>)
    ensures LrSteps(lr, steps).Ok? <==> lr > 0.0 && AllStepsOk(steps)
    ensures LrSteps(lr, steps).Err? ==> LrSteps(lr, steps).failure == AssertionError
    ensures LrSteps(lr, steps).Ok? ==>
      var r := LrSteps(lr, steps).value;
      |r| == |steps| + 1 && r[0] == (PyInt(0), lr) &&
      StepsSorted(r[1..]) && multiset(r[1..]) == multiset(steps)
  {
    var sorted := SortSteps(steps);
    SortStepsCorrect(steps);
    var all := [(PyInt(0), lr)] + sorted;
    assert all[1..] == sorted;
    assert |sorted| == |steps| by {
      assert |multiset(sorted)| == |multiset(steps)|;
    }
    AllStepsOkCons((PyInt(0), lr), sorted);
    AllStepsOkPermutation(sorted, steps);
    AllStepsOkPermutation(steps, sorted);
  }

  /** `max(batch_size // len(problems), 1)`; ZeroDivisionError without
      problems. */
  function BatchSizePerProblem(batchSize: int, numProblems: nat): Result<int> {
    if numProblems == 0 then Err(ZeroDivisionError)
    else var q := batchSize / numProblems; Ok(if q > 1 then q else 1)
  }

  /** The per-problem batch is at least 1, and otherwise the floor of the
      batch size shared among the problems. */
  lemma BatchSizePerProblemMeaning(batchSize: int, numProblems: nat)
    ensures BatchSizePerProblem(batchSize, numProblems).Err? <==> numProblems == 0
    ensures BatchSizePerProblem(batchSize, numProblems).Ok? ==>
      var b := BatchSizePerProblem(batchSize, numProblems).value;
      b >= 1 &&
      (batchSize < numProblems ==> b == 1) &&
      (batchSize >= numProblems ==> b * numProblems <= batchSize < (b + 1) * numProblems)
  {
    if numProblems > 0 {
      var q := batchSize / numProblems;
      assert batchSize == q * numProblems + batchSize % numProblems;
      if batchSize >= numProblems {
        assert q >= 1;
      } else if batchSize >= 0 {
        assert q == 0;
      } else {
        assert q < 0;
      }
    }
  }
}
