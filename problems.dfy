/** The problem-level tables of the mGPT planner core (`problem_t`).

  Ground atoms are numbered in pairs: an atom gets the next even index and
  its negation is the odd index above it.  Fluents (numeric applications)
  get consecutive indices.  Both tables are static maps keyed by the
  address of the atom or application, which the model takes as an
  abstract key type `K`.  Beside the tables live the problem registry, the
  power-set enumeration of conditional effects, the splitting of
  disjunctive conditions and the completion of a state with negation
  atoms.
*/
module Problems {
  import opened Wrappers
  import opened AtomLists
  import opened AtomStates
  import opened EffectLists

  /** `MAX_ATOMS` of global.h. */
  const MaxAtoms: nat := 16384

  /** `USHORT_MAX` of global.h. */
  const UShortMax: nat := 65535

  /** `a & ~0x1`: the even index of the pair `a` belongs to. */
  function PairBase(a: nat): (b: nat)
    ensures b % 2 == 0 && b <= a && a - b < 2
  {
    a - a % 2
  }

  // ---------------------------------------------------------------------
  // The atom table: atom_hash_, atom_inv_hash_, atom_index_, no_more_atoms_
  // ---------------------------------------------------------------------

  class AtomTable<K(==)> {
    /** `atom_hash_`: the even base index of each atom seen so far. */
    var hash: map<K, nat>
    /** `atom_inv_hash_`: the atom of each even base index. */
    var inv: map<nat, K>
    /** `atom_index_`: the next even index to hand out. */
    var index: nat
    /** `no_more_atoms_`: set once the atom set is frozen. */
    var noMoreAtoms: bool

    /** The two maps are inverse to each other and number the atoms
        0, 2, 4, ... below `index`. */
    ghost predicate Valid()
      reads this
    {
      index % 2 == 0 && index <= MaxAtoms + 2 &&
      (forall k :: k in hash ==> hash[k] in inv && inv[hash[k]] == k) &&
      (forall i :: i in inv ==> i % 2 == 0 && i < index && inv[i] in hash && hash[inv[i]] == i)
    }

    /** The static initialisers, and `clean_all_the_static_data`. */
    constructor ()
      ensures Valid() && hash == map[] && inv == map[] && index == 0 && !noMoreAtoms
    {
      hash, inv, index, noMoreAtoms := map[], map[], 0, false;
    }

    /** `number_atoms()`: twice the number of atoms seen. */
    function NumberAtoms(): (n: nat)
      reads this
      requires Valid()
      ensures n % 2 == 0 && n <= MaxAtoms + 2
    {
      index
    }

    /** `atom_hash_get(atom, negated)`.  A known atom yields its base index,
        plus one when negated.  An unknown one is fatal once the atom set
        is frozen, at `USHORT_MAX`, and above `MAX_ATOMS`; otherwise it gets
        the next even index and the counter advances by two. */
    method AtomHashGet(atom: K, negated: bool) returns (r: Result<nat>)
      requires Valid()
      modifies this
      ensures Valid()
      ensures atom in old(hash) ==>
        r == Ok(old(hash[atom]) + (if negated then 1 else 0)) &&
        hash == old(hash) && inv == old(inv) && index == old(index)
      ensures atom !in old(hash) && (old(noMoreAtoms) || old(index) == UShortMax || old(index) > MaxAtoms) ==>
        r == Err(Die) && hash == old(hash) && inv == old(inv) && index == old(index)
      ensures atom !in old(hash) && !old(noMoreAtoms) && old(index) != UShortMax && old(index) <= MaxAtoms ==>
        r == Ok(old(index) + (if negated then 1 else 0)) &&
        hash == old(hash)[atom := old(index)] && inv == old(inv)[old(index) := atom] &&
        index == old(index) + 2
      ensures noMoreAtoms == old(noMoreAtoms)
    {
      if atom in hash {
        return Ok(hash[atom] + (if negated then 1 else 0));
      }
      if noMoreAtoms || index == UShortMax || index > MaxAtoms {
        return Err(Die);
      }
      // the index is new to the inverse map, so `insert` does store it
      assert index !in inv;
      hash := hash[atom := index];
      inv := inv[index := atom];
      index := index + 2;
      r := Ok(index - 2 + (if negated then 1 else 0));
    }

    /** `atom_inv_hash_get(a)`: the atom whose pair holds `a`, or null. */
    function AtomInvHashGet(a: nat): (r: Option<K>)
      reads this
      requires Valid()
      ensures r.None? <==> PairBase(a) !in hash.Values
      ensures r.Some? ==> r.value in hash && hash[r.value] == PairBase(a)
    {
      if PairBase(a) in inv then Some(inv[PairBase(a)]) else None
    }

    /** `no_more_atoms()`: freezes the atom set. */
    method NoMoreAtoms()
      requires Valid()
      modifies this
      ensures Valid() && noMoreAtoms
      ensures hash == old(hash) && inv == old(inv) && index == old(index)
    {
      noMoreAtoms := true;
    }
  }

  /** Both indices a lookup of a known atom can return, positive and
      negated, lead back to that atom. */
  lemma AtomRoundTrip<K>(t: AtomTable<K>, atom: K)
    requires t.Valid() && atom in t.hash
    ensures t.AtomInvHashGet(t.hash[atom]) == Some(atom)
    ensures t.AtomInvHashGet(t.hash[atom] + 1) == Some(atom)
  {
    var i := t.hash[atom];
    assert i % 2 == 0 by { assert i in t.inv; }
    assert PairBase(i) == i && PairBase(i + 1) == i;
  }

  /** Distinct atoms get distinct pairs of indices. */
  lemma AtomIndicesDistinct<K>(t: AtomTable<K>, x: K, y: K)
    requires t.Valid() && x in t.hash && y in t.hash && x != y
    ensures PairBase(t.hash[x]) != PairBase(t.hash[y])
  {
    assert t.hash[x] in t.inv && t.hash[y] in t.inv;
  }

  // ---------------------------------------------------------------------
  // The fluent table: fluent_hash_, fluent_inv_hash_, fluent_index_
  // ---------------------------------------------------------------------

  /** `fluent_inv_hash_get(f)` as written: it masks the low bit like the
      atom table does, although fluents are numbered consecutively. */
  function FluentInvAsWritten<K>(inv: map<nat, K>, f: nat): (r: Option<K>)
    ensures r.Some? <==> PairBase(f) in inv
  {
    if PairBase(f) in inv then Some(inv[PairBase(f)]) else None
  }

  /** The lookup the consecutive numbering calls for: no masking. */
  function FluentInv<K>(inv: map<nat, K>, f: nat): (r: Option<K>)
    ensures r.Some? <==> f in inv
    ensures r.Some? ==> r.value == inv[f]
  {
    if f in inv then Some(inv[f]) else None
  }

  /** The invariant of the fluent table's state: the counter is the number
      of fluents modulo 2^16; the inverse map holds the indices below that
      number (all of them once it wrapped), each leading back to an
      application numbered with it.  Until the counter wraps the two maps
      are inverse to each other. */
  ghost predicate FluentInvariant<K>(hash: map<K, nat>, inv: map<nat, K>, index: nat, issued: nat) {
    index < 0x10000 && index == issued % 0x10000 &&
    (forall k :: k in hash ==> hash[k] in inv) &&
    (forall i :: i in inv ==> i < 0x10000 && i < issued && inv[i] in hash && hash[inv[i]] == i) &&
    (forall i :: 0 <= i < 0x10000 && i < issued ==> i in inv) &&
    (issued <= 0x10000 ==> forall k :: k in hash ==> inv[hash[k]] == k)
  }

  /** Numbering a new application keeps the invariant; once the counter
      has wrapped, the index it gets already belongs to another one. */
  lemma FluentInsertKeeps<K>(hash: map<K, nat>, inv: map<nat, K>, index: nat, issued: nat, app: K)
    requires FluentInvariant(hash, inv, index, issued) && app !in hash
    ensures FluentInvariant(hash[app := index], if index in inv then inv else inv[index := app],
                            (index + 1) % 0x10000, issued + 1)
    ensures issued >= 0x10000 ==> index in inv && inv[index] != app
  {
    var hash', inv' := hash[app := index], if index in inv then inv else inv[index := app];
    assert (issued + 1) % 0x10000 == (index + 1) % 0x10000;
    forall k | k in hash'
      ensures hash'[k] in inv'
    {
    }
    forall i | i in inv'
      ensures i < 0x10000 && i < issued + 1 && inv'[i] in hash' && hash'[inv'[i]] == i
    {
      if i in inv {
        assert inv[i] != app;
      }
    }
    if issued + 1 <= 0x10000 {
      assert index == issued && index !in inv;
      forall k | k in hash'
        ensures inv'[hash'[k]] == k
      {
        if k != app {
          assert hash[k] in inv && hash[k] < issued;
        }
      }
    }
    if issued >= 0x10000 {
      assert index in inv;
    }
  }

  class FluentTable<K(==)> {
    /** `fluent_hash_`: the index of each application seen so far. */
    var hash: map<K, nat>
    /** `fluent_inv_hash_`: the application of each index. */
    var inv: map<nat, K>
    /** `fluent_index_`: the next index to hand out, an `unsigned short`. */
    var index: nat
    /** The number of applications numbered so far. */
    ghost var issued: nat

    /** The table keeps `FluentInvariant`. */
    ghost predicate Valid()
      reads this
    {
      FluentInvariant(hash, inv, index, issued)
    }

    constructor ()
      ensures Valid() && hash == map[] && inv == map[] && index == 0 && issued == 0
    {
      hash, inv, index := map[], map[], 0;
      issued := 0;
    }

    /** `fluent_hash_get(app)`: the index of a known application, or else
        the counter's value, after which the `unsigned short` counter
        advances by one and wraps to 0 after 65535.  `std::map::insert`
        leaves an existing entry alone, so once the counter has wrapped a
        new application shares an index whose inverse stays the first
        application numbered with it. */
    method FluentHashGet(app: K) returns (f: nat)
      requires Valid()
      modifies this
      ensures Valid()
      ensures app in old(hash) ==>
        f == old(hash[app]) && hash == old(hash) && inv == old(inv) && index == old(index) &&
        issued == old(issued)
      ensures app !in old(hash) ==>
        f == old(index) && hash == old(hash)[app := f] &&
        inv == (if f in old(inv) then old(inv) else old(inv)[f := app]) &&
        index == (old(index) + 1) % 0x10000 && issued == old(issued) + 1
      ensures app !in old(hash) && old(issued) >= 0x10000 ==> f in old(inv) && old(inv)[f] != app
    {
      if app in hash {
        return hash[app];
      }
      FluentInsertKeeps(hash, inv, index, issued, app);
      hash := hash[app := index];
      if index !in inv {
        inv := inv[index := app];
      }
      index := (index + 1) % 0x10000;
      issued := issued + 1;
      // `fluent_index_ - 1`, returned as an `unsigned short`
      f := (index - 1) % 0x10000;
    }

    /** `fluent_inv_hash_get(f)` as written. */
    function FluentInvHashGetAsWritten(f: nat): (r: Option<K>)
      reads this
      requires Valid()
      ensures r.None? <==> PairBase(f) !in hash.Values
      ensures r.Some? ==> r.value in hash && hash[r.value] == PairBase(f)
    {
      FluentInvAsWritten(inv, f)
    }

    /** The corrected `fluent_inv_hash_get(f)`: the application numbered
        `f`, or null. */
    function FluentInvHashGet(f: nat): (r: Option<K>)
      reads this
      requires Valid()
      ensures r.None? <==> f !in hash.Values
      ensures r.Some? ==> r.value in hash && hash[r.value] == f
    {
      FluentInv(inv, f)
    }
  }

  /** The corrected lookup inverts `fluent_hash_get` for every fluent, as
      long as at most 2^16 fluents were numbered. */
  lemma FluentRoundTrip<K>(t: FluentTable<K>, app: K)
    requires t.Valid() && app in t.hash && t.issued <= 0x10000
    ensures t.FluentInvHashGet(t.hash[app]) == Some(app)
  {
    assert t.hash[app] in t.inv;
  }

  /** The first two fluents of a table are numbered 0 and 1, and the
      lookup as written maps index 1 back to the first of them: the second
      fluent can never be recovered.  The corrected lookup recovers it. */
  lemma FluentInverseAsWrittenLosesOdd<K>(x: K, y: K)
    requires x != y
    ensures FluentInvAsWritten(map[0 := x, 1 := y], 1) == Some(x)
    ensures FluentInv(map[0 := x, 1 := y], 1) == Some(y)
  {
    assert PairBase(1) == 0;
  }

  // ---------------------------------------------------------------------
  // The problem registry: problems, find, allocate
  // ---------------------------------------------------------------------

  class ProblemRegistry<P(==)> {
    /** The static `problems` map from names to problems. */
    var problems: map<string, P>
    /** The reference count of each registered problem. */
    var uses: map<string, nat>

    ghost predicate Valid()
      reads this
    {
      problems.Keys == uses.Keys
    }

    constructor ()
      ensures Valid() && problems == map[] && uses == map[]
    {
      problems, uses := map[], map[];
    }

    /** `find(name)`: the registered problem, or null. */
    function Find(name: string): (r: Option<P>)
      reads this
      ensures r.None? <==> name !in problems
      ensures r.Some? ==> r.value == problems[name]
    {
      if name in problems then Some(problems[name]) else None
    }

    /** `allocate(name, ...)`: an existing problem of that name gains a
        use and is returned; otherwise `candidate` (the problem the
        constructor builds) is registered with one use. */
    method Allocate(name: string, candidate: P) returns (p: P)
      requires Valid()
      modifies this
      ensures Valid()
      ensures Find(name) == Some(p)
      ensures name in old(problems) ==>
        p == old(problems[name]) && problems == old(problems) &&
        uses == old(uses)[name := old(uses[name]) + 1]
      ensures name !in old(problems) ==>
        p == candidate && problems == old(problems)[name := candidate] &&
        uses == old(uses)[name := 1]
    {
      var found := Find(name);
      if found.Some? {
        p := found.value;
        uses := uses[name := uses[name] + 1];
      } else {
        p := candidate;
        problems := problems[name := candidate];
        uses := uses[name := 1];
      }
    }
  }

  // ---------------------------------------------------------------------
  // subsets
  // ---------------------------------------------------------------------

  /** The lists `subsets(i, cs, tmp, ...)` appends, in order: every list
      that takes `cs[i]` comes before every list that skips it. */
  function SubsetsFrom<T>(cs: seq<T>, i: nat, tmp: seq<T>): seq<seq<T>>
    requires i <= |cs|
    decreases |cs| - i
  {
    if i == |cs| then [tmp]
    else SubsetsFrom(cs, i + 1, tmp + [cs[i]]) + SubsetsFrom(cs, i + 1, tmp)
  }

  /** `x` is `s` with some members left out, the rest in their order. */
  predicate IsSublist<T(==)>(x: seq<T>, s: seq<T>)
    decreases |s|
  {
    if |x| == 0 then true
    else if |s| == 0 then false
    else (x[0] == s[0] && IsSublist(x[1..], s[1..])) || IsSublist(x, s[1..])
  }

  /** The recursion state of `subsets`: the scratch list `tmp_set` and the
      output list `result`. */
  class SubsetEnumerator<T> {
    var tmp: seq<T>
    var result: seq<seq<T>>

    constructor ()
      ensures tmp == [] && result == []
    {
      tmp, result := [], [];
    }

    /** `subsets(i, cs, tmp_set, result)`: pushes `cs[i]`, recurses, pops
        it and recurses again; at the end of `cs` it appends a copy of
        `tmp_set`. */
    method Subsets(i: nat, cs: seq<T>)
      requires i <= |cs|
      modifies this
      ensures tmp == old(tmp)
      ensures result == old(result) + SubsetsFrom(cs, i, old(tmp))
      decreases |cs| - i
    {
      if i == |cs| {
        result := result + [tmp];
      } else {
        ghost var r0, t0 := result, tmp;
        tmp := tmp + [cs[i]];
        Subsets(i + 1, cs);
        tmp := tmp[..|tmp| - 1];
        assert tmp == t0;
        Subsets(i + 1, cs);
        assert result == r0 + (SubsetsFrom(cs, i + 1, t0 + [cs[i]]) + SubsetsFrom(cs, i + 1, t0));
      }
    }
  }

  /** `2^(n-i)` lists, the one with all of `cs[i..]` first and `tmp`
      alone last. */
  lemma {:induction false} SubsetsShape<T>(cs: seq<T>, i: nat, tmp: seq<T>)
    requires i <= |cs|
    ensures |SubsetsFrom(cs, i, tmp)| == Pow2(|cs| - i)
    ensures SubsetsFrom(cs, i, tmp)[0] == tmp + cs[i..]
    ensures SubsetsFrom(cs, i, tmp)[Pow2(|cs| - i) - 1] == tmp
    decreases |cs| - i
  {
    if i < |cs| {
      SubsetsShape(cs, i + 1, tmp + [cs[i]]);
      SubsetsShape(cs, i + 1, tmp);
      assert (tmp + [cs[i]]) + cs[i + 1..] == tmp + cs[i..];
    }
  }

  /** Every list produced is `tmp` followed by a sub-list of `cs[i..]`. */
  lemma {:induction false} SubsetsSound<T>(cs: seq<T>, i: nat, tmp: seq<T>, y: seq<T>)
    requires i <= |cs| && y in SubsetsFrom(cs, i, tmp)
    ensures |tmp| <= |y| && y[..|tmp|] == tmp && IsSublist(y[|tmp|..], cs[i..])
    decreases |cs| - i
  {
    if i == |cs| {
      assert y == tmp;
      assert y[|tmp|..] == [];
    } else if y in SubsetsFrom(cs, i + 1, tmp + [cs[i]]) {
      var t1 := tmp + [cs[i]];
      SubsetsSound(cs, i + 1, t1, y);
      var x := y[|tmp|..];
      assert x[0] == cs[i];
      assert x[1..] == y[|t1|..];
      assert cs[i..][1..] == cs[i + 1..];
      assert y[..|tmp|] == y[..|t1|][..|tmp|];
    } else {
      assert y in SubsetsFrom(cs, i + 1, tmp);
      SubsetsSound(cs, i + 1, tmp, y);
      var x := y[|tmp|..];
      assert cs[i..][1..] == cs[i + 1..];
      SkipFirst(x, cs[i..]);
    }
  }

  /** A sub-list of the tail is a sub-list of the whole. */
  lemma SkipFirst<T>(x: seq<T>, s: seq<T>)
    requires |s| > 0 && IsSublist(x, s[1..])
    ensures IsSublist(x, s)
  {
  }

  /** Every sub-list of `cs[i..]`, after `tmp`, is produced. */
  lemma {:induction false} SubsetsComplete<T>(cs: seq<T>, i: nat, tmp: seq<T>, x: seq<T>)
    requires i <= |cs| && IsSublist(x, cs[i..])
    ensures tmp + x in SubsetsFrom(cs, i, tmp)
    decreases |cs| - i
  {
    if i == |cs| {
      assert x == [];
      assert tmp + x == tmp;
    } else {
      var s := cs[i..];
      assert s[0] == cs[i] && s[1..] == cs[i + 1..];
      if |x| > 0 && x[0] == s[0] && IsSublist(x[1..], s[1..]) {
        SubsetsComplete(cs, i + 1, tmp + [cs[i]], x[1..]);
        assert (tmp + [cs[i]]) + x[1..] == tmp + x;
      } else {
        SubsetsComplete(cs, i + 1, tmp, x);
      }
    }
  }

  // ---------------------------------------------------------------------
  // removeDisjunctionsFromConditions
  // ---------------------------------------------------------------------

  /** What one conditional effect becomes: itself when its condition has
      a single disjunct, else one copy per disjunct with that disjunct
      alone as the condition. */
  function Pieces(c: CondEffect): seq<CondEffect> {
    if |c.prec| == 1 then [c]
    else seq(|c.prec|, k requires 0 <= k < |c.prec| => CondEffect([c.prec[k]], c.effect))
  }

  /** Each piece keeps the effect and has a single disjunct; a
      condition of `k != 1` disjuncts gives `k` pieces, the `i`-th with the
      `i`-th disjunct. */
  lemma PiecesShape(c: CondEffect)
    ensures |c.prec| == 1 ==> Pieces(c) == [c]
    ensures |c.prec| != 1 ==> |Pieces(c)| == |c.prec|
    ensures forall d :: d in Pieces(c) ==> d.effect == c.effect && |d.prec| == 1
    ensures |c.prec| != 1 ==> forall k :: 0 <= k < |c.prec| ==> Pieces(c)[k].prec == [c.prec[k]]
  {
  }

  /** `conditionalEffectList_t::find`, searched from the back: some member
      of `cs` equals `c`. */
  predicate HasEqual(cs: seq<CondEffect>, c: CondEffect)
    decreases |cs|
  {
    |cs| > 0 && (HasEqual(cs[..|cs| - 1], c) || CondEq(cs[|cs| - 1], c))
  }

  /** A member the search finds. */
  lemma {:induction false} EqualIndex(cs: seq<CondEffect>, c: CondEffect) returns (i: nat)
    requires HasEqual(cs, c)
    ensures i < |cs| && CondEq(cs[i], c)
    decreases |cs|
  {
    var p := cs[..|cs| - 1];
    if CondEq(cs[|cs| - 1], c) {
      i := |cs| - 1;
    } else {
      i := EqualIndex(p, c);
      assert cs[i] == p[i];
    }
  }

  /** The search finds every equal member. */
  lemma {:induction false} IndexHasEqual(cs: seq<CondEffect>, c: CondEffect, i: nat)
    requires i < |cs| && CondEq(cs[i], c)
    ensures HasEqual(cs, c)
    decreases |cs|
  {
    if i < |cs| - 1 {
      var p := cs[..|cs| - 1];
      assert p[i] == cs[i];
      IndexHasEqual(p, c, i);
    }
  }

  /** The search from the back answers `find`. */
  lemma HasEqualIsHasCond(cs: seq<CondEffect>, c: CondEffect)
    ensures HasEqual(cs, c) == HasCond(cs, c)
  {
    if HasEqual(cs, c) {
      var i := EqualIndex(cs, c);
    }
    if HasCond(cs, c) {
      var i :| 0 <= i < |cs| && CondEq(cs[i], c);
      IndexHasEqual(cs, c, i);
    }
  }

  /** `conditionalEffectList_t::insert(c)`: `c` is appended unless an
      equal member is already there. */
  function InsertOne(cs: seq<CondEffect>, c: CondEffect): seq<CondEffect> {
    if HasEqual(cs, c) then cs else cs + [c]
  }

  /** The insertion here is the list's own `insert`. */
  lemma InsertOneIsCondInserted(cs: seq<CondEffect>, c: CondEffect)
    ensures InsertOne(cs, c) == CondInserted(cs, c)
  {
    HasEqualIsHasCond(cs, c);
  }

  /** Inserting `ps` one by one. */
  function InsertEach(acc: seq<CondEffect>, ps: seq<CondEffect>): seq<CondEffect>
    decreases |ps|
  {
    if |ps| == 0 then acc else InsertEach(InsertOne(acc, ps[0]), ps[1..])
  }

  /** `removeDisjunctionsFromConditions(cs)` on the first `n` effects. */
  function RemoveDisjunctionsUpTo(cs: seq<CondEffect>, n: nat): seq<CondEffect>
    requires n <= |cs|
  {
    if n == 0 then [] else InsertEach(RemoveDisjunctionsUpTo(cs, n - 1), Pieces(cs[n - 1]))
  }

  /** `removeDisjunctionsFromConditions(cs)`. */
  function RemoveDisjunctions(cs: seq<CondEffect>): seq<CondEffect> {
    RemoveDisjunctionsUpTo(cs, |cs|)
  }

  /** The inner loop of `removeDisjunctionsFromConditions`: the pieces of
      one effect inserted one by one into `rv` by the list's `insert`. */
  method InsertPieces(rv: seq<CondEffect>, ps: seq<CondEffect>) returns (r: seq<CondEffect>)
    ensures r == InsertEach(rv, ps)
  {
    r := rv;
    var ic := 0;
    while ic < |ps|
      invariant ic <= |ps|
      invariant InsertEach(r, ps[ic..]) == InsertEach(rv, ps)
    {
      assert ps[ic..][1..] == ps[ic + 1..];
      InsertOneIsCondInserted(r, ps[ic]);
      r := CondInserted(r, ps[ic]);
      ic := ic + 1;
    }
  }

  /** `removeDisjunctionsFromConditions(cs)`: for each effect, its pieces
      inserted into `rv`. */
  method RemoveDisjunctionsFromConditions(cs: seq<CondEffect>) returns (rv: seq<CondEffect>)
    ensures rv == RemoveDisjunctions(cs)
  {
    rv := [];
    var ie := 0;
    while ie < |cs|
      invariant ie <= |cs|
      invariant rv == RemoveDisjunctionsUpTo(cs, ie)
    {
      var ps := Pieces(cs[ie]);
      assert RemoveDisjunctionsUpTo(cs, ie + 1) == InsertEach(rv, ps);
      rv := InsertPieces(rv, ps);
      ie := ie + 1;
    }
  }

  /** Inserting adds nothing but the pieces. */
  lemma {:induction false} InsertEachSound(acc: seq<CondEffect>, ps: seq<CondEffect>)
    ensures forall d :: d in InsertEach(acc, ps) ==> d in acc || d in ps
    decreases |ps|
  {
    if |ps| > 0 {
      var acc1 := InsertOne(acc, ps[0]);
      assert forall d :: d in acc1 ==> d in acc || d == ps[0];
      InsertEachSound(acc1, ps[1..]);
      assert forall d :: d in ps[1..] ==> d in ps;
    }
  }

  /** A member equal to `c` stays present while more is appended. */
  lemma HasEqualAppend(acc: seq<CondEffect>, e: CondEffect, c: CondEffect)
    requires HasEqual(acc, c)
    ensures HasEqual(acc + [e], c)
  {
    assert (acc + [e])[..|acc|] == acc;
  }

  /** A member equal to `c` stays present while more pieces are inserted. */
  lemma {:induction false} KeepsHasEqual(acc: seq<CondEffect>, ps: seq<CondEffect>, c: CondEffect)
    requires HasEqual(acc, c)
    ensures HasEqual(InsertEach(acc, ps), c)
    decreases |ps|
  {
    if |ps| > 0 {
      if !HasEqual(acc, ps[0]) {
        HasEqualAppend(acc, ps[0], c);
      }
      KeepsHasEqual(InsertOne(acc, ps[0]), ps[1..], c);
    }
  }

  /** After inserting, every piece has an equal member. */
  lemma {:induction false} InsertEachHas(acc: seq<CondEffect>, ps: seq<CondEffect>, k: nat)
    requires k < |ps|
    ensures HasEqual(InsertEach(acc, ps), ps[k])
    decreases |ps|
  {
    var acc1 := InsertOne(acc, ps[0]);
    if k == 0 {
      if !HasEqual(acc, ps[0]) {
        CondEqReflexive(ps[0]);
        assert (acc + [ps[0]])[..|acc|] == acc;
      }
      KeepsHasEqual(acc1, ps[1..], ps[0]);
    } else {
      InsertEachHas(acc1, ps[1..], k - 1);
    }
  }

  /** A piece of one of the first `n` effects. */
  ghost predicate IsPieceUpTo(cs: seq<CondEffect>, n: nat, d: CondEffect)
    requires n <= |cs|
  {
    exists i :: 0 <= i < n && d in Pieces(cs[i])
  }

  lemma {:induction false} RemoveDisjunctionsSound(cs: seq<CondEffect>, n: nat, d: CondEffect)
    requires n <= |cs| && d in RemoveDisjunctionsUpTo(cs, n)
    ensures IsPieceUpTo(cs, n, d)
  {
    var prev := RemoveDisjunctionsUpTo(cs, n - 1);
    var ps := Pieces(cs[n - 1]);
    InsertEachSound(prev, ps);
    if d in ps {
      assert 0 <= n - 1 < n && d in Pieces(cs[n - 1]);
    } else {
      RemoveDisjunctionsSound(cs, n - 1, d);
      var i :| 0 <= i < n - 1 && d in Pieces(cs[i]);
      assert 0 <= i < n && d in Pieces(cs[i]);
    }
  }

  lemma {:induction false} RemoveDisjunctionsComplete(cs: seq<CondEffect>, n: nat, i: nat, d: CondEffect)
    requires n <= |cs| && i < n && d in Pieces(cs[i])
    ensures HasEqual(RemoveDisjunctionsUpTo(cs, n), d)
  {
    var prev := RemoveDisjunctionsUpTo(cs, n - 1);
    var ps := Pieces(cs[n - 1]);
    if i == n - 1 {
      var k :| 0 <= k < |ps| && ps[k] == d;
      InsertEachHas(prev, ps, k);
    } else {
      RemoveDisjunctionsComplete(cs, n - 1, i, d);
      KeepsHasEqual(prev, ps, d);
    }
  }

  /** Every effect of the result is a piece of an input effect, so its
      condition has exactly one disjunct and its effect is that input's;
      every piece of every input effect has an equal member in the
      result.  An effect whose condition is empty has no pieces, so it
      contributes nothing. */
  lemma RemoveDisjunctionsMeaning(cs: seq<CondEffect>)
    ensures forall d :: d in RemoveDisjunctions(cs) ==> IsPieceUpTo(cs, |cs|, d)
    ensures forall d :: d in RemoveDisjunctions(cs) ==> |d.prec| == 1
    ensures forall i, d :: 0 <= i < |cs| && d in Pieces(cs[i]) ==> HasCond(RemoveDisjunctions(cs), d)
  {
    forall d | d in RemoveDisjunctions(cs)
      ensures IsPieceUpTo(cs, |cs|, d) && |d.prec| == 1
    {
      RemoveDisjunctionsSound(cs, |cs|, d);
      var i :| 0 <= i < |cs| && d in Pieces(cs[i]);
      PiecesShape(cs[i]);
    }
    forall i, d | 0 <= i < |cs| && d in Pieces(cs[i])
      ensures HasCond(RemoveDisjunctions(cs), d)
    {
      RemoveDisjunctionsComplete(cs, |cs|, i, d);
      HasEqualIsHasCond(RemoveDisjunctions(cs), d);
    }
  }

  // ---------------------------------------------------------------------
  // complete_state
  // ---------------------------------------------------------------------

  /** `vs` is `ws` completed below `n`: an atom holds in `vs` when it held
      in `ws`, or when it is odd, its even partner is below `n`, and that
      partner did not hold in `ws`. */
  ghost predicate CompletedBelow(ws: seq<bv32>, vs: seq<bv32>, n: nat) {
    |vs| == |ws| && forall b: nat :: CompletedAt(ws, vs, n, b)
  }

  /** Atom `b` as completion below `n` leaves it. */
  ghost predicate CompletedAt(ws: seq<bv32>, vs: seq<bv32>, n: nat, b: nat) {
    Holds(vs, b) == (Holds(ws, b) || (b % 2 == 1 && b - 1 < n && !Holds(ws, b - 1)))
  }

  /** Completion is determined by the state it starts from. */
  lemma CompletedBelowUnique(ws: seq<bv32>, vs: seq<bv32>, us: seq<bv32>, n: nat)
    requires CompletedBelow(ws, vs, n) && CompletedBelow(ws, us, n)
    ensures vs == us
  {
    forall b: nat ensures Holds(vs, b) == Holds(us, b) {
      assert CompletedAt(ws, vs, n, b);
      assert CompletedAt(ws, us, n, b);
    }
    SameAtomsSameWords(vs, us);
  }

  /** The odd partner of an even atom of a state is in the state too. */
  lemma PartnerInState(atom: nat, words: nat)
    requires atom % 2 == 0 && atom < 32 * words
    ensures atom + 1 < 32 * words
  {
    assert 32 * words == 2 * (16 * words);
  }

  /** `complete_state(state)`, the negation part: with `nprec`, every even
      atom below `number_atoms()` that does not hold gets its odd negation
      atom added; without it the state is left alone. */
  method CompleteState(state: State, nprec: bool, numberAtoms: nat)
    requires state.Valid() && numberAtoms <= 32 * state.data.Length
    modifies state.data
    ensures CompletedBelow(old(state.data[..]), state.data[..], if nprec then numberAtoms else 0)
  {
    ghost var start := state.data[..];
    var atom := 0;
    if nprec {
      while atom < numberAtoms
        invariant atom % 2 == 0 && atom <= numberAtoms + 1
        invariant CompletedBelow(start, state.data[..], atom)
        decreases numberAtoms - atom
      {
        PartnerInState(atom, state.data.Length);
        ghost var prev := state.data[..];
        var h := state.HoldsAtom(atom);
        if !h {
          var _ := state.Add(atom + 1);
        }
        StepCompletes(start, prev, state.data[..], atom, h);
        atom := atom + 2;
      }
    }
    if nprec {
      CompletedBelowOddBound(start, state.data[..], atom, numberAtoms);
    } else {
      forall b: nat ensures CompletedAt(start, state.data[..], 0, b) {
      }
    }
  }

  /** Completing below an even bound is completing below the odd number
      just under it. */
  lemma CompletedBelowOddBound(ws: seq<bv32>, vs: seq<bv32>, m: nat, n: nat)
    requires CompletedBelow(ws, vs, m) && m % 2 == 0 && n <= m <= n + 1
    ensures CompletedBelow(ws, vs, n)
  {
    forall b: nat ensures CompletedAt(ws, vs, n, b) {
      assert CompletedAt(ws, vs, m, b);
    }
  }

  /** One step of the loop of `complete_state` extends the completion by
      the even atom `atom`. */
  lemma StepCompletes(ws: seq<bv32>, prev: seq<bv32>, next: seq<bv32>, atom: nat, held: bool)
    requires atom % 2 == 0 && atom + 1 < 32 * |prev| && CompletedBelow(ws, prev, atom)
    requires held == Holds(prev, atom)
    requires next == if held then prev else Added(prev, atom + 1)
    ensures CompletedBelow(ws, next, atom + 2)
  {
    var n := atom + 2;
    forall b: nat ensures CompletedAt(ws, next, n, b) {
      if !held {
        AddedHolds(prev, atom + 1, b);
      }
      StepCompletesAt(ws, prev, next, atom, held, b);
    }
  }

  /** `StepCompletes` at one atom `b`. */
  lemma StepCompletesAt(ws: seq<bv32>, prev: seq<bv32>, next: seq<bv32>, atom: nat, held: bool, b: nat)
    requires atom % 2 == 0 && CompletedAt(ws, prev, atom, b) && CompletedAt(ws, prev, atom, atom)
    requires held == Holds(prev, atom)
    requires Holds(next, b) == ((!held && b == atom + 1) || Holds(prev, b))
    ensures CompletedAt(ws, next, atom + 2, b)
  {
  }

  /** The completed state makes an atom pair below `n` hold exactly one of
      its two atoms when the negation atom did not hold before. */
  lemma CompletedIsTotal(ws: seq<bv32>, vs: seq<bv32>, n: nat, a: nat)
    requires CompletedBelow(ws, vs, n) && a % 2 == 0 && a < n && !Holds(ws, a + 1)
    ensures Holds(vs, a) != Holds(vs, a + 1)
  {
    assert CompletedAt(ws, vs, n, a);
    assert CompletedAt(ws, vs, n, a + 1);
  }
}
