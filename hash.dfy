/** The chained hash tables of `hash.h` and `hash.cc`: `hash_t`, which
    keeps a value per state with the heuristic as the default, and
    `stateHash_t`, which keeps a set of states.

    Both are a table of `dimension_` bucket chains. A chain is modelled as
    the sequence of its entries from the head along `next_`, so prepending
    an entry is `[e] + chain`, and a pointer to an entry is its position in
    its chain. The bucket counters `number_` and the entry count `size_`
    are kept beside the chains as in the source. The digest behind
    `state_t::hash_value` is an abstract function `hashOf` of each table.
    The static cache of `prime`, shared by every table, is the `PrimeTable`
    handed to the constructors and to rehashing.
*/
module Hashing {
  import opened Wrappers
  import opened Primes

  /** An entry of a chain: its state and what the table keeps for it (the
      value of `hashEntry_t`; nothing for `stateHashEntry_t`). */
  datatype Entry<S, D> = Entry(state: S, data: D)

  // ---------------------------------------------------------------------
  // Chains and tables as values
  // ---------------------------------------------------------------------

  /** The entries of every bucket in turn, each bucket from its head. */
  function Concat<E>(bs: seq<seq<E>>): seq<E> {
    if |bs| == 0 then [] else bs[0] + Concat(bs[1..])
  }

  lemma {:induction false} ConcatAppend<E>(bs: seq<seq<E>>, cs: seq<seq<E>>)
    ensures Concat(bs + cs) == Concat(bs) + Concat(cs)
    decreases |bs|
  {
    if |bs| == 0 {
      assert bs + cs == cs;
    } else {
      assert (bs + cs)[1..] == bs[1..] + cs;
      ConcatAppend(bs[1..], cs);
    }
  }

  /** The entries up to and including bucket `i`. */
  lemma ConcatSnoc<E>(bs: seq<seq<E>>, i: nat)
    requires i < |bs|
    ensures Concat(bs[..i + 1]) == Concat(bs[..i]) + bs[i]
  {
    assert bs[..i + 1] == bs[..i] + [bs[i]];
    ConcatAppend(bs[..i], [bs[i]]);
    assert [bs[i]][1..] == [];
  }

  /** The table splits around bucket `i`. */
  lemma ConcatSplit<E>(bs: seq<seq<E>>, i: nat)
    requires i < |bs|
    ensures Concat(bs) == Concat(bs[..i]) + bs[i] + Concat(bs[i + 1..])
  {
    assert bs == bs[..i + 1] + bs[i + 1..];
    ConcatAppend(bs[..i + 1], bs[i + 1..]);
    ConcatSnoc(bs, i);
  }

  /** Replacing bucket `i` replaces its entries in the multiset of all
      entries. */
  lemma ConcatUpdate<E>(bs: seq<seq<E>>, i: nat, x: seq<E>)
    requires i < |bs|
    ensures multiset(Concat(bs[i := x])) == multiset(Concat(bs)) - multiset(bs[i]) + multiset(x)
    ensures |Concat(bs[i := x])| == |Concat(bs)| - |bs[i]| + |x|
  {
    var cs := bs[i := x];
    ConcatSplit(bs, i);
    ConcatSplit(cs, i);
    assert cs[..i] == bs[..i];
    assert cs[i + 1..] == bs[i + 1..];
  }

  /** An entry is in the table exactly when it is in one of its buckets. */
  lemma {:induction false} ConcatMember<E>(bs: seq<seq<E>>, x: E)
    ensures x in Concat(bs) <==> exists i :: 0 <= i < |bs| && x in bs[i]
    decreases |bs|
  {
    if |bs| > 0 {
      ConcatMember(bs[1..], x);
      if x in Concat(bs[1..]) {
        var i :| 0 <= i < |bs[1..]| && x in bs[1..][i];
        assert x in bs[i + 1];
      }
      forall i | 0 < i < |bs| && x in bs[i]
        ensures x in Concat(bs[1..])
      {
        assert bs[1..][i - 1] == bs[i];
      }
    }
  }

  /** A table of empty buckets has no entries. */
  lemma {:induction false} ConcatEmpty<E>(bs: seq<seq<E>>)
    requires forall i :: 0 <= i < |bs| ==> bs[i] == []
    ensures Concat(bs) == []
    decreases |bs|
  {
    if |bs| > 0 {
      ConcatEmpty(bs[1..]);
    }
  }

  /** The entries of bucket `i` sit in `Concat` right after those of the
      earlier buckets. */
  lemma ConcatIndex<E>(bs: seq<seq<E>>, i: nat, k: nat)
    requires i < |bs| && k < |bs[i]|
    ensures |Concat(bs[..i])| + k < |Concat(bs)|
    ensures Concat(bs)[|Concat(bs[..i])| + k] == bs[i][k]
  {
    ConcatSplit(bs, i);
  }

  /** The earlier buckets hold no more entries than the whole table. */
  lemma ConcatPrefixShorter<E>(bs: seq<seq<E>>, i: nat)
    requires i <= |bs|
    ensures |Concat(bs[..i])| <= |Concat(bs)|
    ensures i < |bs| ==> |Concat(bs[..i])| + |bs[i]| <= |Concat(bs)|
  {
    if i < |bs| {
      ConcatSplit(bs, i);
    } else {
      assert bs[..i] == bs;
    }
  }

  /** The chain holds an entry for `s`. */
  predicate HasState<S(==), D>(chain: seq<Entry<S, D>>, s: S) {
    exists k :: 0 <= k < |chain| && chain[k].state == s
  }

  /** The first entry for `s` along the chain, as `find` walks it. */
  function FirstWith<S(==), D>(chain: seq<Entry<S, D>>, s: S): (r: Option<nat>)
    ensures r.Some? ==> r.value < |chain| && chain[r.value].state == s
    ensures r.Some? ==> forall k :: 0 <= k < r.value ==> chain[k].state != s
    ensures r.None? <==> !HasState(chain, s)
  {
    if |chain| == 0 then None
    else if chain[0].state == s then Some(0)
    else
      var r := FirstWith(chain[1..], s);
      assert forall k :: 0 < k < |chain| ==> chain[k] == chain[1..][k - 1];
      if r.None? then None else Some(r.value + 1)
  }

  /** Prepending an entry for another state moves the first entry for `s`
      one place down. */
  lemma FirstWithPrepend<S, D>(chain: seq<Entry<S, D>>, e: Entry<S, D>, s: S)
    requires e.state != s
    ensures FirstWith([e] + chain, s) == if FirstWith(chain, s).None? then None else Some(FirstWith(chain, s).value + 1)
  {
    assert ([e] + chain)[1..] == chain;
  }

  /** Changing the data at the first entry for `t` keeps the first entry of
      every state where it was. */
  lemma FirstWithSetData<S, D>(chain: seq<Entry<S, D>>, k: nat, d: D, s: S)
    requires k < |chain|
    ensures FirstWith(chain[k := Entry(chain[k].state, d)], s) == FirstWith(chain, s)
  {
    var chain' := chain[k := Entry(chain[k].state, d)];
    assert forall j :: 0 <= j < |chain| ==> chain'[j].state == chain[j].state;
    var r, r' := FirstWith(chain, s), FirstWith(chain', s);
    if r.Some? && r'.Some? {
      assert !(r.value < r'.value) && !(r'.value < r.value);
    }
  }

  /** Every entry sits in the bucket its state hashes to, modulo the
      number of buckets. */
  predicate InBuckets<S, D>(bs: seq<seq<Entry<S, D>>>, hashOf: S -> nat) {
    forall i, k :: 0 <= i < |bs| && 0 <= k < |bs[i]| ==> hashOf(bs[i][k].state) % |bs| == i
  }

  /** `number_[i]` is the length of chain `i`. */
  predicate Counted<E>(bs: seq<seq<E>>, ns: seq<nat>) {
    |ns| == |bs| && forall i :: 0 <= i < |bs| ==> ns[i] == |bs[i]|
  }

  /** Prepending an entry to the bucket of its state keeps every entry in
      its bucket and every counter right, and adds the entry to the
      table. */
  lemma PrependKeeps<S, D>(bs: seq<seq<Entry<S, D>>>, ns: seq<nat>, hashOf: S -> nat, e: Entry<S, D>, b: nat)
    requires InBuckets(bs, hashOf) && Counted(bs, ns)
    requires b < |bs| && b == hashOf(e.state) % |bs|
    ensures InBuckets(bs[b := [e] + bs[b]], hashOf)
    ensures Counted(bs[b := [e] + bs[b]], ns[b := ns[b] + 1])
    ensures multiset(Concat(bs[b := [e] + bs[b]])) == multiset(Concat(bs)) + multiset{e}
    ensures |Concat(bs[b := [e] + bs[b]])| == |Concat(bs)| + 1
  {
    PrependInBuckets(bs, hashOf, e, b);
    ConcatUpdate(bs, b, [e] + bs[b]);
    assert multiset([e] + bs[b]) == multiset{e} + multiset(bs[b]);
  }

  lemma PrependInBuckets<S, D>(bs: seq<seq<Entry<S, D>>>, hashOf: S -> nat, e: Entry<S, D>, b: nat)
    requires InBuckets(bs, hashOf)
    requires b < |bs| && b == hashOf(e.state) % |bs|
    ensures InBuckets(bs[b := [e] + bs[b]], hashOf)
  {
    var cs: seq<seq<Entry<S, D>>> := bs[b := [e] + bs[b]];
    forall i, k | 0 <= i < |cs| && 0 <= k < |cs[i]|
      ensures hashOf(cs[i][k].state) % |cs| == i
    {
      if i == b && k > 0 {
        assert cs[i][k] == bs[b][k - 1];
      }
    }
  }

  /** Changing the data of one entry keeps every state in its bucket and
      every counter right. */
  lemma SetDataKeeps<S, D>(bs: seq<seq<Entry<S, D>>>, ns: seq<nat>, hashOf: S -> nat, b: nat, k: nat, d: D)
    requires InBuckets(bs, hashOf) && Counted(bs, ns)
    requires b < |bs| && k < |bs[b]|
    ensures InBuckets(bs[b := bs[b][k := Entry(bs[b][k].state, d)]], hashOf)
    ensures Counted(bs[b := bs[b][k := Entry(bs[b][k].state, d)]], ns)
    ensures |Concat(bs[b := bs[b][k := Entry(bs[b][k].state, d)]])| == |Concat(bs)|
  {
    var x := bs[b][k := Entry(bs[b][k].state, d)];
    var cs: seq<seq<Entry<S, D>>> := bs[b := x];
    forall i, j | 0 <= i < |cs| && 0 <= j < |cs[i]|
      ensures hashOf(cs[i][j].state) % |cs| == i
    {
      assert cs[i][j].state == bs[i][j].state;
    }
    ConcatUpdate(bs, b, x);
  }

  /** A state is in the table exactly when it is in the bucket it hashes
      to: looking in one bucket is enough. */
  lemma StateInItsBucket<S, D>(bs: seq<seq<Entry<S, D>>>, hashOf: S -> nat, s: S)
    requires InBuckets(bs, hashOf) && |bs| > 0
    ensures HasState(Concat(bs), s) <==> HasState(bs[hashOf(s) % |bs|], s)
  {
    var b := hashOf(s) % |bs|;
    if HasState(Concat(bs), s) {
      var j :| 0 <= j < |Concat(bs)| && Concat(bs)[j].state == s;
      var e := Concat(bs)[j];
      ConcatMember(bs, e);
      var i :| 0 <= i < |bs| && e in bs[i];
      var k :| 0 <= k < |bs[i]| && bs[i][k] == e;
      assert i == b;
    }
    if HasState(bs[b], s) {
      var k :| 0 <= k < |bs[b]| && bs[b][k].state == s;
      ConcatIndex(bs, b, k);
    }
  }

  // ---------------------------------------------------------------------
  // Iteration
  // ---------------------------------------------------------------------

  /** A `const_iterator`: the entry it points at, as a position in chain
      `idx` (`ptr_`, or `None` for null), and the bucket `idx_`. */
  datatype Cursor = Cursor(ptr: Option<nat>, idx: nat)

  /** The bucket scan of the iterator: the head of the first non-empty
      bucket from `i` on, or a null pointer with the index at the number
      of buckets. */
  function SeekFrom<E>(bs: seq<seq<E>>, i: nat): Cursor
    requires i <= |bs|
    decreases |bs| - i
  {
    if i == |bs| then Cursor(None, |bs|)
    else if |bs[i]| > 0 then Cursor(Some(0), i)
    else SeekFrom(bs, i + 1)
  }

  /** `begin()`: the iterator built with `pos == 0`. */
  function BeginCursor<E>(bs: seq<seq<E>>): Cursor {
    SeekFrom(bs, 0)
  }

  /** `operator++`: along the chain, then on to the next non-empty bucket;
      a null iterator stays where it is. */
  function Next<E>(bs: seq<seq<E>>, c: Cursor): Cursor {
    if c.ptr.None? then c
    else if c.idx < |bs| && c.ptr.value + 1 < |bs[c.idx]| then Cursor(Some(c.ptr.value + 1), c.idx)
    else if c.idx < |bs| then SeekFrom(bs, c.idx + 1)
    else EndCursor(bs)
  }

  /** `operator*`: the entry the iterator points at, if any. */
  function Current<E>(bs: seq<seq<E>>, c: Cursor): Option<E> {
    if c.ptr.Some? && c.idx < |bs| && c.ptr.value < |bs[c.idx]| then Some(bs[c.idx][c.ptr.value]) else None
  }

  /** `stateHash_t::end()`: the iterator built with `pos != 0`, a null
      pointer at the number of buckets. */
  function EndCursor<E>(bs: seq<seq<E>>): Cursor {
    Cursor(None, |bs|)
  }

  /** `hash_t::end()` as written: its constructor has no `else` branch, so
      the iterator built with `pos != 0` keeps the index 0. */
  const HashEndAsWritten: Cursor := Cursor(None, 0)

  /** The cursor `c` is at entry `p` of `Concat(bs)`, or is the end cursor
      when `p` is past the last entry. */
  ghost predicate AtPosition<E>(bs: seq<seq<E>>, c: Cursor, p: nat) {
    if p < |Concat(bs)| then
      c.ptr.Some? && c.idx < |bs| && c.ptr.value < |bs[c.idx]| && |Concat(bs[..c.idx])| + c.ptr.value == p
    else
      c == EndCursor(bs)
  }

  /** Scanning from bucket `i` reaches the first entry after the earlier
      buckets. */
  lemma {:induction false} SeekFromPosition<E>(bs: seq<seq<E>>, i: nat)
    requires i <= |bs|
    ensures AtPosition(bs, SeekFrom(bs, i), |Concat(bs[..i])|)
    decreases |bs| - i
  {
    ConcatPrefixShorter(bs, i);
    if i == |bs| {
      assert bs[..i] == bs;
    } else {
      if |bs[i]| == 0 {
        ConcatSnoc(bs, i);
        SeekFromPosition(bs, i + 1);
      }
    }
  }

  /** A step moves a cursor from one entry to the next, in the order of
      `Concat`, and the cursor points at that entry. */
  lemma NextPosition<E>(bs: seq<seq<E>>, c: Cursor, p: nat)
    requires AtPosition(bs, c, p)
    ensures AtPosition(bs, Next(bs, c), if p < |Concat(bs)| then p + 1 else p)
    ensures p < |Concat(bs)| ==> Current(bs, c) == Some(Concat(bs)[p])
    ensures p >= |Concat(bs)| ==> Current(bs, c) == None
  {
    if p < |Concat(bs)| {
      var i, k := c.idx, c.ptr.value;
      ConcatIndex(bs, i, k);
      if k + 1 < |bs[i]| {
        ConcatIndex(bs, i, k + 1);
      } else {
        ConcatSnoc(bs, i);
        SeekFromPosition(bs, i + 1);
      }
    }
  }

  /** The iterator after `k` steps from `begin()`. */
  function IterateN<E>(bs: seq<seq<E>>, k: nat): Cursor {
    if k == 0 then BeginCursor(bs) else Next(bs, IterateN(bs, k - 1))
  }

  /** After `k` steps the iterator is at entry `k`, or at the end once
      every entry has been visited. */
  lemma {:induction false} IterateNPosition<E>(bs: seq<seq<E>>, k: nat)
    ensures AtPosition(bs, IterateN(bs, k), if k < |Concat(bs)| then k else |Concat(bs)|)
    decreases k
  {
    if k == 0 {
      SeekFromPosition(bs, 0);
      assert bs[..0] == [];
    } else {
      IterateNPosition(bs, k - 1);
      NextPosition(bs, IterateN(bs, k - 1), if k - 1 < |Concat(bs)| then k - 1 else |Concat(bs)|);
    }
  }

  /** With the end iterator of `stateHash_t`, a loop from `begin()` to
      `end()` visits every entry of every bucket exactly once, in the order
      of `Concat`: the `k`-th step is at entry `k`, and the end is reached
      exactly after the last one. */
  lemma IterationVisitsEach<E>(bs: seq<seq<E>>, k: nat)
    ensures k < |Concat(bs)| ==> IterateN(bs, k) != EndCursor(bs) && Current(bs, IterateN(bs, k)) == Some(Concat(bs)[k])
    ensures k >= |Concat(bs)| ==> IterateN(bs, k) == EndCursor(bs)
  {
    IterateNPosition(bs, k);
    if k < |Concat(bs)| {
      NextPosition(bs, IterateN(bs, k), k);
    }
  }

  /** With the end iterator of `hash_t` as written, the loop from `begin()`
      never stops on a table with at least one bucket: once past the last
      entry the iterator stays null at the number of buckets, never at
      index 0. */
  lemma HashEndNeverReached<E>(bs: seq<seq<E>>, k: nat)
    requires |bs| > 0
    ensures IterateN(bs, k) != HashEndAsWritten
    ensures k >= |Concat(bs)| ==> Current(bs, IterateN(bs, k)) == None
  {
    IterateNPosition(bs, k);
  }

  // ---------------------------------------------------------------------
  // Values looked up in a table
  // ---------------------------------------------------------------------

  /** The value `hash_t::value(s) const` reads from the chains `bs`: the
      data of the first entry for `s` in its bucket, or else the
      heuristic. */
  function Lookup<S(==)>(bs: seq<seq<Entry<S, real>>>, hashOf: S -> nat, heuristic: S -> real, s: S): real
    requires |bs| > 0
  {
    var chain := bs[hashOf(s) % |bs|];
    match FirstWith(chain, s)
    case Some(k) => chain[k].data
    case None => heuristic(s)
  }

  /** After prepending an entry, its state reads the entry's data and
      every other state reads what it read before. */
  lemma LookupAfterPrepend<S>(bs: seq<seq<Entry<S, real>>>, hashOf: S -> nat, heuristic: S -> real, e: Entry<S, real>)
    requires |bs| > 0
    ensures var b := hashOf(e.state) % |bs|;
      forall t :: Lookup(bs[b := [e] + bs[b]], hashOf, heuristic, t) == if t == e.state then e.data else Lookup(bs, hashOf, heuristic, t)
  {
    var b := hashOf(e.state) % |bs|;
    var cs := bs[b := [e] + bs[b]];
    forall t
      ensures Lookup(cs, hashOf, heuristic, t) == if t == e.state then e.data else Lookup(bs, hashOf, heuristic, t)
    {
      if t != e.state && hashOf(t) % |bs| == b {
        FirstWithPrepend(bs[b], e, t);
        if FirstWith(bs[b], t).Some? {
          assert ([e] + bs[b])[FirstWith(bs[b], t).value + 1] == bs[b][FirstWith(bs[b], t).value];
        }
      }
    }
  }

  /** After changing the data of the first entry for `s`, `s` reads the new
      data and every other state reads what it read before. */
  lemma LookupAfterSetData<S>(bs: seq<seq<Entry<S, real>>>, hashOf: S -> nat, heuristic: S -> real, s: S, d: real)
    requires |bs| > 0
    requires FirstWith(bs[hashOf(s) % |bs|], s).Some?
    ensures var b := hashOf(s) % |bs|;
      var k := FirstWith(bs[b], s).value;
      forall t :: Lookup(bs[b := bs[b][k := Entry(bs[b][k].state, d)]], hashOf, heuristic, t) ==
        if t == s then d else Lookup(bs, hashOf, heuristic, t)
  {
    var b := hashOf(s) % |bs|;
    var k := FirstWith(bs[b], s).value;
    var cs := bs[b := bs[b][k := Entry(bs[b][k].state, d)]];
    forall t
      ensures Lookup(cs, hashOf, heuristic, t) == if t == s then d else Lookup(bs, hashOf, heuristic, t)
    {
      if hashOf(t) % |bs| == b {
        FirstWithSetData(bs[b], k, d, t);
      }
    }
  }

  /** `GPTMIN`. */
  function Min(a: real, b: real): (m: real)
    ensures m <= a && m <= b && (m == a || m == b)
  {
    if a <= b then a else b
  }

  // ---------------------------------------------------------------------
  // The chained table
  // ---------------------------------------------------------------------

  /** The chains of `stateHash_t` and of `hash_t`: `dimension_` buckets
      `table_`, their counters `number_` and the entry count `size_`. A
      `stateHash_t` is a `ChainedTable<S, ()>`. */
  class ChainedTable<S(==,!new), D> {
    /** `state_t::hash_value`. */
    const hashOf: S -> nat
    var dimension: nat
    var table: array<seq<Entry<S, D>>>
    var number: array<nat>
    var size: nat

    /** The dimension is a prime and sizes both arrays; every entry is in
        the bucket of its state; the counters and the size are right. */
    ghost predicate Valid()
      reads this, table, number
    {
      && IsPrime(dimension)
      && table.Length == dimension && number.Length == dimension
      && InBuckets(table[..], hashOf)
      && Counted(table[..], number[..])
      && size == |Concat(table[..])|
    }

    /** The entries, in the order of the iterators. */
    ghost function Entries(): seq<Entry<S, D>>
      reads this, table
    {
      Concat(table[..])
    }

    /** `hash_value(s)`: the bucket of `s`. */
    function HashValue(s: S): (b: nat)
      reads this
      requires dimension > 0
      ensures b < dimension && b == hashOf(s) % dimension
    {
      hashOf(s) % dimension
    }

    /** The constructor: `prime(dimension)` buckets, all empty. */
    constructor (primes: PrimeTable, dim: nat, hashOf: S -> nat)
      requires primes.Valid()
      modifies primes, primes.buf
      ensures Valid() && primes.Valid()
      ensures PrimeOutcome(old(primes.Snapshot()), primes.Snapshot(), dim, dimension)
      ensures this.hashOf == hashOf && size == 0 && Entries() == []
      ensures forall i :: 0 <= i < dimension ==> table[i] == [] && number[i] == 0
      ensures fresh(table) && fresh(number)
    {
      var d := primes.Prime(dim);
      this.hashOf := hashOf;
      dimension := d;
      table := new seq<Entry<S, D>>[d](_ => []);
      number := new nat[d](_ => 0);
      size := 0;
      new;
      ConcatEmpty(table[..]);
    }

    /** `find(s)`: the position of the first entry for `s` in its bucket,
        or `None`; there is one exactly when `s` is anywhere in the
        table. */
    method Find(s: S) returns (r: Option<nat>)
      requires Valid()
      ensures r == FirstWith(table[HashValue(s)], s)
      ensures r.Some? <==> HasState(Entries(), s)
    {
      var chain := table[HashValue(s)];
      var k := 0;
      while k < |chain|
        invariant k <= |chain|
        invariant forall j :: 0 <= j < k ==> chain[j].state != s
      {
        if chain[k].state == s {
          FirstWithIsFirst(chain, s, k);
          StateInItsBucket(table[..], hashOf, s);
          return Some(k);
        }
        k := k + 1;
      }
      StateInItsBucket(table[..], hashOf, s);
      return None;
    }

    /** `insert(entry)`: the entry becomes the head of its bucket; that
        bucket's counter and the size grow by one. */
    method Insert(e: Entry<S, D>)
      requires Valid()
      modifies this, table, number
      ensures Valid()
      ensures table == old(table) && number == old(number) && dimension == old(dimension)
      ensures table[..] == old(table[..])[HashValue(e.state) := [e] + old(table[HashValue(e.state)])]
      ensures size == old(size) + 1
      ensures multiset(Entries()) == multiset(old(Entries())) + multiset{e}
    {
      var b := HashValue(e.state);
      ghost var bs, ns := table[..], number[..];
      table[b] := [e] + table[b];
      number[b] := number[b] + 1;
      size := size + 1;
      PrependKeeps(bs, ns, hashOf, e, b);
      assert table[..] == bs[b := [e] + bs[b]];
      assert number[..] == ns[b := ns[b] + 1];
    }

    /** `get(s)`: the first entry for `s`, inserting `Entry(s, d)` when
        there is none. */
    method Get(s: S, d: D) returns (k: nat)
      requires Valid()
      modifies this, table, number
      ensures Valid()
      ensures table == old(table) && number == old(number) && dimension == old(dimension)
      ensures FirstWith(table[HashValue(s)], s) == Some(k)
      ensures old(HasState(Entries(), s)) ==> table[..] == old(table[..]) && size == old(size)
      ensures !old(HasState(Entries(), s)) ==>
        table[..] == old(table[..])[HashValue(s) := [Entry(s, d)] + old(table[HashValue(s)])] &&
        size == old(size) + 1 && multiset(Entries()) == multiset(old(Entries())) + multiset{Entry(s, d)}
    {
      var r := Find(s);
      if r.Some? {
        k := r.value;
      } else {
        Insert(Entry(s, d));
        k := 0;
      }
    }

    /** `hashEntry_t::update` and similar writes through an entry pointer:
        the data of entry `k` of the bucket of `s` becomes `d`. */
    method SetData(s: S, k: nat, d: D)
      requires Valid() && k < |table[HashValue(s)]|
      modifies table
      ensures Valid()
      ensures table[..] == old(table[..])[HashValue(s) := old(table[HashValue(s)])[k := Entry(old(table[HashValue(s)][k].state), d)]]
    {
      var b := HashValue(s);
      ghost var bs: seq<seq<Entry<S, D>>> := table[..];
      table[b] := table[b][k := Entry(table[b][k].state, d)];
      SetDataKeeps(bs, number[..], hashOf, b, k, d);
      assert table[..] == bs[b := bs[b][k := Entry(bs[b][k].state, d)]];
    }

    /** `diameter()`: the length of the longest chain. */
    method Diameter() returns (r: nat)
      requires Valid()
      ensures forall i :: 0 <= i < dimension ==> |table[i]| <= r
      ensures exists i :: 0 <= i < dimension && |table[i]| == r
    {
      r := 0;
      var i := 0;
      while i < dimension
        invariant i <= dimension
        invariant forall j :: 0 <= j < i ==> number[j] <= r
        invariant r == 0 || exists j :: 0 <= j < i && number[j] == r
      {
        r := if number[i] > r then number[i] else r;
        i := i + 1;
      }
      assert forall j :: 0 <= j < dimension ==> number[j] == |table[j]|;
      if r == 0 {
        assert number[0] == 0;
      }
    }

    /** The inner loop of `rehash`: every entry of `chain`, head first, is
        inserted into this table. */
    method InsertAll(chain: seq<Entry<S, D>>)
      requires Valid()
      modifies this, table, number
      ensures Valid()
      ensures table == old(table) && number == old(number) && dimension == old(dimension)
      ensures size == old(size) + |chain|
      ensures multiset(Entries()) == multiset(old(Entries())) + multiset(chain)
    {
      var k := 0;
      while k < |chain|
        invariant k <= |chain|
        invariant Valid()
        invariant table == old(table) && number == old(number) && dimension == old(dimension)
        invariant size == old(size) + k
        invariant multiset(Entries()) == multiset(old(Entries())) + multiset(chain[..k])
      {
        Insert(chain[k]);
        assert chain[..k + 1] == chain[..k] + [chain[k]];
        assert multiset(chain[..k + 1]) == multiset(chain[..k]) + multiset{chain[k]};
        k := k + 1;
      }
      assert chain[..k] == chain;
    }

    /** The outer loop of `rehash`: the chains of the old table, bucket by
        bucket. */
    method InsertBuckets(bs: seq<seq<Entry<S, D>>>)
      requires Valid()
      modifies this, table, number
      ensures Valid()
      ensures table == old(table) && number == old(number) && dimension == old(dimension)
      ensures size == old(size) + |Concat(bs)|
      ensures multiset(Entries()) == multiset(old(Entries())) + multiset(Concat(bs))
    {
      var i := 0;
      while i < |bs|
        invariant i <= |bs|
        invariant Valid()
        invariant table == old(table) && number == old(number) && dimension == old(dimension)
        invariant size == old(size) + |Concat(bs[..i])|
        invariant multiset(Entries()) == multiset(old(Entries())) + multiset(Concat(bs[..i]))
      {
        InsertAll(bs[i]);
        ConcatSnoc(bs, i);
        i := i + 1;
      }
      assert bs[..i] == bs;
    }

    /** `rehash()`: `prime(2 * dimension_)` new buckets holding the same
        entries. */
    method Rehash(primes: PrimeTable)
      requires Valid() && primes.Valid()
      modifies this, primes, primes.buf
      ensures Valid() && primes.Valid()
      ensures PrimeOutcome(old(primes.Snapshot()), primes.Snapshot(), 2 * old(dimension), dimension)
      ensures fresh(table) && fresh(number)
      ensures size == old(size)
      ensures multiset(Entries()) == multiset(old(Entries()))
    {
      var ttable := table;
      ghost var bs := ttable[..];
      var d := primes.Prime(2 * dimension);
      Reset(d);
      InsertBuckets(ttable[..]);
    }

    /** The reallocation in `rehash`: `d` empty buckets. */
    method Reset(d: nat)
      requires IsPrime(d)
      modifies this
      ensures Valid() && fresh(table) && fresh(number)
      ensures dimension == d && size == 0 && Entries() == []
    {
      dimension := d;
      table := new seq<Entry<S, D>>[d](_ => []);
      number := new nat[d](_ => 0);
      size := 0;
      ConcatEmpty(table[..]);
    }

    /** `begin()`: the loop of the iterator's constructor over the
        buckets. */
    method Begin() returns (c: Cursor)
      requires Valid()
      ensures c == BeginCursor(table[..])
    {
      c := Seek(0);
    }

    /** The bucket scan from bucket `i`, shared by `begin()` and
        `operator++`. */
    method Seek(i: nat) returns (c: Cursor)
      requires Valid() && i <= dimension
      ensures c == SeekFrom(table[..], i)
    {
      var j := i;
      while j < dimension && table[j] == []
        invariant i <= j <= dimension
        invariant SeekFrom(table[..], j) == SeekFrom(table[..], i)
        decreases dimension - j
      {
        j := j + 1;
      }
      c := if j < dimension then Cursor(Some(0), j) else Cursor(None, dimension);
    }

    /** `stateHash_t::end()`. */
    function End(): (c: Cursor)
      reads this, table, number
      requires Valid()
      ensures c == EndCursor(table[..])
    {
      Cursor(None, dimension)
    }

    /** `operator++`. */
    method Increment(c: Cursor) returns (c': Cursor)
      requires Valid()
      ensures c' == Next(table[..], c)
    {
      if c.ptr.None? {
        c' := c;
      } else if c.idx < dimension && c.ptr.value + 1 < |table[c.idx]| {
        c' := Cursor(Some(c.ptr.value + 1), c.idx);
      } else if c.idx < dimension {
        c' := Seek(c.idx + 1);
      } else {
        c' := Cursor(None, dimension);
      }
    }

    /** A walk from `begin()` to `stateHash_t::end()`, collecting what
        `operator*` yields: every entry once, bucket by bucket. */
    method Collect() returns (es: seq<Entry<S, D>>)
      requires Valid()
      ensures es == Entries()
    {
      es := [];
      var c := Begin();
      ghost var k: nat := 0;
      IterationVisitsEach(table[..], 0);
      while c != End()
        invariant c == IterateN(table[..], k) && k <= |Entries()|
        invariant es == Entries()[..k]
        decreases |Entries()| - k
      {
        IterationVisitsEach(table[..], k);
        var e := CurrentEntry(c, k);
        es := es + [e];
        c := Increment(c);
        k := k + 1;
        IterationVisitsEach(table[..], k);
      }
      IterationVisitsEach(table[..], k);
      if k < |Entries()| {
        assert false;
      }
      assert Entries()[..k] == Entries();
    }

    /** `operator*` on a cursor that points at entry `k`. */
    method CurrentEntry(c: Cursor, ghost k: nat) returns (e: Entry<S, D>)
      requires Valid() && k < |Entries()| && Current(table[..], c) == Some(Entries()[k])
      ensures e == Entries()[k]
    {
      e := table[c.idx][c.ptr.value];
    }
  }

  /** The first entry for `s` is where the scan first meets it. */
  lemma FirstWithIsFirst<S, D>(chain: seq<Entry<S, D>>, s: S, k: nat)
    requires k < |chain| && chain[k].state == s
    requires forall j :: 0 <= j < k ==> chain[j].state != s
    ensures FirstWith(chain, s) == Some(k)
  {
    var r := FirstWith(chain, s);
    assert r.Some?;
  }

  // ---------------------------------------------------------------------
  // hash_t
  // ---------------------------------------------------------------------

  /** `hash_t`: a value per state over chained entries, the heuristic
      standing in for states without an entry, and the count of value
      updates. */
  class ValueHash<S(==,!new)> {
    const chains: ChainedTable<S, real>
    /** `heuristic_->value`. */
    var heuristic: S -> real
    /** `update_counter_`. */
    var updateCounter: nat

    ghost predicate Valid()
      reads this, chains, chains.table, chains.number
    {
      chains.Valid()
    }

    /** `s` has an entry. */
    ghost predicate Stored(s: S)
      reads this, chains, chains.table
    {
      HasState(chains.Entries(), s)
    }

    /** The value of `s` as the const `value(s)` reads it. */
    ghost function ValueOf(s: S): real
      reads this, chains, chains.table, chains.number
      requires Valid()
    {
      Lookup(chains.table[..], chains.hashOf, heuristic, s)
    }

    /** The constructor: a table of `prime(dimension)` empty buckets, so
        every state has its heuristic value. */
    constructor (primes: PrimeTable, dim: nat, heuristic: S -> real, hashOf: S -> nat)
      requires primes.Valid()
      modifies primes, primes.buf
      ensures Valid() && primes.Valid() && fresh(chains) && fresh(chains.table) && fresh(chains.number)
      ensures PrimeOutcome(old(primes.Snapshot()), primes.Snapshot(), dim, chains.dimension)
      ensures chains.size == 0 && updateCounter == 0 && this.heuristic == heuristic
      ensures forall t :: !Stored(t) && ValueOf(t) == heuristic(t)
    {
      chains := new ChainedTable(primes, dim, hashOf);
      this.heuristic := heuristic;
      updateCounter := 0;
      new;
      forall t
        ensures !Stored(t) && ValueOf(t) == heuristic(t)
      {
        StateInItsBucket(chains.table[..], hashOf, t);
      }
    }

    /** The const `value(s)`: the stored value, or else the heuristic;
        nothing is inserted. */
    method ValueConst(s: S) returns (v: real)
      requires Valid()
      ensures v == ValueOf(s)
      ensures !Stored(s) ==> v == heuristic(s)
    {
      var r := chains.Find(s);
      if r.Some? {
        v := chains.table[chains.HashValue(s)][r.value].data;
      } else {
        v := heuristic(s);
      }
    }

    /** The non-const `value(s)`: the same value as the const one; with
        `hash_all` the state is left with an entry holding it, so no
        state's value changes either way. */
    method Value(s: S, hashAll: bool) returns (v: real)
      requires Valid()
      modifies chains, chains.table, chains.number
      ensures Valid() && chains.table == old(chains.table) && chains.number == old(chains.number)
      ensures v == old(ValueOf(s))
      ensures forall t :: ValueOf(t) == old(ValueOf(t))
      ensures hashAll ==> Stored(s)
      ensures !hashAll ==> chains.table[..] == old(chains.table[..]) && chains.size == old(chains.size)
    {
      if hashAll {
        var k := GetEntry(s);
        v := chains.table[chains.HashValue(s)][k].data;
      } else {
        v := ValueConst(s);
      }
    }

    /** `get(s)` on the value table: a missing state is inserted with its
        heuristic value, which leaves every state's value as it was. */
    method GetEntry(s: S) returns (k: nat)
      requires Valid()
      modifies chains, chains.table, chains.number
      ensures Valid() && chains.table == old(chains.table) && chains.number == old(chains.number)
      ensures chains.dimension == old(chains.dimension)
      ensures FirstWith(chains.table[chains.HashValue(s)], s) == Some(k)
      ensures forall t :: ValueOf(t) == old(ValueOf(t))
      ensures Stored(s)
      ensures chains.size == old(chains.size) + (if old(Stored(s)) then 0 else 1)
    {
      ghost var bs := chains.table[..];
      StateInItsBucket(bs, chains.hashOf, s);
      k := chains.Get(s, heuristic(s));
      GetKeepsLookup(bs, chains.table[..], chains.hashOf, heuristic, s);
      StateInItsBucket(chains.table[..], chains.hashOf, s);
    }

    /** `insert(s, value)`: a new entry for `s` at the head of its bucket;
        `s` now reads `v` and every other state what it read before. */
    method InsertValue(s: S, v: real)
      requires Valid()
      modifies chains, chains.table, chains.number
      ensures Valid() && chains.table == old(chains.table) && chains.number == old(chains.number)
      ensures chains.dimension == old(chains.dimension)
      ensures Stored(s) && chains.size == old(chains.size) + 1
      ensures FirstWith(chains.table[chains.HashValue(s)], s) == Some(0)
      ensures forall t :: ValueOf(t) == if t == s then v else old(ValueOf(t))
    {
      ghost var bs := chains.table[..];
      chains.Insert(Entry(s, v));
      LookupAfterPrepend(bs, chains.hashOf, heuristic, Entry(s, v));
      StateInItsBucket(chains.table[..], chains.hashOf, s);
      assert chains.table[chains.HashValue(s)][0].state == s;
    }

    /** `insert(s)`: a new entry holding the heuristic value. It does not
        look for an entry already there, so a stored value of `s` is
        shadowed by the heuristic one. */
    method Insert(s: S)
      requires Valid()
      modifies chains, chains.table, chains.number
      ensures Valid() && chains.table == old(chains.table) && chains.number == old(chains.number)
      ensures Stored(s) && chains.size == old(chains.size) + 1
      ensures forall t :: ValueOf(t) == if t == s then heuristic(s) else old(ValueOf(t))
      ensures !old(Stored(s)) ==> forall t :: ValueOf(t) == old(ValueOf(t))
    {
      StateInItsBucket(chains.table[..], chains.hashOf, s);
      InsertValue(s, heuristic(s));
    }

    /** `hashEntry_t::update(v)` on entry `k` of the bucket of `s`: the
        entry holds `min(v, deadEnd)` and the update counter grows; when it
        is the first entry for `s`, only the value of `s` changes. */
    method UpdateEntry(s: S, k: nat, v: real, deadEnd: real)
      requires Valid() && k < |chains.table[chains.HashValue(s)]| && chains.table[chains.HashValue(s)][k].state == s
      modifies this, chains.table
      ensures Valid() && heuristic == old(heuristic)
      ensures updateCounter == old(updateCounter) + 1
      ensures var b := chains.HashValue(s);
        chains.table[..] == old(chains.table[..])[b := old(chains.table[b])[k := Entry(s, Min(v, deadEnd))]]
      ensures Stored(s)
      ensures old(FirstWith(chains.table[chains.HashValue(s)], s)) == Some(k) ==>
        forall t :: ValueOf(t) == if t == s then Min(v, deadEnd) else old(ValueOf(t))
    {
      ghost var bs := chains.table[..];
      updateCounter := updateCounter + 1;
      chains.SetData(s, k, Min(v, deadEnd));
      if FirstWith(bs[chains.HashValue(s)], s) == Some(k) {
        LookupAfterSetData(bs, chains.hashOf, heuristic, s, Min(v, deadEnd));
      }
      FirstWithSetData(bs[chains.HashValue(s)], k, Min(v, deadEnd), s);
      StateInItsBucket(bs, chains.hashOf, s);
      StateInItsBucket(chains.table[..], chains.hashOf, s);
      assert HasState(bs[chains.HashValue(s)], s) by {
        assert bs[chains.HashValue(s)][k].state == s;
      }
    }

    /** `update(s, v)`: with an entry for `s` (or with `hash_all`, which
        first inserts one) the entry is updated, capping the value at the
        dead-end value and counting the update; otherwise a new entry holds
        `v` as given and the counter stays. Only the value of `s`
        changes. */
    method Update(s: S, v: real, hashAll: bool, deadEnd: real)
      requires Valid()
      modifies this, chains, chains.table, chains.number
      ensures Valid() && heuristic == old(heuristic)
      ensures Stored(s)
      ensures forall t :: ValueOf(t) == if t != s then old(ValueOf(t))
                                        else if old(Stored(s)) || hashAll then Min(v, deadEnd)
                                        else v
      ensures updateCounter == old(updateCounter) + (if old(Stored(s)) || hashAll then 1 else 0)
      ensures chains.size == old(chains.size) + (if old(Stored(s)) then 0 else 1)
    {
      var entry: Option<nat>;
      if hashAll {
        var k := GetEntry(s);
        entry := Some(k);
      } else {
        entry := chains.Find(s);
      }
      if entry.Some? {
        UpdateEntry(s, entry.value, v, deadEnd);
      } else {
        InsertValue(s, v);
      }
    }

    /** `replaceHeuristic(h)`: the previous heuristic; states without an
        entry now read `h`. */
    method ReplaceHeuristic(h: S -> real) returns (previous: S -> real)
      requires Valid()
      modifies this
      ensures Valid() && previous == old(heuristic) && heuristic == h
      ensures updateCounter == old(updateCounter)
      ensures forall t :: ValueOf(t) == if Stored(t) then old(ValueOf(t)) else h(t)
    {
      previous := heuristic;
      heuristic := h;
      forall t
        ensures ValueOf(t) == if Stored(t) then old(ValueOf(t)) else h(t)
      {
        StateInItsBucket(chains.table[..], chains.hashOf, t);
      }
    }

    /** `increment_counter()`. */
    method IncrementCounter()
      modifies this
      ensures updateCounter == old(updateCounter) + 1 && heuristic == old(heuristic)
    {
      updateCounter := updateCounter + 1;
    }

    /** `reset_update_counter()`: its assignment is commented out, so it
        changes nothing. */
    method ResetUpdateCounter()
      ensures updateCounter == old(updateCounter)
    {
    }
  }

  /** A `get` that inserts the heuristic value of a missing state changes
      no state's value. */
  lemma GetKeepsLookup<S>(bs: seq<seq<Entry<S, real>>>, cs: seq<seq<Entry<S, real>>>, hashOf: S -> nat, heuristic: S -> real, s: S)
    requires |bs| > 0
    requires var b := hashOf(s) % |bs|;
      cs == bs || (!HasState(bs[b], s) && cs == bs[b := [Entry(s, heuristic(s))] + bs[b]])
    ensures forall t :: Lookup(cs, hashOf, heuristic, t) == Lookup(bs, hashOf, heuristic, t)
  {
    if cs != bs {
      LookupAfterPrepend(bs, hashOf, heuristic, Entry(s, heuristic(s)));
    }
  }
}
