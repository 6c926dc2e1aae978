/** Python value semantics shared by the ASNets modules: the order of `str`
  values, `list.sort()` under a key, and first-occurrence de-duplication.

  Python compares strings code point by code point, a proper prefix coming
  first; `list.sort()` is a stable sort that only asks `<` of its items.
*/
module PyOps {
  import opened Wrappers

  // ---------------------------------------------------------------------
  // str <
  // ---------------------------------------------------------------------

  /** Python's `a < b` on strings. */
  predicate StrLess(a: string, b: string)
    decreases |a|
  {
    if |a| == 0 then |b| > 0
    else if |b| == 0 then false
    else a[0] < b[0] || (a[0] == b[0] && StrLess(a[1..], b[1..]))
  }

  predicate StrLessEq(a: string, b: string) {
    StrLess(a, b) || a == b
  }

  lemma {:induction false} StrLessIrreflexive(a: string)
    ensures !StrLess(a, a)
    decreases |a|
  {
    if |a| > 0 {
      StrLessIrreflexive(a[1..]);
    }
  }

  lemma {:induction false} StrLessTransitive(a: string, b: string, c: string)
    requires StrLess(a, b) && StrLess(b, c)
    ensures StrLess(a, c)
    decreases |a|
  {
    if |a| > 0 && a[0] == b[0] && b[0] == c[0] {
      StrLessTransitive(a[1..], b[1..], c[1..]);
    }
  }

  lemma {:induction false} StrLessTotal(a: string, b: string)
    ensures StrLess(a, b) || a == b || StrLess(b, a)
    decreases |a|
  {
    if |a| > 0 && |b| > 0 && a[0] == b[0] {
      StrLessTotal(a[1..], b[1..]);
      if a[1..] == b[1..] {
        assert a == [a[0]] + a[1..] && b == [b[0]] + b[1..];
      }
    }
  }

  lemma StrLessAsymmetric(a: string, b: string)
    requires StrLess(a, b)
    ensures !StrLess(b, a) && a != b
  {
    StrLessIrreflexive(a);
    if StrLess(b, a) {
      StrLessTransitive(a, b, a);
    }
  }

  /** A proper prefix is smaller: "ab" < "abc". */
  lemma {:induction false} PrefixIsLess(a: string, b: string)
    requires |a| < |b| && a == b[..|a|]
    ensures StrLess(a, b)
    decreases |a|
  {
    if |a| > 0 {
      assert a[1..] == b[1..][..|a| - 1];
      PrefixIsLess(a[1..], b[1..]);
    }
  }

  // ---------------------------------------------------------------------
  // tuple-of-strings <
  // ---------------------------------------------------------------------

  /** Python's `<` on two tuples of strings. */
  predicate StrsLess(a: seq<string>, b: seq<string>)
    decreases |a|
  {
    if |a| == 0 then |b| > 0
    else if |b| == 0 then false
    else StrLess(a[0], b[0]) || (a[0] == b[0] && StrsLess(a[1..], b[1..]))
  }

  lemma {:induction false} StrsLessIrreflexive(a: seq<string>)
    ensures !StrsLess(a, a)
    decreases |a|
  {
    if |a| > 0 {
      StrLessIrreflexive(a[0]);
      StrsLessIrreflexive(a[1..]);
    }
  }

  lemma {:induction false} StrsLessTransitive(a: seq<string>, b: seq<string>, c: seq<string>)
    requires StrsLess(a, b) && StrsLess(b, c)
    ensures StrsLess(a, c)
    decreases |a|
  {
    if |a| > 0 {
      if StrLess(a[0], b[0]) && StrLess(b[0], c[0]) {
        StrLessTransitive(a[0], b[0], c[0]);
      } else if a[0] == b[0] && b[0] == c[0] {
        StrsLessTransitive(a[1..], b[1..], c[1..]);
      }
    }
  }

  // ---------------------------------------------------------------------
  // list.sort() under a string key
  // ---------------------------------------------------------------------

  /** The keys never decrease along `xs`. */
  predicate SortedBy<T>(xs: seq<T>, key: T -> string) {
    forall i, j :: 0 <= i < j < |xs| ==> StrLessEq(key(xs[i]), key(xs[j]))
  }

  /** The keys strictly increase along `xs`, so no two items share a key. */
  predicate StrictlySortedBy<T>(xs: seq<T>, key: T -> string) {
    forall i, j :: 0 <= i < j < |xs| ==> StrLess(key(xs[i]), key(xs[j]))
  }

  /** `x` placed before the first item whose key is not below its own. */
  function InsertByKey<T>(x: T, s: seq<T>, key: T -> string): seq<T>
    decreases |s|
  {
    if |s| == 0 || !StrLess(key(s[0]), key(x)) then [x] + s
    else [s[0]] + InsertByKey(x, s[1..], key)
  }

  /** A stable sort of `xs` by `key`: items with equal keys keep their
      order.  A stable sort has exactly one possible outcome, so this is
      the list `list.sort()` leaves. */
  function SortByKey<T>(xs: seq<T>, key: T -> string): seq<T>
    decreases |xs|
  {
    if |xs| == 0 then [] else InsertByKey(xs[0], SortByKey(xs[1..], key), key)
  }

  lemma {:induction false} InsertByKeyElements<T>(x: T, s: seq<T>, key: T -> string)
    ensures multiset(InsertByKey(x, s, key)) == multiset(s) + multiset{x}
    decreases |s|
  {
    if |s| > 0 && StrLess(key(s[0]), key(x)) {
      InsertByKeyElements(x, s[1..], key);
      assert s == [s[0]] + s[1..];
    }
  }

  lemma {:induction false} InsertByKeySorted<T>(x: T, s: seq<T>, key: T -> string)
    requires SortedBy(s, key)
    ensures SortedBy(InsertByKey(x, s, key), key)
    decreases |s|
  {
    var r := InsertByKey(x, s, key);
    if |s| == 0 {
    } else if !StrLess(key(s[0]), key(x)) {
      StrLessTotal(key(s[0]), key(x));
      forall j | 0 < j < |r|
        ensures StrLessEq(key(x), key(r[j]))
      {
        assert r[j] == s[j - 1];
        if j > 1 && StrLess(key(x), key(s[0])) && StrLess(key(s[0]), key(s[j - 1])) {
          StrLessTransitive(key(x), key(s[0]), key(s[j - 1]));
        }
      }
    } else {
      var t := InsertByKey(x, s[1..], key);
      InsertByKeySorted(x, s[1..], key);
      InsertByKeyElements(x, s[1..], key);
      forall j | 0 <= j < |t|
        ensures StrLessEq(key(s[0]), key(t[j]))
      {
        assert t[j] in multiset(t);
        if t[j] != x {
          assert t[j] in multiset(s[1..]);
          var k :| 0 <= k < |s[1..]| && s[1..][k] == t[j];
          assert s[k + 1] == t[j];
        }
      }
      assert r == [s[0]] + t;
    }
  }

  /** `list.sort()` by a key: the keys are in order and the items are a
      permutation of the input. */
  lemma {:induction false} SortByKeyCorrect<T>(xs: seq<T>, key: T -> string)
    ensures SortedBy(SortByKey(xs, key), key)
    ensures multiset(SortByKey(xs, key)) == multiset(xs)
    decreases |xs|
  {
    if |xs| > 0 {
      SortByKeyCorrect(xs[1..], key);
      InsertByKeySorted(xs[0], SortByKey(xs[1..], key), key);
      InsertByKeyElements(xs[0], SortByKey(xs[1..], key), key);
      assert xs == [xs[0]] + xs[1..];
    }
  }

  /** Sorted lists with pairwise distinct keys are strictly sorted. */
  lemma DistinctSortedIsStrict<T>(xs: seq<T>, key: T -> string)
    requires SortedBy(xs, key)
    requires forall i, j :: 0 <= i < j < |xs| ==> key(xs[i]) != key(xs[j])
    ensures StrictlySortedBy(xs, key)
  {
  }

  lemma {:induction false} StrsLessTotal(a: seq<string>, b: seq<string>)
    ensures StrsLess(a, b) || a == b || StrsLess(b, a)
    decreases |a|
  {
    if |a| > 0 && |b| > 0 {
      StrLessTotal(a[0], b[0]);
      if a[0] == b[0] {
        StrsLessTotal(a[1..], b[1..]);
        if a[1..] == b[1..] {
          assert a == [a[0]] + a[1..] && b == [b[0]] + b[1..];
        }
      }
    }
  }

  // ---------------------------------------------------------------------
  // sorting by a tuple-of-strings key
  // ---------------------------------------------------------------------

  predicate StrsLessEq(a: seq<string>, b: seq<string>) {
    StrsLess(a, b) || a == b
  }

  /** The tuple keys never decrease along `xs`. */
  predicate SortedByKeys<T>(xs: seq<T>, key: T -> seq<string>) {
    forall i, j :: 0 <= i < j < |xs| ==> StrsLessEq(key(xs[i]), key(xs[j]))
  }

  function InsertByKeys<T>(x: T, s: seq<T>, key: T -> seq<string>): seq<T>
    decreases |s|
  {
    if |s| == 0 || !StrsLess(key(s[0]), key(x)) then [x] + s
    else [s[0]] + InsertByKeys(x, s[1..], key)
  }

  /** The stable sort of `xs` by a key that is a tuple of strings. */
  function SortByKeys<T>(xs: seq<T>, key: T -> seq<string>): seq<T>
    decreases |xs|
  {
    if |xs| == 0 then [] else InsertByKeys(xs[0], SortByKeys(xs[1..], key), key)
  }

  lemma {:induction false} InsertByKeysElements<T>(x: T, s: seq<T>, key: T -> seq<string>)
    ensures multiset(InsertByKeys(x, s, key)) == multiset(s) + multiset{x}
    ensures |InsertByKeys(x, s, key)| == |s| + 1
    decreases |s|
  {
    if |s| > 0 && StrsLess(key(s[0]), key(x)) {
      InsertByKeysElements(x, s[1..], key);
      assert s == [s[0]] + s[1..];
    }
  }

  lemma {:induction false} InsertByKeysSorted<T>(x: T, s: seq<T>, key: T -> seq<string>)
    requires SortedByKeys(s, key)
    ensures SortedByKeys(InsertByKeys(x, s, key), key)
    decreases |s|
  {
    var r := InsertByKeys(x, s, key);
    if |s| == 0 {
    } else if !StrsLess(key(s[0]), key(x)) {
      StrsLessTotal(key(s[0]), key(x));
      forall j | 0 < j < |r|
        ensures StrsLessEq(key(x), key(r[j]))
      {
        assert r[j] == s[j - 1];
        if j > 1 && StrsLess(key(x), key(s[0])) && StrsLess(key(s[0]), key(s[j - 1])) {
          StrsLessTransitive(key(x), key(s[0]), key(s[j - 1]));
        }
      }
    } else {
      var t := InsertByKeys(x, s[1..], key);
      InsertByKeysSorted(x, s[1..], key);
      InsertByKeysElements(x, s[1..], key);
      forall j | 0 <= j < |t|
        ensures StrsLessEq(key(s[0]), key(t[j]))
      {
        assert t[j] in multiset(t);
        if t[j] != x {
          assert t[j] in multiset(s[1..]);
          var k :| 0 <= k < |s[1..]| && s[1..][k] == t[j];
          assert s[k + 1] == t[j];
        }
      }
      assert r == [s[0]] + t;
    }
  }

  /** `sorted()` by a tuple key: keys in order, items a permutation. */
  lemma {:induction false} SortByKeysCorrect<T>(xs: seq<T>, key: T -> seq<string>)
    ensures SortedByKeys(SortByKeys(xs, key), key)
    ensures multiset(SortByKeys(xs, key)) == multiset(xs)
    ensures |SortByKeys(xs, key)| == |xs|
    decreases |xs|
  {
    if |xs| > 0 {
      SortByKeysCorrect(xs[1..], key);
      InsertByKeysSorted(xs[0], SortByKeys(xs[1..], key), key);
      InsertByKeysElements(xs[0], SortByKeys(xs[1..], key), key);
      assert xs == [xs[0]] + xs[1..];
    }
  }

  // ---------------------------------------------------------------------
  // first-occurrence de-duplication
  // ---------------------------------------------------------------------

  /** The items of `s` not in `seen`, each kept at its first occurrence:
      the loop that appends an item only when the `set` beside the list does
      not hold it yet. */
  function DedupFrom<T(==)>(s: seq<T>, seen: set<T>): seq<T>
    decreases |s|
  {
    if |s| == 0 then []
    else if s[0] in seen then DedupFrom(s[1..], seen)
    else [s[0]] + DedupFrom(s[1..], seen + {s[0]})
  }

  function Dedup<T(==)>(s: seq<T>): seq<T> {
    DedupFrom(s, {})
  }

  /** No two positions hold the same item. */
  predicate NoDuplicates<T(==)>(s: seq<T>) {
    forall i, j :: 0 <= i < j < |s| ==> s[i] != s[j]
  }

  lemma {:induction false} DedupFromProperties<T>(s: seq<T>, seen: set<T>)
    ensures forall x :: x in DedupFrom(s, seen) <==> x in s && x !in seen
    ensures NoDuplicates(DedupFrom(s, seen))
    decreases |s|
  {
    if |s| > 0 {
      if s[0] in seen {
        DedupFromProperties(s[1..], seen);
        assert forall x :: x in s <==> x == s[0] || x in s[1..];
      } else {
        var rest := DedupFrom(s[1..], seen + {s[0]});
        DedupFromProperties(s[1..], seen + {s[0]});
        assert forall x :: x in s <==> x == s[0] || x in s[1..];
        assert s[0] !in rest;
        var r := [s[0]] + rest;
        forall i, j | 0 <= i < j < |r|
          ensures r[i] != r[j]
        {
          if i == 0 {
            assert r[j] == rest[j - 1];
          } else {
            assert r[i] == rest[i - 1] && r[j] == rest[j - 1];
          }
        }
      }
    }
  }

  /** `make_unbound_action`'s de-duplication: the same items, each once. */
  lemma DedupProperties<T>(s: seq<T>)
    ensures forall x :: x in Dedup(s) <==> x in s
    ensures NoDuplicates(Dedup(s))
  {
    DedupFromProperties(s, {});
  }

  /** A list without duplicates is left as it is. */
  lemma {:induction false} DedupFromOfDistinct<T>(s: seq<T>, seen: set<T>)
    requires NoDuplicates(s)
    requires forall x :: x in s ==> x !in seen
    ensures DedupFrom(s, seen) == s
    decreases |s|
  {
    if |s| > 0 {
      forall x | x in s[1..]
        ensures x !in seen + {s[0]}
      {
        var k :| 0 <= k < |s[1..]| && s[1..][k] == x;
        assert s[k + 1] == x;
      }
      DedupFromOfDistinct(s[1..], seen + {s[0]});
    }
  }

  // ---------------------------------------------------------------------
  // comprehensions with a condition, list.index, dictionaries keyed by
  // an identifier
  // ---------------------------------------------------------------------

  /** `[x for x in xs if keep(x)]`. */
  function Filter<T>(xs: seq<T>, keep: T -> bool): seq<T>
    decreases |xs|
  {
    if |xs| == 0 then []
    else if keep(xs[0]) then [xs[0]] + Filter(xs[1..], keep)
    else Filter(xs[1..], keep)
  }

  lemma {:induction false} FilterMembers<T>(xs: seq<T>, keep: T -> bool)
    ensures forall x :: x in Filter(xs, keep) <==> x in xs && keep(x)
    ensures |Filter(xs, keep)| <= |xs|
    decreases |xs|
  {
    if |xs| > 0 {
      FilterMembers(xs[1..], keep);
      assert forall x :: x in xs <==> x == xs[0] || x in xs[1..];
    }
  }

  /** Where the `j`-th kept item comes from. */
  lemma {:induction false} FilterSource<T>(xs: seq<T>, keep: T -> bool, j: nat) returns (k: nat)
    requires j < |Filter(xs, keep)|
    ensures k < |xs| && xs[k] == Filter(xs, keep)[j]
    decreases |xs|
  {
    if keep(xs[0]) && j == 0 {
      k := 0;
    } else {
      var i := if keep(xs[0]) then j - 1 else j;
      k := FilterSource(xs[1..], keep, i);
      k := k + 1;
    }
  }

  /** A comprehension keeps the order of its source: a strictly sorted list
      stays strictly sorted. */
  lemma {:induction false} FilterStrictlySorted<T>(xs: seq<T>, keep: T -> bool, key: T -> string)
    requires StrictlySortedBy(xs, key)
    ensures StrictlySortedBy(Filter(xs, keep), key)
    decreases |xs|
  {
    if |xs| > 0 {
      FilterStrictlySorted(xs[1..], keep, key);
      if keep(xs[0]) {
        var t := Filter(xs[1..], keep);
        forall j | 0 <= j < |t|
          ensures StrLess(key(xs[0]), key(t[j]))
        {
          var k := FilterSource(xs[1..], keep, j);
          assert xs[k + 1] == t[j];
        }
        var r := [xs[0]] + t;
        forall i, j | 0 <= i < j < |r|
          ensures StrLess(key(r[i]), key(r[j]))
        {
          if i > 0 {
            assert r[i] == t[i - 1] && r[j] == t[j - 1];
          } else {
            assert r[j] == t[j - 1];
          }
        }
      }
    }
  }

  /** `xs.index(x)` where items compare by `key`: the first position whose
      key is `k`, and ValueError when there is none. */
  function FirstIndex<T>(xs: seq<T>, key: T -> string, k: string): (r: Result<nat>)
    decreases |xs|
  {
    if |xs| == 0 then Err(ValueError)
    else if key(xs[0]) == k then Ok(0)
    else match FirstIndex(xs[1..], key, k)
      case Ok(i) => Ok(i + 1)
      case Err(f) => Err(f)
  }

  lemma {:induction false} FirstIndexMeaning<T>(xs: seq<T>, key: T -> string, k: string)
    ensures FirstIndex(xs, key, k).Ok? <==> exists i :: 0 <= i < |xs| && key(xs[i]) == k
    ensures FirstIndex(xs, key, k).Err? ==> FirstIndex(xs, key, k).failure == ValueError
    ensures FirstIndex(xs, key, k).Ok? ==>
      var i := FirstIndex(xs, key, k).value;
      i < |xs| && key(xs[i]) == k && forall j :: 0 <= j < i ==> key(xs[j]) != k
    decreases |xs|
  {
    if |xs| > 0 && key(xs[0]) != k {
      FirstIndexMeaning(xs[1..], key, k);
      if exists i :: 0 <= i < |xs| && key(xs[i]) == k {
        var i :| 0 <= i < |xs| && key(xs[i]) == k;
        assert key(xs[1..][i - 1]) == k;
      }
      if FirstIndex(xs[1..], key, k).Ok? {
        var i := FirstIndex(xs[1..], key, k).value;
        assert key(xs[i + 1]) == key(xs[1..][i]);
        forall j | 0 < j < i + 1
          ensures key(xs[j]) != k
        {
          assert xs[j] == xs[1..][j - 1];
        }
      }
    }
  }

  /** In a list whose keys are pairwise distinct, the item at `i` is found
      at `i`. */
  lemma FirstIndexOfDistinct<T>(xs: seq<T>, key: T -> string, i: nat)
    requires StrictlySortedBy(xs, key) && i < |xs|
    ensures FirstIndex(xs, key, key(xs[i])) == Ok(i)
  {
    FirstIndexMeaning(xs, key, key(xs[i]));
    var j := FirstIndex(xs, key, key(xs[i])).value;
    if j < i {
      StrLessIrreflexive(key(xs[i]));
    }
  }

  /** `{key(x): idx for idx, x in enumerate(xs)}[k]`: the last position whose
      key is `k`, and KeyError when there is none. */
  function LastIndex<T>(xs: seq<T>, key: T -> string, k: string): (r: Result<nat>)
    decreases |xs|
  {
    if |xs| == 0 then Err(KeyError)
    else if key(xs[|xs| - 1]) == k then Ok(|xs| - 1)
    else LastIndex(xs[..|xs| - 1], key, k)
  }

  lemma {:induction false} LastIndexMeaning<T>(xs: seq<T>, key: T -> string, k: string)
    ensures LastIndex(xs, key, k).Ok? <==> exists i :: 0 <= i < |xs| && key(xs[i]) == k
    ensures LastIndex(xs, key, k).Err? ==> LastIndex(xs, key, k).failure == KeyError
    ensures LastIndex(xs, key, k).Ok? ==>
      var i := LastIndex(xs, key, k).value;
      i < |xs| && key(xs[i]) == k && forall j :: i < j < |xs| ==> key(xs[j]) != k
    decreases |xs|
  {
    if |xs| > 0 && key(xs[|xs| - 1]) != k {
      var init := xs[..|xs| - 1];
      LastIndexMeaning(init, key, k);
      if exists i :: 0 <= i < |xs| && key(xs[i]) == k {
        var i :| 0 <= i < |xs| && key(xs[i]) == k;
        assert key(init[i]) == k;
      }
      if LastIndex(init, key, k).Ok? {
        var i := LastIndex(init, key, k).value;
        assert key(xs[i]) == key(init[i]);
        forall j | i < j < |xs|
          ensures key(xs[j]) != k
        {
          if j < |xs| - 1 {
            assert xs[j] == init[j];
          }
        }
      }
    }
  }

  /** In a list whose keys are pairwise distinct, the dictionary maps the
      key of the item at `i` back to `i`. */
  lemma LastIndexOfDistinct<T>(xs: seq<T>, key: T -> string, i: nat)
    requires StrictlySortedBy(xs, key) && i < |xs|
    ensures LastIndex(xs, key, key(xs[i])) == Ok(i)
  {
    LastIndexMeaning(xs, key, key(xs[i]));
    var j := LastIndex(xs, key, key(xs[i])).value;
    if j > i {
      StrLessIrreflexive(key(xs[i]));
    }
  }

  lemma NoDuplicatesCons<T>(a: T, t: seq<T>)
    ensures NoDuplicates([a] + t) <==> a !in t && NoDuplicates(t)
  {
    var s := [a] + t;
    assert forall i :: 0 <= i < |t| ==> t[i] == s[i + 1];
    if a !in t && NoDuplicates(t) {
      forall i, j | 0 <= i < j < |s|
        ensures s[i] != s[j]
      {
        if i == 0 {
          assert s[j] == t[j - 1];
        } else {
          assert s[i] == t[i - 1] && s[j] == t[j - 1];
        }
      }
    }
    if a in t {
      var j :| 0 <= j < |t| && t[j] == a;
      assert s[0] == s[j + 1];
      assert !NoDuplicates(s);
    }
  }

  lemma {:induction false} InsertByKeysDistinct<T>(x: T, s: seq<T>, key: T -> seq<string>)
    requires NoDuplicates(s) && x !in s
    ensures NoDuplicates(InsertByKeys(x, s, key))
    decreases |s|
  {
    NoDuplicatesCons(x, s);
    if |s| > 0 && StrsLess(key(s[0]), key(x)) {
      assert s == [s[0]] + s[1..];
      NoDuplicatesCons(s[0], s[1..]);
      InsertByKeysDistinct(x, s[1..], key);
      InsertByKeysElements(x, s[1..], key);
      var t := InsertByKeys(x, s[1..], key);
      assert s[0] !in multiset(s[1..]) && s[0] != x;
      assert s[0] !in multiset(t);
      NoDuplicatesCons(s[0], t);
    }
  }

  /** Sorting a list without duplicates leaves none. */
  lemma {:induction false} SortByKeysDistinct<T>(xs: seq<T>, key: T -> seq<string>)
    requires NoDuplicates(xs)
    ensures NoDuplicates(SortByKeys(xs, key))
    decreases |xs|
  {
    if |xs| > 0 {
      assert xs == [xs[0]] + xs[1..];
      NoDuplicatesCons(xs[0], xs[1..]);
      SortByKeysDistinct(xs[1..], key);
      SortByKeysCorrect(xs[1..], key);
      var t := SortByKeys(xs[1..], key);
      assert xs[0] !in multiset(xs[1..]);
      assert xs[0] !in multiset(t);
      InsertByKeysDistinct(xs[0], t, key);
    }
  }

  /** Appending an item extends the comprehension by that item when it is
      kept. */
  lemma {:induction false} FilterSnoc<T>(xs: seq<T>, x: T, keep: T -> bool)
    ensures Filter(xs + [x], keep) == Filter(xs, keep) + (if keep(x) then [x] else [])
    decreases |xs|
  {
    if |xs| > 0 {
      assert (xs + [x])[1..] == xs[1..] + [x];
      FilterSnoc(xs[1..], x, keep);
    } else {
      assert [x][1..] == [];
    }
  }

  /** Appending an item extends the de-duplicated list by that item when
      it is new. */
  lemma {:induction false} DedupFromSnoc<T>(s: seq<T>, x: T, seen: set<T>)
    ensures DedupFrom(s + [x], seen) == DedupFrom(s, seen) + (if x in seen || x in s then [] else [x])
    decreases |s|
  {
    if |s| > 0 {
      assert (s + [x])[1..] == s[1..] + [x];
      var seen' := if s[0] in seen then seen else seen + {s[0]};
      DedupFromSnoc(s[1..], x, seen');
      assert x in s <==> x == s[0] || x in s[1..];
    } else {
      assert [x][1..] == [];
    }
  }

  /** A list without duplicates has as many items as distinct items. */
  lemma {:induction false} DistinctCard<T>(s: seq<T>)
    requires NoDuplicates(s)
    ensures |set x | x in s| == |s|
    decreases |s|
  {
    if |s| > 0 {
      assert s == [s[0]] + s[1..];
      NoDuplicatesCons(s[0], s[1..]);
      DistinctCard(s[1..]);
      assert (set x | x in s) == (set x | x in s[1..]) + {s[0]};
    }
  }
}
