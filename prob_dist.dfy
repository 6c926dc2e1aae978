/** The probability distributions of `prob_dist.h`: containers of
    `(event, probability)` pairs with `insert`, `clear`, iteration,
    `normalizingConstant` and `sample`.

    Probabilities are doubles in the source and reals here. An iteration
    over a container is the sequence of pairs it visits. The uniform draw
    of `sample` is a parameter.
*/
module ProbDists {
  import opened Wrappers

  /** One step of an iteration: an event and its probability. */
  type Outcome<T> = (T, real)

  // ---------------------------------------------------------------------
  // Sums over an iteration
  // ---------------------------------------------------------------------

  /** The sum of the probabilities visited. */
  function Total<T>(os: seq<Outcome<T>>): real {
    if |os| == 0 then 0.0 else os[0].1 + Total(os[1..])
  }

  /** The probability an iteration gives to the event `u`, summed over
      every pair of `u`. */
  function Mass<T(==)>(os: seq<Outcome<T>>, u: T): real {
    if |os| == 0 then 0.0 else (if os[0].0 == u then os[0].1 else 0.0) + Mass(os[1..], u)
  }

  lemma {:induction false} TotalAppend<T>(os: seq<Outcome<T>>, o: Outcome<T>)
    ensures Total(os + [o]) == Total(os) + o.1
    decreases |os|
  {
    if |os| == 0 {
      assert os + [o] == [o];
      assert [o][1..] == [];
    } else {
      assert (os + [o])[1..] == os[1..] + [o];
      TotalAppend(os[1..], o);
    }
  }

  lemma {:induction false} MassAppend<T>(os: seq<Outcome<T>>, o: Outcome<T>, u: T)
    ensures Mass(os + [o], u) == Mass(os, u) + (if o.0 == u then o.1 else 0.0)
    decreases |os|
  {
    if |os| == 0 {
      assert os + [o] == [o];
      assert [o][1..] == [];
    } else {
      assert (os + [o])[1..] == os[1..] + [o];
      MassAppend(os[1..], o, u);
    }
  }

  /** With non-negative probabilities the total is non-negative and at
      least the mass of any one event. */
  lemma {:induction false} TotalBoundsMass<T>(os: seq<Outcome<T>>, u: T)
    requires forall i :: 0 <= i < |os| ==> os[i].1 >= 0.0
    ensures 0.0 <= Mass(os, u) <= Total(os)
    decreases |os|
  {
    if |os| > 0 {
      assert forall i :: 0 <= i < |os[1..]| ==> os[1..][i] == os[i + 1];
      TotalBoundsMass(os[1..], u);
    }
  }

  /** `normalizingConstant()`: the loop over the iteration. */
  method NormalizingConstant<T>(os: seq<Outcome<T>>) returns (nc: real)
    ensures nc == Total(os)
  {
    nc := 0.0;
    var i := 0;
    while i < |os|
      invariant i <= |os|
      invariant nc == Total(os[..i])
    {
      TotalAppend(os[..i], os[i]);
      assert os[..i + 1] == os[..i] + [os[i]];
      nc := nc + os[i].1;
      i := i + 1;
    }
    assert os[..i] == os;
  }

  /** The running total after the pair at `j` is still below `target`. */
  predicate BelowAfter<T>(os: seq<Outcome<T>>, j: nat, target: real)
    requires j < |os|
  {
    Total(os[..j + 1]) < target
  }

  /** The point `drand48() * normalizing_constant` that `sample` looks
      for, a negative constant standing for the total. */
  function SampleTarget<T>(os: seq<Outcome<T>>, normalizingConstant: real, draw: real): real {
    draw * (if normalizingConstant < 0.0 then Total(os) else normalizingConstant)
  }

  /** `sample(normalizing_constant)` with the draw of `drand48()` given as
      `draw`: a negative constant is replaced by `normalizingConstant()`;
      the result is the first pair at which the running total reaches
      `draw * nc`, and `None` when the whole iteration stays below it (the
      `assert(false)` of the source). */
  method Sample<T>(os: seq<Outcome<T>>, normalizingConstant: real, draw: real) returns (r: Option<nat>)
    ensures r.Some? ==> r.value < |os| && !BelowAfter(os, r.value, SampleTarget(os, normalizingConstant, draw))
    ensures r.Some? ==> forall j :: 0 <= j < r.value ==> BelowAfter(os, j, SampleTarget(os, normalizingConstant, draw))
    ensures r.None? ==> forall j :: 0 <= j < |os| ==> BelowAfter(os, j, SampleTarget(os, normalizingConstant, draw))
  {
    var nc := normalizingConstant;
    if nc < 0.0 {
      nc := NormalizingConstant(os);
    }
    var target := draw * nc;
    assert target == SampleTarget(os, normalizingConstant, draw);
    var rest := target;
    var i := 0;
    while i < |os|
      invariant i <= |os|
      invariant rest == target - Total(os[..i])
      invariant forall j :: 0 <= j < i ==> BelowAfter(os, j, target)
    {
      TotalAppend(os[..i], os[i]);
      assert os[..i + 1] == os[..i] + [os[i]];
      rest := rest - os[i].1;
      assert BelowAfter(os, i, target) <==> rest > 0.0;
      if rest <= 0.0 {
        return Some(i);
      }
      i := i + 1;
    }
    return None;
  }

  // ---------------------------------------------------------------------
  // ProbDistVector
  // ---------------------------------------------------------------------

  /** `ProbDistVector`: the pairs in insertion order. */
  class ProbDistVector<T> {
    var v: seq<Outcome<T>>

    constructor ()
      ensures v == []
    {
      v := [];
    }

    /** The iteration: `v_` from the front. */
    function Outcomes(): seq<Outcome<T>>
      reads this
    {
      v
    }

    /** `insert(i, pr)`: the pair is appended, so the total grows by
        `pr`. */
    method Insert(t: T, p: real)
      modifies this
      ensures v == old(v) + [(t, p)]
      ensures Total(Outcomes()) == old(Total(Outcomes())) + p
    {
      TotalAppend(v, (t, p));
      v := v + [(t, p)];
    }

    /** `clear()`. */
    method Clear()
      modifies this
      ensures v == []
    {
      v := [];
    }
  }

  // ---------------------------------------------------------------------
  // ProbDistStlArray
  // ---------------------------------------------------------------------

  /** `ProbDistStlArray<T, N>`: a fixed array of `N` pairs of which the
      first `next_available_` are in use. */
  class ProbDistStlArray<T(0)> {
    const a: array<Outcome<T>>
    var next: nat

    ghost predicate Valid()
      reads this
    {
      next <= a.Length
    }

    constructor (n: nat)
      ensures Valid() && a.Length == n && next == 0 && fresh(a)
    {
      a := new Outcome<T>[n];
      next := 0;
    }

    /** The iteration: the slots in use, in order. */
    function Outcomes(): seq<Outcome<T>>
      reads this, a
      requires Valid()
    {
      a[..next]
    }

    /** `insert(i, pr)`: asserts a free slot, then writes it. */
    method Insert(t: T, p: real)
      requires Valid() && next < a.Length
      modifies this, a
      ensures Valid() && next == old(next) + 1
      ensures Outcomes() == old(Outcomes()) + [(t, p)]
      ensures a[old(next) + 1..] == old(a[next + 1..])
    {
      a[next] := (t, p);
      next := next + 1;
    }

    /** `clear()`: the count goes back to 0; the slots keep their old
        contents. */
    method Clear()
      requires Valid()
      modifies this
      ensures Valid() && next == 0 && Outcomes() == []
    {
      next := 0;
    }
  }

  // ---------------------------------------------------------------------
  // ProbDistAllocArray
  // ---------------------------------------------------------------------

  /** `ProbDistAllocArray<T, N>`: parallel heap arrays of `N` events and
      `N` probabilities, the first `next_available_` in use. */
  class ProbDistAllocArray<T(0)> {
    const e: array<T>
    const p: array<real>
    var next: nat

    ghost predicate Valid()
      reads this
    {
      e.Length == p.Length && next <= e.Length && e != p
    }

    constructor (n: nat)
      ensures Valid() && e.Length == n && next == 0 && fresh(e) && fresh(p)
    {
      e := new T[n];
      p := new real[n];
      next := 0;
    }

    /** The iteration: the pairs `(e_[i], p_[i])` in use, in order. */
    function Outcomes(): seq<Outcome<T>>
      reads this, e, p
      requires Valid()
      ensures |Outcomes()| == next
      ensures forall i :: 0 <= i < next ==> Outcomes()[i] == (e[i], p[i])
    {
      Zip(e[..next], p[..next])
    }

    /** The copy constructor: fresh arrays of `N` slots and a copy of the
        slots `other` uses. */
    constructor Copy(other: ProbDistAllocArray<T>)
      requires other.Valid()
      ensures Valid() && fresh(e) && fresh(p) && e.Length == other.e.Length
      ensures Outcomes() == other.Outcomes()
    {
      var n := other.e.Length;
      var count := other.next;
      e := new T[n];
      p := new real[n];
      next := 0;
      new;
      CopyPrefix(other, count);
      next := count;
    }

    /** The copy assignment: when `other` is another container, the count
        and the slots it uses are copied into this container's arrays. */
    method Assign(other: ProbDistAllocArray<T>)
      requires Valid() && other.Valid() && other.e.Length == e.Length
      requires other != this ==> Apart(other)
      modifies this, e, p
      ensures Valid()
      ensures Outcomes() == old(other.Outcomes())
    {
      if other != this {
        CopyPrefix(other, other.next);
        next := other.next;
      }
    }

    /** The `memcpy` and the copy loop: the first `count` slots of `other`
        are written into this container's arrays. */
    method CopyPrefix(other: ProbDistAllocArray<T>, count: nat)
      requires Valid() && other.Valid() && count <= other.next && count <= e.Length
      requires Apart(other)
      modifies e, p
      ensures e[..count] == other.e[..count] && p[..count] == other.p[..count]
      ensures unchanged(other)
      ensures other.e[..] == old(other.e[..]) && other.p[..] == old(other.p[..])
    {
      var i := 0;
      while i < count
        invariant i <= count
        invariant e[..i] == other.e[..i] && p[..i] == other.p[..i]
        invariant other.e[..] == old(other.e[..]) && other.p[..] == old(other.p[..])
      {
        e[i] := other.e[i];
        p[i] := other.p[i];
        i := i + 1;
      }
    }

    /** No array of this container is an array of `other`. */
    ghost predicate Apart(other: ProbDistAllocArray<T>)
      reads this, other
    {
      var mine: set<object> := {e, p};
      var theirs: set<object> := {other.e, other.p};
      mine !! theirs
    }

    /** `insert(i, pr)`: asserts a free slot, then writes it. */
    method Insert(t: T, pr: real)
      requires Valid() && next < e.Length
      modifies this, e, p
      ensures Valid() && next == old(next) + 1
      ensures Outcomes() == old(Outcomes()) + [(t, pr)]
    {
      e[next] := t;
      p[next] := pr;
      next := next + 1;
    }

    /** `clear()`. */
    method Clear()
      requires Valid()
      modifies this
      ensures Valid() && next == 0 && Outcomes() == []
    {
      next := 0;
    }
  }

  // ---------------------------------------------------------------------
  // ProbDistMap and ProbDistHash
  // ---------------------------------------------------------------------

  /** Some key of a non-empty map. */
  ghost function Pick<T>(m: map<T, real>): (k: T)
    requires |m.Keys| > 0
    ensures k in m
  {
    var k :| k in m; k
  }

  /** The sum of the probabilities of a map, taken in an order of its own
      choosing; `MapTotalWithout` shows the order does not matter. */
  ghost function MapTotal<T>(m: map<T, real>): real
    decreases |m.Keys|
  {
    if |m.Keys| == 0 then 0.0
    else
      var k := Pick(m);
      assert |(m - {k}).Keys| < |m.Keys| by {
        assert (m - {k}).Keys == m.Keys - {k};
      }
      m[k] + MapTotal(m - {k})
  }

  /** Any one key can be taken first. */
  lemma {:induction false} MapTotalWithout<T>(m: map<T, real>, k: T)
    requires k in m
    ensures MapTotal(m) == m[k] + MapTotal(m - {k})
    decreases |m.Keys|
  {
    var j := Pick(m);
    if j != k {
      assert (m - {j}).Keys == m.Keys - {j};
      assert (m - {k}).Keys == m.Keys - {k};
      MapTotalWithout(m - {j}, k);
      MapTotalWithout(m - {k}, j);
      assert m - {j} - {k} == m - {k} - {j};
    }
  }

  /** `m_[i] += pr`: a missing event starts at `0.0`. */
  function Accumulate<T>(m: map<T, real>, t: T, p: real): (m': map<T, real>)
    ensures m'.Keys == m.Keys + {t}
    ensures forall u :: u in m && u != t ==> m'[u] == m[u]
  {
    m[t := (if t in m then m[t] else 0.0) + p]
  }

  /** Accumulating `p` into one event adds `p` to the total. */
  lemma AccumulateTotal<T>(m: map<T, real>, t: T, p: real)
    ensures MapTotal(Accumulate(m, t, p)) == MapTotal(m) + p
  {
    var m' := Accumulate(m, t, p);
    MapTotalWithout(m', t);
    if t in m {
      MapTotalWithout(m, t);
      assert m' - {t} == m - {t};
    } else {
      assert m' - {t} == m;
    }
  }

  /** The map an accumulating container holds after the inserts `os`, in
      order, into an empty one. */
  function Accumulated<T>(os: seq<Outcome<T>>): map<T, real> {
    if |os| == 0 then map[]
    else Accumulate(Accumulated(os[..|os| - 1]), os[|os| - 1].0, os[|os| - 1].1)
  }

  /** After inserting `os`, the events present are exactly the events
      inserted, each once. */
  lemma {:induction false} AccumulatedKeys<T>(os: seq<Outcome<T>>)
    ensures forall u :: u in Accumulated(os) <==> Visits(os, u)
    decreases |os|
  {
    if |os| > 0 {
      var init := os[..|os| - 1];
      var o := os[|os| - 1];
      AccumulatedKeys(init);
      forall u
        ensures u in Accumulated(os) <==> Visits(os, u)
      {
        if u in Accumulated(os) && u != o.0 {
          assert u in Accumulated(init) && Visits(init, u);
          var i :| 0 <= i < |init| && init[i].0 == u;
          assert os[i].0 == u;
        }
        if Visits(os, u) && u != o.0 {
          var i :| 0 <= i < |os| && os[i].0 == u;
          assert init[i].0 == u;
        }
      }
    }
  }

  /** After inserting `os`, each event holds its whole mass. */
  lemma {:induction false} AccumulatedMass<T>(os: seq<Outcome<T>>)
    ensures forall u :: u in Accumulated(os) ==> Accumulated(os)[u] == Mass(os, u)
    decreases |os|
  {
    if |os| > 0 {
      var init := os[..|os| - 1];
      var o := os[|os| - 1];
      assert os == init + [o];
      AccumulatedMass(init);
      AccumulatedKeys(init);
      forall u | u in Accumulated(os)
        ensures Accumulated(os)[u] == Mass(os, u)
      {
        MassAppend(init, o, u);
        if u == o.0 && u !in Accumulated(init) {
          MassAbsent(init, u);
        }
      }
    }
  }

  /** After inserting `os`, the total is the sum of all the probabilities
      inserted. */
  lemma {:induction false} AccumulatedTotal<T>(os: seq<Outcome<T>>)
    ensures MapTotal(Accumulated(os)) == Total(os)
    decreases |os|
  {
    if |os| > 0 {
      var init := os[..|os| - 1];
      var o := os[|os| - 1];
      assert os == init + [o];
      AccumulatedTotal(init);
      AccumulateTotal(Accumulated(init), o.0, o.1);
      TotalAppend(init, o);
    }
  }

  /** Some pair of the iteration has the event `u`. */
  predicate Visits<T(==)>(os: seq<Outcome<T>>, u: T) {
    exists i :: 0 <= i < |os| && os[i].0 == u
  }

  /** An event an iteration never visits has no mass. */
  lemma {:induction false} MassAbsent<T>(os: seq<Outcome<T>>, u: T)
    requires !Visits(os, u)
    ensures Mass(os, u) == 0.0
    decreases |os|
  {
    if |os| > 0 {
      assert forall i :: 0 <= i < |os[1..]| ==> os[1..][i] == os[i + 1];
      MassAbsent(os[1..], u);
    }
  }

  /** `m` restricted to the keys `ks`. */
  function Restrict<T>(m: map<T, real>, ks: set<T>): (r: map<T, real>)
    requires ks <= m.Keys
    ensures r.Keys == ks && forall k :: k in ks ==> r[k] == m[k]
  {
    map k | k in ks :: m[k]
  }

  /** `ProbDistMap` (an ordered `std::map`) and `ProbDistHash` (an
      `unordered_map`): one probability per event. The two differ only in
      the order of iteration, which the model leaves open. */
  class ProbDistMap<T(==)> {
    var m: map<T, real>

    constructor ()
      ensures m == map[]
    {
      m := map[];
    }

    /** `insert(i, pr)`: `m_[i] += pr`, so the total grows by `pr`. */
    method Insert(t: T, p: real)
      modifies this
      ensures m == Accumulate(old(m), t, p)
      ensures MapTotal(m) == old(MapTotal(m)) + p
    {
      AccumulateTotal(m, t, p);
      m := Accumulate(m, t, p);
    }

    /** `clear()`. */
    method Clear()
      modifies this
      ensures m == map[]
    {
      m := map[];
    }

    /** `normalizingConstant()`: a loop over the events, in whatever order
        the container visits them. */
    method NormalizingConstant() returns (nc: real)
      ensures nc == MapTotal(m)
    {
      nc := 0.0;
      var rest := m.Keys;
      assert Restrict(m, rest) == m;
      while rest != {}
        invariant rest <= m.Keys
        invariant nc + MapTotal(Restrict(m, rest)) == MapTotal(m)
        decreases |rest|
      {
        var k :| k in rest;
        MapTotalWithout(Restrict(m, rest), k);
        assert Restrict(m, rest) - {k} == Restrict(m, rest - {k});
        nc := nc + m[k];
        rest := rest - {k};
      }
    }
  }

  /** Pairs of equal-length sequences. */
  function Zip<A, B>(xs: seq<A>, ys: seq<B>): (zs: seq<(A, B)>)
    requires |xs| == |ys|
    ensures |zs| == |xs| && forall i :: 0 <= i < |xs| ==> zs[i] == (xs[i], ys[i])
  {
    if |xs| == 0 then [] else [(xs[0], ys[0])] + Zip(xs[1..], ys[1..])
  }
}
