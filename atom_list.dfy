/** Sorted atom lists of the mGPT planner core (`atomList_t`,
  `atomListList_t` and the power-set enumeration).

  An atom is an unsigned short.  Even atoms are positive literals and the
  odd atom `2k + 1` is the negation of the even atom `2k`.  An `atomList_t`
  keeps its atoms in a growable buffer: `data` is the allocated buffer
  (`size_` entries) and `count` the number of entries in use
  (`data_ptr_ - data_`).  A null buffer is a buffer of length 0.
*/
module AtomLists {
  import opened Wrappers
  import opened CInt

  /** `ushort_t`: an atom index. */
  type Atom = x: int | 0 <= x <= UShortMax

  // ---------------------------------------------------------------------
  // Specification on sequences of atoms
  // ---------------------------------------------------------------------

  /** Strictly increasing: the order `insert` maintains. */
  predicate Sorted(s: seq<int>) {
    forall i, j :: 0 <= i < j < |s| ==> s[i] < s[j]
  }

  /** The first position whose atom is not below `a` (`|s|` when there is
      none): where `insert` stops scanning. */
  function FirstNotBelow(s: seq<int>, a: int): (i: nat)
    ensures i <= |s|
    ensures forall k :: 0 <= k < i ==> s[k] < a
    ensures i < |s| ==> s[i] >= a
  {
    if |s| == 0 || s[0] >= a then 0 else 1 + FirstNotBelow(s[1..], a)
  }

  /** The first position holding `a` (`|s|` when there is none): where
      `find` and `remove` stop scanning. */
  function IndexOf(s: seq<int>, a: int): (i: nat)
    ensures i <= |s|
    ensures forall k :: 0 <= k < i ==> s[k] != a
    ensures i < |s| ==> s[i] == a
    ensures i == |s| <==> a !in s
  {
    if |s| == 0 then 0 else if s[0] == a then 0 else 1 + IndexOf(s[1..], a)
  }

  /** The list after `insert(a)`: `a` goes before the first atom that is
      not below it, unless that atom is `a` itself. */
  function Inserted(s: seq<int>, a: int): seq<int> {
    var i := FirstNotBelow(s, a);
    if i == |s| || s[i] > a then s[..i] + [a] + s[i..] else s
  }

  /** The list after `remove(a)`: the first occurrence of `a` is dropped. */
  function Removed(s: seq<int>, a: int): seq<int> {
    var i := IndexOf(s, a);
    if i < |s| then s[..i] + s[i + 1..] else s
  }

  /** `insert(alist)`: the atoms of `t` inserted one after another. */
  function InsertAll(s: seq<int>, t: seq<int>): seq<int> {
    if |t| == 0 then s else Inserted(InsertAll(s, t[..|t| - 1]), t[|t| - 1])
  }

  /** `remove(alist)`: the atoms of `t` removed one after another. */
  function RemoveAll(s: seq<int>, t: seq<int>): seq<int> {
    if |t| == 0 then s else Removed(RemoveAll(s, t[..|t| - 1]), t[|t| - 1])
  }

  /** `holds(atm, nprec)` on a list: plain membership when negative
      preconditions are explicit, otherwise an odd atom holds when it is
      absent. */
  predicate AtomHolds(s: seq<int>, a: int, nprec: bool) {
    if nprec then a in s else if a % 2 == 1 then a !in s else a in s
  }

  /** One condition atom `a` holds in the atom set `t`: with `nprec` it must
      be present; otherwise an even atom must be present and an odd atom's
      positive counterpart `a - 1` must be absent. */
  predicate LiteralHolds(t: seq<int>, a: int, nprec: bool) {
    if nprec then a in t else if a % 2 == 1 then a - 1 !in t else a in t
  }

  /** Every atom of the condition `s` holds in `t`. */
  predicate ListHolds(s: seq<int>, t: seq<int>, nprec: bool) {
    forall i :: 0 <= i < |s| ==> LiteralHolds(t, s[i], nprec)
  }

  /** Some even atom is immediately followed by its own negation. */
  predicate Contradictory(s: seq<int>) {
    exists i :: 0 <= i && i + 1 < |s| && s[i] % 2 == 0 && s[i] + 1 == s[i + 1]
  }

  /** The two lists hold the same atoms, whatever their order. */
  predicate SameAtoms(s: seq<int>, t: seq<int>) {
    (forall x :: x in s ==> x in t) && (forall x :: x in t ==> x in s)
  }

  /** The atoms of `s` that also occur in `t`, in their order in `s`. */
  function Filtered(s: seq<int>, t: seq<int>): seq<int> {
    if |s| == 0 then []
    else Filtered(s[..|s| - 1], t) + (if s[|s| - 1] in t then [s[|s| - 1]] else [])
  }

  /** How many entries of `t` occur in `s`. */
  function CommonCount(s: seq<int>, t: seq<int>): nat {
    if |t| == 0 then 0
    else CommonCount(s, t[..|t| - 1]) + (if t[|t| - 1] in s then 1 else 0)
  }

  /** The capacity `realloc` grows a full buffer to: one slot for a null
      buffer, otherwise twice the old size. */
  function NextCapacity(n: nat): (m: nat)
    ensures m > n
  {
    if n == 0 then 1 else 2 * n
  }

  // ---------------------------------------------------------------------
  // Properties of the specification
  // ---------------------------------------------------------------------

  /** The scan in `insert` determines `FirstNotBelow`. */
  lemma FirstNotBelowUnique(s: seq<int>, a: int, i: nat)
    requires i <= |s|
    requires forall k :: 0 <= k < i ==> s[k] < a
    requires i < |s| ==> s[i] >= a
    ensures i == FirstNotBelow(s, a)
  {
  }

  /** The scan in `find` and `remove` determines `IndexOf`. */
  lemma IndexOfUnique(s: seq<int>, a: int, i: nat)
    requires i <= |s|
    requires forall k :: 0 <= k < i ==> s[k] != a
    requires i < |s| ==> s[i] == a
    ensures i == IndexOf(s, a)
  {
  }

  /** After `insert(a)` exactly `a` has joined the atoms. */
  lemma InsertedMembers(s: seq<int>, a: int)
    ensures forall x :: x in Inserted(s, a) <==> x == a || x in s
  {
    var i := FirstNotBelow(s, a);
    if i == |s| || s[i] > a {
      assert s == s[..i] + s[i..];
      assert Inserted(s, a)[i] == a;
    } else {
      assert s[i] == a;
    }
  }

  /** The positions of `s[..i] + [a] + s[i..]`. */
  lemma InsertAtElements(s: seq<int>, i: nat, a: int)
    requires i <= |s|
    ensures |s[..i] + [a] + s[i..]| == |s| + 1
    ensures forall k :: 0 <= k < i ==> (s[..i] + [a] + s[i..])[k] == s[k]
    ensures (s[..i] + [a] + s[i..])[i] == a
    ensures forall k :: i < k <= |s| ==> (s[..i] + [a] + s[i..])[k] == s[k - 1]
  {
  }

  /** `insert` keeps a sorted list sorted. */
  lemma InsertedSorted(s: seq<int>, a: int)
    requires Sorted(s)
    ensures Sorted(Inserted(s, a))
  {
    var i := FirstNotBelow(s, a);
    if i == |s| || s[i] > a {
      var r := s[..i] + [a] + s[i..];
      InsertAtElements(s, i, a);
      forall p, q | 0 <= p < q < |r|
        ensures r[p] < r[q]
      {
        if q <= i {
          assert r[p] == s[p];
        } else if p < i {
          assert r[p] < a <= s[i];
        } else if p == i {
          assert s[i] <= s[q - 1];
        }
      }
    }
  }

  /** Inserting an atom that a sorted list already holds changes nothing. */
  lemma InsertPresentIsNoop(s: seq<int>, a: int)
    requires Sorted(s) && a in s
    ensures Inserted(s, a) == s
  {
    var j :| 0 <= j < |s| && s[j] == a;
    FirstNotBelowUnique(s, a, j);
  }

  /** The positions of `s[..i] + s[i + 1..]`. */
  lemma RemoveAtElements(s: seq<int>, i: nat, r: seq<int>)
    requires i < |s| && r == s[..i] + s[i + 1..]
    ensures |r| == |s| - 1
    ensures forall k :: 0 <= k < i ==> r[k] == s[k]
    ensures forall k :: i <= k < |r| ==> r[k] == s[k + 1]
  {
  }

  /** After `remove(a)` on a sorted list: `a` is gone, every other atom is
      still there, and the list is still sorted. */
  lemma RemovedSorted(s: seq<int>, a: int)
    requires Sorted(s)
    ensures Sorted(Removed(s, a))
    ensures forall x :: x in Removed(s, a) <==> x in s && x != a
  {
    var i := IndexOf(s, a);
    if i < |s| {
      var r := s[..i] + s[i + 1..];
      RemoveAtElements(s, i, r);
      RemovedOrder(s, i, r);
      RemovedOthers(s, i, r);
    }
  }

  lemma RemovedOrder(s: seq<int>, i: nat, r: seq<int>)
    requires Sorted(s) && i < |s| && |r| == |s| - 1
    requires forall k :: 0 <= k < i ==> r[k] == s[k]
    requires forall k :: i <= k < |r| ==> r[k] == s[k + 1]
    ensures Sorted(r)
  {
    forall p, q | 0 <= p < q < |r|
      ensures r[p] < r[q]
    {
      var p', q' := if p < i then p else p + 1, if q < i then q else q + 1;
      assert r[p] == s[p'] && r[q] == s[q'];
    }
  }

  lemma RemovedOthers(s: seq<int>, i: nat, r: seq<int>)
    requires Sorted(s) && i < |s| && |r| == |s| - 1
    requires forall k :: 0 <= k < i ==> r[k] == s[k]
    requires forall k :: i <= k < |r| ==> r[k] == s[k + 1]
    ensures forall x :: x in r <==> x in s && x != s[i]
  {
    forall x
      ensures x in r <==> x in s && x != s[i]
    {
      if x in r {
        var k :| 0 <= k < |r| && r[k] == x;
        var k' := if k < i then k else k + 1;
        assert s[k'] == x;
        assert k' < i ==> s[k'] < s[i];
        assert k' > i ==> s[i] < s[k'];
      }
      if x in s && x != s[i] {
        var k :| 0 <= k < |s| && s[k] == x;
        assert r[if k < i then k else k - 1] == x;
      }
    }
  }

  /** `insert(alist)` on a sorted list: the result is sorted and holds the
      atoms of both lists. */
  lemma {:induction false} InsertAllMembers(s: seq<int>, t: seq<int>)
    requires Sorted(s)
    ensures Sorted(InsertAll(s, t))
    ensures forall x :: x in InsertAll(s, t) <==> x in s || x in t
    decreases |t|
  {
    if |t| > 0 {
      var u := t[..|t| - 1];
      InsertAllMembers(s, u);
      InsertedSorted(InsertAll(s, u), t[|t| - 1]);
      InsertedMembers(InsertAll(s, u), t[|t| - 1]);
      assert t == u + [t[|t| - 1]];
    }
  }

  /** `remove(alist)` on a sorted list: the result is sorted and holds the
      atoms of the first list that are not in the second. */
  lemma {:induction false} RemoveAllMembers(s: seq<int>, t: seq<int>)
    requires Sorted(s)
    ensures Sorted(RemoveAll(s, t))
    ensures forall x :: x in RemoveAll(s, t) <==> x in s && x !in t
    decreases |t|
  {
    if |t| > 0 {
      var u, a := t[..|t| - 1], t[|t| - 1];
      RemoveAllMembers(s, u);
      var r := RemoveAll(s, u);
      RemovedSorted(r, a);
      assert RemoveAll(s, t) == Removed(r, a);
      assert t == u + [a];
      forall x
        ensures x in RemoveAll(s, t) <==> x in s && x !in t
      {
        assert x in t <==> x in u || x == a;
      }
    }
  }

  /** Assignment rebuilds the source's atoms by insertion into an empty
      list: the target then equals the source (as `operator==` sees it) and
      is sorted whatever the source's order. */
  lemma AssignedEqualsSource(t: seq<int>)
    ensures Sorted(InsertAll([], t)) && SameAtoms(InsertAll([], t), t)
  {
    InsertAllMembers([], t);
  }

  /** `intersect`: the result keeps exactly the atoms of `s` found in `t`,
      in their order. */
  lemma {:induction false} FilteredMembers(s: seq<int>, t: seq<int>)
    ensures forall x :: x in Filtered(s, t) <==> x in s && x in t
    ensures Sorted(s) ==> Sorted(Filtered(s, t))
    ensures |Filtered(s, t)| <= |s|
    decreases |s|
  {
    if |s| > 0 {
      var u := s[..|s| - 1];
      FilteredMembers(u, t);
      assert s == u + [s[|s| - 1]];
      if Sorted(s) {
        assert Sorted(u);
        var f := Filtered(u, t);
        forall k | 0 <= k < |f|
          ensures f[k] < s[|s| - 1]
        {
          assert f[k] in f;
          assert f[k] in u;
        }
      }
    }
  }

  /** One step of `intersect`: the atom at the scan index is the next atom
      of the original list; keeping it extends the filtered prefix, and when
      it is dropped it is the first occurrence of itself. */
  lemma IntersectStep(c: seq<int>, s: seq<int>, t: seq<int>, i: nat, k: nat)
    requires i < |c| && k < |s|
    requires c[..i] == Filtered(s[..k], t) && c[i..] == s[k..]
    ensures c[i] == s[k]
    ensures s[k] in t ==> c[..i + 1] == Filtered(s[..k + 1], t) && c[i + 1..] == s[k + 1..]
    ensures s[k] !in t ==> |Removed(c, c[i])| == |c| - 1
    ensures s[k] !in t ==> Removed(c, c[i])[..i] == Filtered(s[..k + 1], t)
    ensures s[k] !in t ==> Removed(c, c[i])[i..] == s[k + 1..]
  {
    assert c[i] == c[i..][0];
    FilteredAt(s, t, k);
    if s[k] in t {
      assert c[..i + 1] == c[..i] + [c[i]];
      assert c[i + 1..] == c[i..][1..];
    } else {
      DroppedFirst(c, s, t, i, k);
      assert Removed(c, c[i]) == c[..i] + c[i + 1..];
      assert (c[..i] + c[i + 1..])[..i] == c[..i];
      assert (c[..i] + c[i + 1..])[i..] == c[i + 1..] == c[i..][1..];
    }
  }

  /** The filtered prefix grows by the next atom exactly when it is in `t`. */
  lemma FilteredAt(s: seq<int>, t: seq<int>, k: nat)
    requires k < |s|
    ensures Filtered(s[..k + 1], t) == Filtered(s[..k], t) + (if s[k] in t then [s[k]] else [])
  {
    var sk := s[..k + 1];
    assert sk[..k] == s[..k] && sk[k] == s[k];
  }

  /** An atom not in `t` does not occur in the filtered prefix before it, so
      it is the first occurrence of itself. */
  lemma DroppedFirst(c: seq<int>, s: seq<int>, t: seq<int>, i: nat, k: nat)
    requires i < |c| && k < |s| && c[i] == s[k] && s[k] !in t
    requires c[..i] == Filtered(s[..k], t)
    ensures IndexOf(c, c[i]) == i
  {
    forall j | 0 <= j < i
      ensures c[j] != c[i]
    {
      assert c[j] in Filtered(s[..k], t) by {
        assert c[j] == c[..i][j];
      }
      FilteredMembers(s[..k], t);
    }
    IndexOfUnique(c, c[i], i);
  }

  /** `empty_intersection` and `intersection_size` agree: the count of
      common entries is zero exactly when no entry of `t` is in `s`. */
  lemma {:induction false} CommonCountZero(s: seq<int>, t: seq<int>)
    ensures CommonCount(s, t) == 0 <==> forall i :: 0 <= i < |t| ==> t[i] !in s
    ensures CommonCount(s, t) <= |t|
    decreases |t|
  {
    if |t| > 0 {
      CommonCountZero(s, t[..|t| - 1]);
      assert forall i :: 0 <= i < |t| - 1 ==> t[..|t| - 1][i] == t[i];
    }
  }

  /** On a sorted list, a contradiction is exactly an atom present together
      with its negation. */
  lemma ContradictionMeansBothPolarities(s: seq<int>)
    requires Sorted(s)
    ensures Contradictory(s) <==> exists a :: a in s && a % 2 == 0 && a + 1 in s
  {
    if exists a :: a in s && a % 2 == 0 && a + 1 in s {
      var a :| a in s && a % 2 == 0 && a + 1 in s;
      var i :| 0 <= i < |s| && s[i] == a;
      var j :| 0 <= j < |s| && s[j] == a + 1;
      AdjacentSuccessor(s, i, j);
      assert s[i] % 2 == 0 && s[i] + 1 == s[i + 1];
    }
    if Contradictory(s) {
      var i :| 0 <= i && i + 1 < |s| && s[i] % 2 == 0 && s[i] + 1 == s[i + 1];
      assert s[i] in s && s[i + 1] in s;
    }
  }

  /** In a sorted list of integers, an atom's successor sits right after it. */
  lemma AdjacentSuccessor(s: seq<int>, i: nat, j: nat)
    requires Sorted(s) && i < |s| && j < |s| && s[j] == s[i] + 1
    ensures i + 1 < |s| && s[i + 1] == s[i] + 1
  {
    assert i + 1 <= j;
    assert s[i] < s[i + 1] <= s[j];
  }

  // ---------------------------------------------------------------------
  // atomList_t
  // ---------------------------------------------------------------------

  class AtomList {
    /** The allocated buffer; its length is `size_`. */
    var data: array<Atom>
    /** The number of atoms in use, `data_ptr_ - data_`. */
    var count: nat

    predicate Valid()
      reads this
    {
      count <= data.Length
    }

    /** The atoms of the list, in buffer order. */
    function Contents(): seq<Atom>
      reads this, data
      requires Valid()
    {
      data[..count]
    }

    /** `size()`: the number of atoms in use. */
    function Size(): (n: nat)
      reads this, data
      requires Valid()
      ensures n == |Contents()|
    {
      count
    }

    /** The empty list: no buffer at all. */
    constructor ()
      ensures Valid() && Contents() == [] && data.Length == 0
    {
      data := new Atom[0];
      count := 0;
    }

    /** `atomList_t(array, sz)`: a buffer of exactly `sz` atoms, copied.
        For `sz == 0` the source allocates a buffer of size 0, which its
        `insert` does not grow (`AllocatedEmptyBufferNotGrownAsWritten`);
        here it grows like an absent buffer. */
    constructor FromArray(a: array<Atom>, sz: nat)
      requires sz <= a.Length
      ensures Valid() && Contents() == a[..sz] && data.Length == sz
    {
      var buf := new Atom[sz];
      var i := 0;
      while i < sz
        invariant 0 <= i <= sz
        invariant buf[..i] == a[..i]
      {
        buf[i] := a[i];
        i := i + 1;
      }
      data := buf;
      count := sz;
    }

    /** The copy constructor: the same atoms in the same order, in a buffer
        exactly as large as the source's atom count (no buffer when the
        source is empty). */
    constructor Copy(other: AtomList)
      requires other.Valid()
      ensures Valid() && Contents() == other.Contents()
      ensures data.Length == |other.Contents()|
    {
      var n := other.count;
      var buf := new Atom[n];
      var i := 0;
      while i < n
        invariant 0 <= i <= n
        invariant buf[..i] == other.data[..i]
      {
        buf[i] := other.data[i];
        i := i + 1;
      }
      data := buf;
      count := n;
    }

    /** `find`: a linear scan. */
    method Find(atm: int) returns (found: bool)
      requires Valid()
      ensures found <==> atm in Contents()
    {
      var i := 0;
      while i < count
        invariant 0 <= i <= count
        invariant forall k :: 0 <= k < i ==> data[k] != atm
      {
        if data[i] == atm {
          return true;
        }
        i := i + 1;
      }
      return false;
    }

    /** `equal(array, sz)`: the same atoms in the same order. */
    method Equal(a: array<Atom>, sz: nat) returns (b: bool)
      requires Valid() && sz <= a.Length
      ensures b <==> Contents() == a[..sz]
    {
      if count != sz {
        return false;
      }
      var i := 0;
      while i < sz
        invariant 0 <= i <= sz
        invariant data[..i] == a[..i]
      {
        if a[i] != data[i] {
          return false;
        }
        i := i + 1;
      }
      return true;
    }

    /** The `realloc` of a full buffer: a fresh buffer of the next capacity
        holding the same atoms. */
    method Grow()
      requires Valid()
      modifies this
      ensures Valid() && fresh(data) && data.Length == NextCapacity(old(data.Length))
      ensures count == old(count) && Contents() == old(Contents())
    {
      var buf := new Atom[NextCapacity(data.Length)];
      var i := 0;
      while i < count
        invariant 0 <= i <= count
        invariant buf[..i] == data[..i]
        modifies buf
      {
        buf[i] := data[i];
        i := i + 1;
      }
      data := buf;
    }

    /** The shift loop of `insert`: every atom from position `i` on moves
        up one place, into the spare slot at the end. */
    method ShiftUp(i: nat)
      requires Valid() && i <= count < data.Length
      modifies data
      ensures forall k :: 0 <= k < i ==> data[k] == old(data[k])
      ensures forall k :: i < k <= count ==> data[k] == old(data[k - 1])
    {
      var j := count;
      while j > i
        invariant i <= j <= count
        invariant forall k :: 0 <= k <= j ==> data[k] == old(data[k])
        invariant forall k :: j < k <= count ==> data[k] == old(data[k - 1])
      {
        data[j] := data[j - 1];
        j := j - 1;
      }
    }

    /** The shift loop of `remove`, bounded by the last atom in use: every
        atom after position `i` moves down one place. */
    method ShiftDown(i: nat)
      requires Valid() && i < count
      modifies data
      ensures forall k :: 0 <= k < i ==> data[k] == old(data[k])
      ensures forall k :: i <= k < count - 1 ==> data[k] == old(data[k + 1])
    {
      var j := i;
      while j + 1 < count
        invariant i <= j < count
        invariant forall k :: 0 <= k < i ==> data[k] == old(data[k])
        invariant forall k :: i <= k < j ==> data[k] == old(data[k + 1])
        invariant forall k :: j <= k < count ==> data[k] == old(data[k])
      {
        data[j] := data[j + 1];
        j := j + 1;
      }
    }

    /** `insert(atm)`: scan to the first atom not below `atm`; unless it is
        `atm`, grow a full buffer, shift the tail up one place and store
        `atm` there. */
    method Insert(atm: Atom)
      requires Valid()
      modifies this, data
      ensures Valid()
      ensures Contents() == Inserted(old(Contents()), atm)
      ensures data == old(data) || fresh(data)
      ensures data.Length == if Contents() != old(Contents()) && old(count) == old(data.Length)
        then NextCapacity(old(data.Length)) else old(data.Length)
    {
      var i := 0;
      while i < count && data[i] < atm
        invariant 0 <= i <= count
        invariant forall k :: 0 <= k < i ==> data[k] < atm
      {
        i := i + 1;
      }
      ghost var s := Contents();
      FirstNotBelowUnique(s, atm, i);
      if i == count || data[i] > atm {
        InsertAt(i, atm);
      }
    }

    /** The insertion step of `insert`: grow a full buffer, shift the tail
        up one place and store `atm` at position `i`. */
    method InsertAt(i: nat, atm: Atom)
      requires Valid() && i <= count
      modifies this, data
      ensures Valid()
      ensures Contents() == old(Contents()[..i]) + [atm] + old(Contents()[i..])
      ensures data == old(data) || fresh(data)
      ensures data.Length == if old(count) == old(data.Length)
        then NextCapacity(old(data.Length)) else old(data.Length)
    {
      ghost var s := Contents();
      if count == data.Length {
        Grow();
      }
      ShiftUp(i);
      data[i] := atm;
      count := count + 1;
      InsertAtElements(s, i, atm);
      assert Contents() == s[..i] + [atm] + s[i..];
    }

    /** `remove(atm)`: drop the first occurrence by shifting the tail down
        one place.  The shift stops at the last atom in use; see
        `RemoveShiftAsWritten` for the loop as the source bounds it. */
    method Remove(atm: int)
      requires Valid()
      modifies data, this
      ensures Valid() && data == old(data)
      ensures Contents() == Removed(old(Contents()), atm)
    {
      var i := 0;
      while i < count && data[i] != atm
        invariant 0 <= i <= count
        invariant forall k :: 0 <= k < i ==> data[k] != atm
      {
        i := i + 1;
      }
      ghost var s := Contents();
      IndexOfUnique(s, atm, i);
      if i < count {
        ShiftDown(i);
        count := count - 1;
        RemoveAtElements(s, i, s[..i] + s[i + 1..]);
        assert Contents() == s[..i] + s[i + 1..];
      }
    }

    /** `holds(atm, nprec)` against the list itself. */
    method HoldsAtom(atm: int, nprec: bool) returns (b: bool)
      requires Valid()
      ensures b <==> AtomHolds(Contents(), atm, nprec)
    {
      var found := Find(atm);
      if nprec {
        b := found;
      } else {
        b := if atm % 2 == 1 then !found else found;
      }
    }

    /** `holds(alist, nprec)`: every atom of this list, read as a condition,
        holds in `alist`. */
    method HoldsIn(alist: AtomList, nprec: bool) returns (b: bool)
      requires Valid() && alist.Valid()
      ensures b <==> ListHolds(Contents(), alist.Contents(), nprec)
    {
      var i := 0;
      while i < count
        invariant 0 <= i <= count
        invariant ListHolds(data[..i], alist.Contents(), nprec)
      {
        var atm := data[i];
        if nprec {
          var found := alist.Find(atm);
          if !found {
            return false;
          }
        } else {
          var found := alist.Find(if atm % 2 == 1 then atm - 1 else atm);
          if (atm % 2 == 1 && found) || (atm % 2 == 0 && !found) {
            return false;
          }
        }
        assert data[..i + 1] == data[..i] + [atm];
        i := i + 1;
      }
      assert data[..count] == Contents();
      return true;
    }

    /** `contradiction()`: some even atom is directly followed by its
        negation. */
    method Contradiction() returns (b: bool)
      requires Valid()
      ensures b <==> Contradictory(Contents())
    {
      var i := 0;
      while i + 1 < count
        invariant 0 <= i <= count
        invariant forall k :: 0 <= k < i && k + 1 < count ==>
          !(data[k] % 2 == 0 && data[k] + 1 == data[k + 1])
      {
        if data[i] % 2 == 0 && data[i] + 1 == data[i + 1] {
          assert Contents()[i] == data[i] && Contents()[i + 1] == data[i + 1];
          return true;
        }
        i := i + 1;
      }
      return false;
    }

    /** `clear()`: no atoms in use; the buffer is kept. */
    method Clear()
      requires Valid()
      modifies this
      ensures Valid() && Contents() == [] && data == old(data)
    {
      count := 0;
    }

    /** `operator==`: mutual containment, so order and duplicates do not
        matter. */
    method SameAs(other: AtomList) returns (b: bool)
      requires Valid() && other.Valid()
      ensures b <==> SameAtoms(Contents(), other.Contents())
    {
      var i := 0;
      while i < count
        invariant 0 <= i <= count
        invariant forall k :: 0 <= k < i ==> data[k] in other.Contents()
      {
        var found := other.Find(data[i]);
        if !found {
          assert data[i] in Contents();
          return false;
        }
        i := i + 1;
      }
      i := 0;
      while i < other.count
        invariant 0 <= i <= other.count
        invariant forall k :: 0 <= k < i ==> other.data[k] in Contents()
      {
        var found := Find(other.data[i]);
        if !found {
          assert other.data[i] in other.Contents();
          return false;
        }
        i := i + 1;
      }
      return true;
    }

    /** `empty_intersection`: no atom of `other` is in this list. */
    method EmptyIntersection(other: AtomList) returns (b: bool)
      requires Valid() && other.Valid()
      ensures b <==> forall i :: 0 <= i < |other.Contents()| ==> other.Contents()[i] !in Contents()
      ensures b <==> CommonCount(Contents(), other.Contents()) == 0
    {
      CommonCountZero(Contents(), other.Contents());
      var i := 0;
      while i < other.count
        invariant 0 <= i <= other.count
        invariant forall k :: 0 <= k < i ==> other.data[k] !in Contents()
      {
        var found := Find(other.data[i]);
        if found {
          assert other.Contents()[i] == other.data[i];
          return false;
        }
        i := i + 1;
      }
      return true;
    }

    /** `intersection_size`: how many entries of `other` are in this list. */
    method IntersectionSize(other: AtomList) returns (n: nat)
      requires Valid() && other.Valid()
      ensures n == CommonCount(Contents(), other.Contents())
    {
      n := 0;
      var i := 0;
      while i < other.count
        invariant 0 <= i <= other.count
        invariant n == CommonCount(Contents(), other.data[..i])
      {
        var found := Find(other.data[i]);
        assert other.data[..i + 1][..i] == other.data[..i];
        if found {
          n := n + 1;
        }
        i := i + 1;
      }
      assert other.data[..other.count] == other.Contents();
    }

    /** `intersect`: remove, in place, every atom that `other` lacks.  The
        index is held back after a removal, so every atom is examined once.
        A list intersected with itself is unchanged. */
    method Intersect(other: AtomList)
      requires Valid() && other.Valid()
      requires other == this || other.data != data
      modifies this, data
      ensures Valid() && data == old(data)
      ensures Contents() == Filtered(old(Contents()), old(other.Contents()))
    {
      ghost var s := Contents();
      ghost var t := other.Contents();
      var i := 0;
      ghost var k := 0;
      while i < count
        invariant Valid() && data == old(data)
        invariant 0 <= i <= count && 0 <= k <= |s|
        invariant |Contents()| - i == |s| - k
        invariant Contents()[..i] == Filtered(s[..k], t)
        invariant Contents()[i..] == s[k..]
        invariant other == this ==> Contents() == s == t
        invariant other != this ==> other.Contents() == t
        decreases count - i
      {
        i := IntersectAt(other, i, s, t, k);
        k := k + 1;
      }
      assert s[..k] == s;
      assert Contents()[..i] == Contents();
    }

    /** One turn of `intersect`: the atom at index `i` stays, and the index
        moves on, when `other` holds it; otherwise it is removed in place. */
    method IntersectAt(other: AtomList, i: nat, ghost s: seq<int>, ghost t: seq<int>, ghost k: nat)
      returns (next: nat)
      requires Valid() && other.Valid()
      requires other == this || other.data != data
      requires i < count && k < |s| && |Contents()| - i == |s| - k
      requires Contents()[..i] == Filtered(s[..k], t) && Contents()[i..] == s[k..]
      requires other == this ==> Contents() == s == t
      requires other != this ==> other.Contents() == t
      modifies this, data
      ensures Valid() && data == old(data) && next <= count < old(count) + 1
      ensures count - next < old(count) - i
      ensures |Contents()| - next == |s| - (k + 1)
      ensures Contents()[..next] == Filtered(s[..k + 1], t) && Contents()[next..] == s[k + 1..]
      ensures other == this ==> Contents() == s == t
      ensures other != this ==> other.Contents() == t
    {
      ghost var c := Contents();
      IntersectStep(c, s, t, i, k);
      var found := other.Find(data[i]);
      assert found <==> s[k] in t;
      assert data[i] == c[i];
      if !found {
        Remove(data[i]);
        next := i;
      } else {
        next := i + 1;
      }
    }

    /** `insert(alist)`: every atom of `alist`, in its order. */
    method InsertList(alist: AtomList)
      requires Valid() && alist.Valid()
      requires alist != this && alist.data != data
      modifies this, data
      ensures Valid()
      ensures Contents() == InsertAll(old(Contents()), alist.Contents())
    {
      ghost var s := Contents();
      var i := 0;
      while i < alist.count
        invariant Valid() && alist.data != data
        invariant 0 <= i <= alist.count
        invariant Contents() == InsertAll(s, alist.data[..i])
        invariant alist.Contents() == old(alist.Contents())
        invariant data == old(data) || fresh(data)
      {
        assert alist.data[..i + 1][..i] == alist.data[..i];
        Insert(alist.data[i]);
        i := i + 1;
      }
      assert alist.data[..alist.count] == alist.Contents();
    }

    /** `remove(alist)`: every atom of `alist`, in its order. */
    method RemoveList(alist: AtomList)
      requires Valid() && alist.Valid()
      requires alist != this && alist.data != data
      modifies this, data
      ensures Valid() && data == old(data)
      ensures Contents() == RemoveAll(old(Contents()), alist.Contents())
    {
      ghost var s := Contents();
      var i := 0;
      while i < alist.count
        invariant Valid() && data == old(data)
        invariant 0 <= i <= alist.count
        invariant Contents() == RemoveAll(s, alist.data[..i])
        invariant alist.Contents() == old(alist.Contents())
      {
        assert alist.data[..i + 1][..i] == alist.data[..i];
        Remove(alist.data[i]);
        i := i + 1;
      }
      assert alist.data[..alist.count] == alist.Contents();
    }

    /** `operator=`: clear, then insert every source atom.  There is no
        self-assignment check, so assigning a list to itself clears it. */
    method Assign(other: AtomList)
      requires Valid() && other.Valid()
      requires other == this || other.data != data
      modifies this, data
      ensures Valid()
      ensures other == this ==> Contents() == []
      ensures other != this ==> Contents() == InsertAll([], old(other.Contents()))
    {
      count := 0;
      if other != this {
        assert Contents() == [];
        InsertList(other);
      }
    }
  }

  /** The shift loop of `remove` as the source bounds it: for `j` from `i`
      up to `size - 1` it copies `buf[j + 1]` into `buf[j]`, where `buf` is
      the whole allocated buffer.  A read past the buffer yields `None`. */
  function RemoveShiftAsWritten(buf: seq<int>, size: nat, j: nat): Option<seq<int>>
    requires j <= size <= |buf|
    decreases size - j
  {
    if j == size then Some(buf)
    else if j + 1 >= |buf| then None
    else RemoveShiftAsWritten(buf[j := buf[j + 1]], size, j + 1)
  }

  /** Removing from a list whose buffer is full reads one entry past the
      buffer, whatever atom is removed. */
  lemma {:induction false} RemoveFromFullBufferReadsPastEnd(buf: seq<int>, j: nat)
    requires j < |buf|
    ensures RemoveShiftAsWritten(buf, |buf|, j) == None
    decreases |buf| - j
  {
    if j + 1 < |buf| {
      RemoveFromFullBufferReadsPastEnd(buf[j := buf[j + 1]], j + 1);
    }
  }

  /** The smallest instance: the list holding only atom 3 in a buffer of
      one entry. */
  lemma RemoveSingleAtomReadsPastEnd()
    ensures RemoveShiftAsWritten([3], 1, 0) == None
  {
  }

  /** The size `insert` gives a full buffer as the source computes it,
      keyed on whether a buffer was allocated at all (`hasData`) rather than
      on its size: one entry when there is none, otherwise the old size
      doubled. */
  function GrownSizeAsWritten(hasData: bool, size: nat): (m: nat)
    ensures !hasData ==> m == 1
  {
    if !hasData then 1 else 2 * size
  }

  /** The growth leaves no room for the new atom exactly when the buffer is
      allocated but of size 0, as `atomList_t(array, 0)` leaves it; the
      atom is then written past the buffer.  (Without a buffer `size_` is
      0.)  `NextCapacity`, which the
      model uses, always makes room. */
  lemma AllocatedEmptyBufferNotGrownAsWritten(hasData: bool, size: nat)
    requires !hasData ==> size == 0
    ensures GrownSizeAsWritten(hasData, size) <= size <==> hasData && size == 0
    ensures NextCapacity(size) > size
  {
  }

  // ---------------------------------------------------------------------
  // atomListList_t
  // ---------------------------------------------------------------------

  /** A set of atom lists, each held by reference; `insert` skips a list
      equal (as sets of atoms) to one already present. */
  class AtomListList {
    var data: array<AtomList?>
    var count: nat

    predicate Valid()
      reads this, data, set i | 0 <= i < data.Length :: data[i]
    {
      count <= data.Length &&
      forall i :: 0 <= i < count ==> data[i] != null && data[i].Valid()
    }

    /** The member lists, by reference. */
    function Elements(): seq<AtomList?>
      reads this, data
      requires count <= data.Length
    {
      data[..count]
    }

    constructor ()
      ensures Valid() && count == 0 && data.Length == 0
    {
      data := new AtomList?[0];
      count := 0;
    }

    /** `find(alist)`: some member equals `alist` as a set of atoms. */
    method Find(alist: AtomList) returns (found: bool)
      requires Valid() && alist.Valid()
      ensures found <==> HasMember(alist.Contents())
    {
      var i := 0;
      while i < count
        invariant 0 <= i <= count
        invariant forall k :: 0 <= k < i ==> !SameAtoms(data[k].Contents(), alist.Contents())
      {
        var same := data[i].SameAs(alist);
        if same {
          assert SameAtoms(data[i].Contents(), alist.Contents());
          return true;
        }
        i := i + 1;
      }
      return false;
    }

    /** `insert(alist)`: append the list, by reference, unless an equal list is already
        a member, growing a full buffer as `atomList_t` does. */
    method Insert(alist: AtomList)
      requires Valid() && alist.Valid()
      modifies this, data
      ensures Valid()
      ensures (exists i :: 0 <= i < old(count) && SameAtoms(old(data[i].Contents()), alist.Contents())) ==>
        Elements() == old(Elements())
      ensures (forall i :: 0 <= i < old(count) ==> !SameAtoms(old(data[i].Contents()), alist.Contents())) ==>
        Elements() == old(Elements()) + [alist]
    {
      var found := Find(alist);
      if !found {
        Append(alist);
      }
    }

    /** The appending step of `insert(alist)`, growing a full buffer as
        `atomList_t` does. */
    method Append(alist: AtomList)
      requires Valid() && alist.Valid()
      modifies this, data
      ensures Valid()
      ensures Elements() == old(Elements()) + [alist]
    {
      ghost var elems := Elements();
      if count == data.Length {
        var buf := new AtomList?[NextCapacity(data.Length)];
        var k := 0;
        while k < count
          invariant 0 <= k <= count
          invariant buf[..k] == data[..k]
          modifies buf
        {
          buf[k] := data[k];
          k := k + 1;
        }
        data := buf;
      }
      assert Elements() == elems;
      data[count] := alist;
      count := count + 1;
      assert Elements() == elems + [alist];
      assert forall i :: 0 <= i < count ==> data[i] == Elements()[i];
    }

    /** `holds(atm_list, nprec)`: some member list holds in `atm_list`. */
    method HoldsIn(alist: AtomList, nprec: bool) returns (b: bool)
      requires Valid() && alist.Valid()
      ensures b <==> exists i :: 0 <= i < count && ListHolds(data[i].Contents(), alist.Contents(), nprec)
    {
      var i := 0;
      while i < count
        invariant 0 <= i <= count
        invariant forall k :: 0 <= k < i ==> !ListHolds(data[k].Contents(), alist.Contents(), nprec)
      {
        var h := data[i].HoldsIn(alist, nprec);
        if h {
          assert ListHolds(data[i].Contents(), alist.Contents(), nprec);
          return true;
        }
        i := i + 1;
      }
      return false;
    }

    /** Some member holds the same atoms as `t`. */
    predicate HasMember(t: seq<int>)
      reads this, data, set k | 0 <= k < data.Length :: data[k],
        set k | 0 <= k < data.Length && data[k] != null :: data[k].data
      requires Valid()
    {
      exists j :: 0 <= j < count && SameAtoms(data[j].Contents(), t)
    }

    /** One of the two loops of `operator==`: every member here has an
        equal member in `other`. */
    method IncludedIn(other: AtomListList) returns (b: bool)
      requires Valid() && other.Valid()
      ensures b <==> forall i :: 0 <= i < count ==> other.HasMember(data[i].Contents())
    {
      var i := 0;
      while i < count
        invariant 0 <= i <= count
        invariant forall k :: 0 <= k < i ==> other.HasMember(data[k].Contents())
      {
        var found := other.Find(data[i]);
        if !found {
          return false;
        }
        i := i + 1;
      }
      return true;
    }

    /** `operator==`: every member of each has an equal member in the
        other. */
    method SameAs(other: AtomListList) returns (b: bool)
      requires Valid() && other.Valid()
      ensures b <==>
        (forall i :: 0 <= i < count ==> other.HasMember(data[i].Contents())) &&
        (forall j :: 0 <= j < other.count ==> HasMember(other.data[j].Contents()))
    {
      b := IncludedIn(other);
      if b {
        b := other.IncludedIn(this);
      }
    }
  }

  // ---------------------------------------------------------------------
  // __powerset
  // ---------------------------------------------------------------------

  /** `__powerset(input, it, tmp_list, result)`: the atoms already chosen
      are `chosen`, the atoms from `it` to the end are `rest`.  Every subset
      that takes the next atom is emitted before every subset that skips
      it. */
  function PowerSets(chosen: set<int>, rest: seq<int>): seq<set<int>>
    decreases |rest|
  {
    if |rest| == 0 then [chosen]
    else PowerSets(chosen + {rest[0]}, rest[1..]) + PowerSets(chosen, rest[1..])
  }

  function Pow2(n: nat): (p: nat)
    ensures p >= 1
  {
    if n == 0 then 1 else 2 * Pow2(n - 1)
  }

  /** `powerset` over `n` atoms yields `2^n` sets, the whole set first and
      the empty set last. */
  lemma {:induction false} PowerSetsShape(chosen: set<int>, rest: seq<int>)
    ensures |PowerSets(chosen, rest)| == Pow2(|rest|)
    ensures PowerSets(chosen, rest)[0] == chosen + set x | x in rest
    ensures PowerSets(chosen, rest)[Pow2(|rest|) - 1] == chosen
    decreases |rest|
  {
    if |rest| > 0 {
      PowerSetsShape(chosen + {rest[0]}, rest[1..]);
      PowerSetsShape(chosen, rest[1..]);
      assert (set x | x in rest) == {rest[0]} + set x | x in rest[1..];
    }
  }

  /** Every emitted set is the chosen atoms plus some of the rest, and
      every such set is emitted. */
  lemma {:induction false} PowerSetsComplete(chosen: set<int>, rest: seq<int>, sub: set<int>)
    ensures sub <= (set x | x in rest) ==> chosen + sub in PowerSets(chosen, rest)
    decreases |rest|
  {
    if |rest| == 0 {
      if sub <= (set x | x in rest) {
        assert sub == {};
        assert chosen + sub == chosen;
      }
    } else if sub <= (set x | x in rest) {
      var x := rest[0];
      var r := rest[1..];
      assert rest == [x] + r;
      assert sub - {x} <= (set y | y in r);
      if x in sub {
        PowerSetsComplete(chosen + {x}, r, sub - {x});
        assert chosen + {x} + (sub - {x}) == chosen + sub;
      } else {
        PowerSetsComplete(chosen, r, sub);
        assert sub == sub - {x};
      }
    }
  }

  /** Every emitted set lies between the chosen atoms and the chosen atoms
      plus the rest. */
  lemma {:induction false} PowerSetsSound(chosen: set<int>, rest: seq<int>)
    ensures forall t :: t in PowerSets(chosen, rest) ==>
      chosen <= t && t <= chosen + set x | x in rest
    decreases |rest|
  {
    if |rest| > 0 {
      PowerSetsSound(chosen + {rest[0]}, rest[1..]);
      PowerSetsSound(chosen, rest[1..]);
      assert (set x | x in rest) == {rest[0]} + set x | x in rest[1..];
    }
  }
}
