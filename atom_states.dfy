/** Bitset states of the mGPT planner core (`state_t`).

  A state is an array of unsigned 32-bit words; atom `a` is bit `a % 32`
  of word `a >> 5`.  Every state of a problem has the same number of
  words (the static `size_`), which `initialize` sets from the number of
  atoms.  Atoms are unsigned shorts, so a state has at most 2048 words.
*/
module AtomStates {
  import opened Wrappers
  import opened AtomLists
  import Utils
  import Rationals
  import opened Words
  import opened CInt

  /** 2048 words of 32 bits cover every unsigned short atom. */
  const MaxWords: nat := 2048

  // ---------------------------------------------------------------------
  // Specification on sequences of words
  // ---------------------------------------------------------------------

  /** `initialize`: the number of words, `ceil(number_atoms / 32)`. */
  function WordCount(n: nat): (w: nat)
    ensures 32 * w >= n
    ensures w > 0 ==> 32 * (w - 1) < n
  {
    (n + 31) / 32
  }

  /** The words of a fresh state: all clear. */
  function Zeros(n: nat): (ws: seq<bv32>)
    ensures |ws| == n
  {
    seq(n, _ => 0)
  }

  /** `holds(a)`: bit `a % 32` of word `a >> 5`. */
  predicate Holds(ws: seq<bv32>, a: nat) {
    a < 32 * |ws| && BitAt(ws[a / 32], a % 32)
  }

  /** The word `w` with bit `j` set, `w | (1 << j)`. */
  function SetWord(w: bv32, j: nat): bv32
    requires j < 32
  {
    w | Mask(j)
  }

  /** The word `w` with bit `j` cleared, `w & ~(1 << j)`. */
  function ClearWord(w: bv32, j: nat): bv32
    requires j < 32
  {
    w & !Mask(j)
  }

  /** The word test `w & (1 << j)`: bit `j` of `w`. */
  function TestBit(w: bv32, j: nat): (b: bool)
    requires j < 32
    ensures b == BitAt(w, j)
  {
    var m := Mask(j);
    MaskIsMask(j);
    TestMask(w, m, j);
    w & m != 0
  }

  lemma SetWordBit(w: bv32, j: nat, k: nat)
    requires j < 32
    ensures BitAt(SetWord(w, j), k) == (k == j || BitAt(w, k))
  {
    MaskIsMask(j);
    SetBit(w, Mask(j), j, k);
  }

  lemma ClearWordBit(w: bv32, j: nat, k: nat)
    requires j < 32
    ensures BitAt(ClearWord(w, j), k) == (k != j && BitAt(w, k))
  {
    MaskIsMask(j);
    ClearBit(w, Mask(j), j, k);
  }

  /** The words after `add(a)`. */
  function Added(ws: seq<bv32>, a: nat): (r: seq<bv32>)
    requires a < 32 * |ws|
    ensures |r| == |ws|
  {
    ws[a / 32 := SetWord(ws[a / 32], a % 32)]
  }

  /** The words after `clear(a)`. */
  function Cleared(ws: seq<bv32>, a: nat): (r: seq<bv32>)
    requires a < 32 * |ws|
    ensures |r| == |ws|
  {
    ws[a / 32 := ClearWord(ws[a / 32], a % 32)]
  }

  /** Every atom of `s` lies in a state of `n` words. */
  predicate InRange(s: seq<int>, n: nat) {
    forall i :: 0 <= i < |s| ==> 0 <= s[i] < 32 * n
  }

  /** The atoms of `s` added one after another. */
  function AddAll(ws: seq<bv32>, s: seq<int>): (r: seq<bv32>)
    requires InRange(s, |ws|)
    ensures |r| == |ws|
  {
    if |s| == 0 then ws else Added(AddAll(ws, s[..|s| - 1]), s[|s| - 1])
  }

  /** Two atoms of the same word are equal exactly when their positions
      are. */
  lemma SameWordPos(a: nat, b: nat)
    requires a / 32 == b / 32
    ensures (a % 32 == b % 32) == (a == b)
  {
  }

  /** The bit of atom `b` after the word of `a` is replaced by `w`. */
  lemma UpdatedWord(ws: seq<bv32>, a: nat, b: nat, w: bv32)
    requires a < 32 * |ws| && b < 32 * |ws| && b / 32 == a / 32
    ensures Holds(ws[a / 32 := w], b) == BitAt(w, b % 32)
    ensures Holds(ws, b) == BitAt(ws[a / 32], b % 32)
  {
  }

  /** Adding `a` sets `a` and no other atom. */
  lemma AddedHolds(ws: seq<bv32>, a: nat, b: nat)
    requires a < 32 * |ws|
    ensures Holds(Added(ws, a), b) == (b == a || Holds(ws, b))
  {
    if b < 32 * |ws| && b / 32 == a / 32 {
      var w := ws[a / 32];
      UpdatedWord(ws, a, b, SetWord(w, a % 32));
      SetWordBit(w, a % 32, b % 32);
      SameWordPos(a, b);
    }
  }

  /** Clearing `a` clears `a` and no other atom. */
  lemma ClearedHolds(ws: seq<bv32>, a: nat, b: nat)
    requires a < 32 * |ws|
    ensures Holds(Cleared(ws, a), b) == (b != a && Holds(ws, b))
  {
    if b < 32 * |ws| && b / 32 == a / 32 {
      var w := ws[a / 32];
      UpdatedWord(ws, a, b, ClearWord(w, a % 32));
      ClearWordBit(w, a % 32, b % 32);
      SameWordPos(a, b);
    }
  }

  /** A fresh state holds no atom. */
  lemma ZerosHoldNothing(n: nat, b: nat)
    ensures !Holds(Zeros(n), b)
  {
    ZeroBit(b % 32);
  }

  /** After adding the atoms of `s`, exactly those and the atoms already
      present hold. */
  lemma {:induction false} AddAllHolds(ws: seq<bv32>, s: seq<int>, b: nat)
    requires InRange(s, |ws|)
    ensures Holds(AddAll(ws, s), b) == (b in s || Holds(ws, b))
    decreases |s|
  {
    if |s| > 0 {
      var p := s[..|s| - 1];
      AddAllHolds(ws, p, b);
      AddedHolds(AddAll(ws, p), s[|s| - 1], b);
      assert s == p + [s[|s| - 1]];
    }
  }

  /** Bit `k` of word `i` is atom `32 * i + k`. */
  lemma AtomOfBit(ws: seq<bv32>, i: nat, k: nat)
    requires i < |ws| && k < 32
    ensures Holds(ws, 32 * i + k) == BitAt(ws[i], k)
  {
    assert (32 * i + k) / 32 == i && (32 * i + k) % 32 == k;
  }

  /** Two states of the same size are equal exactly when the same atoms
      hold in them. */
  lemma SameAtomsSameWords(ws: seq<bv32>, vs: seq<bv32>)
    requires |ws| == |vs|
    ensures ws == vs <==> forall b: nat :: Holds(ws, b) == Holds(vs, b)
  {
    if forall b: nat :: Holds(ws, b) == Holds(vs, b) {
      forall i | 0 <= i < |ws| ensures ws[i] == vs[i] {
        forall k: nat | k < 32 ensures BitAt(ws[i], k) == BitAt(vs[i], k) {
          AtomOfBit(ws, i, k);
          AtomOfBit(vs, i, k);
          assert Holds(ws, 32 * i + k) == Holds(vs, 32 * i + k);
        }
        assert AgreeBelow(ws[i], vs[i], 32);
        WordExt(ws[i], vs[i]);
      }
    }
  }

  /** Adding an atom that already holds changes nothing. */
  lemma AddPresentIsNoop(ws: seq<bv32>, a: nat)
    requires Holds(ws, a)
    ensures Added(ws, a) == ws
  {
    forall b: nat ensures Holds(Added(ws, a), b) == Holds(ws, b) {
      AddedHolds(ws, a, b);
    }
    SameAtomsSameWords(Added(ws, a), ws);
  }

  /** Clearing an atom that does not hold changes nothing. */
  lemma ClearAbsentIsNoop(ws: seq<bv32>, a: nat)
    requires a < 32 * |ws| && !Holds(ws, a)
    ensures Cleared(ws, a) == ws
  {
    forall b: nat ensures Holds(Cleared(ws, a), b) == Holds(ws, b) {
      ClearedHolds(ws, a, b);
    }
    SameAtomsSameWords(Cleared(ws, a), ws);
  }

  // ---------------------------------------------------------------------
  // Iteration over the atoms that hold
  // ---------------------------------------------------------------------

  /** The first atom at or after `a` that holds, or `32 * |ws|` (the end
      iterator, `size() << 5`) when there is none. */
  function NextSet(ws: seq<bv32>, a: nat): (r: nat)
    ensures r <= 32 * |ws|
    ensures r < 32 * |ws| ==> a <= r && Holds(ws, r)
    ensures forall b: nat :: a <= b < r ==> !Holds(ws, b)
    decreases 32 * |ws| - a
  {
    if a >= 32 * |ws| then 32 * |ws|
    else if Holds(ws, a) then a
    else NextSet(ws, a + 1)
  }

  /** `NextSet` is the only index with its defining properties. */
  lemma NextSetIs(ws: seq<bv32>, a: nat, r: nat)
    requires a <= r <= 32 * |ws|
    requires r < 32 * |ws| ==> Holds(ws, r)
    requires forall b: nat :: a <= b < r ==> !Holds(ws, b)
    ensures NextSet(ws, a) == r
  {
  }

  /** Searching from a found atom finds it again. */
  lemma NextSetIdempotent(ws: seq<bv32>, a: nat)
    ensures NextSet(ws, NextSet(ws, a)) == NextSet(ws, a)
  {
    var n := NextSet(ws, a);
    NextSetIs(ws, n, n);
  }

  /** A stretch of atoms that do not hold can be skipped. */
  lemma SkipEmpty(ws: seq<bv32>, x: nat, y: nat)
    requires x <= y <= 32 * |ws|
    requires forall b: nat :: x <= b < y ==> !Holds(ws, b)
    ensures NextSet(ws, x) == NextSet(ws, y)
  {
    var n := NextSet(ws, y);
    NextSetIs(ws, x, n);
  }

  /** Bits `n` to 31 of word `i` are clear when the word shifted right `n`
      times is zero. */
  lemma HighPartZero(ws: seq<bv32>, i: nat, n: nat)
    requires i < |ws| && n <= 32 && ShiftN(ws[i], n) == 0
    ensures forall b: nat :: 32 * i + n <= b < 32 * i + 32 ==> !Holds(ws, b)
  {
    forall b: nat | 32 * i + n <= b < 32 * i + 32
      ensures !Holds(ws, b)
    {
      var k := b - 32 * i;
      AtomOfBit(ws, i, k);
      ShiftBit(ws[i], n, k - n);
      ZeroBit(k - n);
    }
  }

  /** The atoms after bit `j` of word `i` do not hold when the word shifted
      right `j + 1` times is zero. */
  lemma RestOfWordEmpty(ws: seq<bv32>, i: nat, j: nat)
    requires i < |ws| && j < 31 && ShiftN(ws[i], j + 1) == 0
    ensures NextSet(ws, 32 * i + j + 1) == NextSet(ws, 32 * (i + 1))
  {
    HighPartZero(ws, i, j + 1);
    SkipEmpty(ws, 32 * i + j + 1, 32 * i + 32);
  }

  /** The lowest bit of word `i` shifted right `k` times is atom
      `32 * i + k`. */
  lemma ShiftedBitIsAtom(ws: seq<bv32>, i: nat, k: nat)
    requires i < |ws| && k < 32
    ensures Odd(ShiftN(ws[i], k)) == Holds(ws, 32 * i + k)
  {
    ShiftBit(ws[i], k, 0);
    AtomOfBit(ws, i, k);
  }

  /** One round of the bit scan: an even word is a bit that does not hold,
      and the shifted word is still non-zero, so the scan stays in the
      word. */
  lemma ScanStep(ws: seq<bv32>, wi: nat, k: nat, d: bv32)
    requires wi < |ws| && k < 32 && d == ShiftN(ws[wi], k) && d != 0 && d % 2 == 0
    ensures !Holds(ws, 32 * wi + k)
    ensures k + 1 < 32 && d >> 1 == ShiftN(ws[wi], k + 1) && d >> 1 != 0
  {
    EvenIsNotOdd(d);
    ShiftedBitIsAtom(ws, wi, k);
    EvenNonZero(d);
    if k + 1 == 32 {
      ShiftOut(ws[wi]);
    }
  }

  /** The bit scan stops on an odd word: an atom that holds. */
  lemma ScanStop(ws: seq<bv32>, wi: nat, k: nat, d: bv32)
    requires wi < |ws| && k < 32 && d == ShiftN(ws[wi], k) && d % 2 != 0
    ensures Holds(ws, 32 * wi + k)
  {
    EvenIsNotOdd(d);
    ShiftedBitIsAtom(ws, wi, k);
  }

  /** An even non-zero word stays non-zero after a shift. */
  lemma EvenNonZero(d: bv32)
    requires d != 0 && !Odd(d)
    ensures Half(d) != 0
  {
    if Half(d) == 0 {
      Recompose(d, 0);
    }
  }

  /** The atoms that hold from `a` on, in the order the state iterator
      visits them. */
  function AtomsFrom(ws: seq<bv32>, a: nat): seq<nat>
    decreases 32 * |ws| - a
  {
    var n := NextSet(ws, a);
    if n >= 32 * |ws| then []
    else [n] + AtomsFrom(ws, n + 1)
  }

  /** The atoms that hold, in the order the state iterator visits them. */
  function Atoms(ws: seq<bv32>): seq<nat> {
    AtomsFrom(ws, 0)
  }

  /** The list from `a` holds exactly the atoms from `a` on that hold. */
  lemma {:induction false} AtomsFromMembers(ws: seq<bv32>, a: nat)
    ensures forall b: nat :: b in AtomsFrom(ws, a) <==> a <= b && Holds(ws, b)
    decreases 32 * |ws| - a
  {
    var n := NextSet(ws, a);
    if n < 32 * |ws| {
      AtomsFromMembers(ws, n + 1);
      assert AtomsFrom(ws, a) == [n] + AtomsFrom(ws, n + 1);
    }
  }

  /** The list from `a` is strictly increasing, each atom at least `a` and
      inside the state. */
  lemma {:induction false} AtomsFromOrdered(ws: seq<bv32>, a: nat)
    ensures forall i, j :: 0 <= i < j < |AtomsFrom(ws, a)| ==> AtomsFrom(ws, a)[i] < AtomsFrom(ws, a)[j]
    ensures forall i :: 0 <= i < |AtomsFrom(ws, a)| ==> a <= AtomsFrom(ws, a)[i] < 32 * |ws|
    decreases 32 * |ws| - a
  {
    var n := NextSet(ws, a);
    if n < 32 * |ws| {
      AtomsFromOrdered(ws, n + 1);
      var r := AtomsFrom(ws, n + 1);
      assert AtomsFrom(ws, a) == [n] + r;
      forall i | 0 <= i < |r|
        ensures n < r[i]
      {
      }
    }
  }

  /** The iterator visits the atoms in strictly increasing order. */
  lemma AtomsInOrder(ws: seq<bv32>)
    ensures forall i, j :: 0 <= i < j < |Atoms(ws)| ==> Atoms(ws)[i] < Atoms(ws)[j]
    ensures forall i :: 0 <= i < |Atoms(ws)| ==> Atoms(ws)[i] < 32 * |ws|
  {
    AtomsFromOrdered(ws, 0);
  }

  /** Starting from the next atom that holds lists the same atoms. */
  lemma AtomsFromNext(ws: seq<bv32>, a: nat)
    ensures AtomsFrom(ws, NextSet(ws, a)) == AtomsFrom(ws, a)
  {
    NextSetIdempotent(ws, a);
  }

  /** The list from an atom that holds starts with that atom. */
  lemma AtomsFromHeld(ws: seq<bv32>, a: nat)
    requires a < 32 * |ws| && Holds(ws, a)
    ensures AtomsFrom(ws, a) == [a] + AtomsFrom(ws, NextSet(ws, a + 1))
  {
    NextSetIs(ws, a, a);
    AtomsFromNext(ws, a + 1);
  }

  /** The atoms listed in a state are exactly the atoms that hold. */
  lemma AtomsMembers(ws: seq<bv32>, b: nat)
    ensures b in Atoms(ws) <==> Holds(ws, b)
  {
    AtomsFromMembers(ws, 0);
  }

  /** A state is rebuilt by adding its atoms to a fresh state. */
  lemma AddAtomsRebuilds(ws: seq<bv32>)
    ensures InRange(Atoms(ws), |ws|)
    ensures AddAll(Zeros(|ws|), Atoms(ws)) == ws
  {
    var s := Atoms(ws);
    var z := Zeros(|ws|);
    AtomsInOrder(ws);
    forall b: nat
      ensures Holds(AddAll(z, s), b) == Holds(ws, b)
    {
      AddAllHolds(z, s, b);
      ZerosHoldNothing(|ws|, b);
      AtomsMembers(ws, b);
    }
    SameAtomsSameWords(AddAll(z, s), ws);
  }

  // ---------------------------------------------------------------------
  // code() and toString()
  // ---------------------------------------------------------------------

  /** The bits that `c | (1 << k)` sets in the `size_t` code.  The literal
      `1` is a C `int`: for `k` below 31 the shift sets bit `k` alone; for
      `k` = 31 it gives INT_MIN, which the conversion to the 64-bit `size_t`
      sign-extends into bits 31 to 63.  A shift by 32 or more is undefined. */
  function ShiftedBits(k: nat): (r: set<nat>)
    requires k < 32
    ensures k in r && forall b :: b in r ==> k <= b < 64
  {
    if k < 31 then {k} else BitRange(31, 64)
  }

  /** The bit positions from `lo` up to, but not including, `hi`. */
  function BitRange(lo: nat, hi: nat): (r: set<nat>)
    ensures forall b :: b in r <==> lo <= b < hi
    decreases hi - lo
  {
    if lo >= hi then {} else {lo} + BitRange(lo + 1, hi)
  }

  /** `code()` over a list of atoms: the process stops on the first odd
      atom, and an even atom of 64 or more shifts past the width of `int`;
      otherwise `ShiftedBits(a / 2)` is set for every atom `a`.  The number
      is given by the set of its bits. */
  function CodeOf(atoms: seq<nat>): Result<set<nat>>
    decreases |atoms|
  {
    if |atoms| == 0 then Ok({})
    else
      match CodeOf(atoms[..|atoms| - 1])
      case Err(e) => Err(e)
      case Ok(c) =>
        var a := atoms[|atoms| - 1];
        if a % 2 == 1 then Err(Die)
        else if a / 2 >= 32 then Err(UndefinedBehaviour)
        else Ok(c + ShiftedBits(a / 2))
  }

  /** The code is defined exactly when every atom is even (positive) and
      below 64; bit `k` below 31 is then set exactly for atom `2k`, and bits
      31 to 63 exactly when atom 62 holds. */
  lemma {:induction false} CodeOfMeaning(atoms: seq<nat>)
    ensures CodeOf(atoms).Ok? <==> forall i :: 0 <= i < |atoms| ==> atoms[i] % 2 == 0 && atoms[i] < 64
    ensures CodeOf(atoms).Ok? ==>
      forall k :: k in CodeOf(atoms).value <==> if k < 31 then 2 * k in atoms else k < 64 && 62 in atoms
    ensures (forall i :: 0 <= i < |atoms| ==> atoms[i] < 64) ==>
      (CodeOf(atoms) == Err(Die) <==> exists i :: 0 <= i < |atoms| && atoms[i] % 2 == 1)
  {
    CodeOfDefined(atoms);
    CodeOfBits(atoms);
    CodeOfDies(atoms);
  }

  /** The code is defined exactly when every atom is even and below 64. */
  lemma {:induction false} CodeOfDefined(atoms: seq<nat>)
    ensures CodeOf(atoms).Ok? <==> forall i :: 0 <= i < |atoms| ==> atoms[i] % 2 == 0 && atoms[i] < 64
    decreases |atoms|
  {
    if |atoms| > 0 {
      var p := atoms[..|atoms| - 1];
      CodeOfDefined(p);
      assert forall i :: 0 <= i < |p| ==> p[i] == atoms[i];
    }
  }

  /** A defined code sets bit `k` below 31 exactly for atom `2k`, and bits
      31 to 63 exactly for atom 62. */
  lemma {:induction false} CodeOfBits(atoms: seq<nat>)
    ensures CodeOf(atoms).Ok? ==>
      forall k :: k in CodeOf(atoms).value <==> if k < 31 then 2 * k in atoms else k < 64 && 62 in atoms
    decreases |atoms|
  {
    if |atoms| > 0 && CodeOf(atoms).Ok? {
      var p, a := atoms[..|atoms| - 1], atoms[|atoms| - 1];
      CodeOfBits(p);
      var c := CodeOf(p).value;
      assert a % 2 == 0 && a / 2 < 32;
      assert CodeOf(atoms).value == c + ShiftedBits(a / 2);
      assert atoms == p + [a];
      forall k
        ensures k in CodeOf(atoms).value <==> if k < 31 then 2 * k in atoms else k < 64 && 62 in atoms
      {
        assert 2 * k in atoms <==> 2 * k in p || 2 * k == a;
        assert 62 in atoms <==> 62 in p || a == 62;
      }
    }
  }

  /** With every atom below 64, the code stops the program exactly when an
      atom is odd (negative). */
  lemma {:induction false} CodeOfDies(atoms: seq<nat>)
    ensures (forall i :: 0 <= i < |atoms| ==> atoms[i] < 64) ==>
      (CodeOf(atoms) == Err(Die) <==> exists i :: 0 <= i < |atoms| && atoms[i] % 2 == 1)
    decreases |atoms|
  {
    if |atoms| > 0 && forall i :: 0 <= i < |atoms| ==> atoms[i] < 64 {
      var p, a := atoms[..|atoms| - 1], atoms[|atoms| - 1];
      CodeOfDies(p);
      CodeOfDefined(p);
      assert forall i :: 0 <= i < |p| ==> p[i] == atoms[i];
      assert (exists i :: 0 <= i < |atoms| && atoms[i] % 2 == 1) <==>
        (exists i :: 0 <= i < |p| && p[i] % 2 == 1) || a % 2 == 1;
    }
  }

  /** Two atom lists with the same defined code have the same atoms. */
  lemma SameCodeSameAtoms(s: seq<nat>, t: seq<nat>, b: nat)
    requires CodeOf(s).Ok? && CodeOf(s) == CodeOf(t)
    requires b in s
    ensures b in t
  {
    CodeOfMeaning(s);
    CodeOfMeaning(t);
    var i :| 0 <= i < |s| && s[i] == b;
    assert b % 2 == 0 && b < 64;
    assert b / 2 in CodeOf(s).value;
    EvenHalf(b);
  }

  lemma EvenHalf(x: nat)
    requires x % 2 == 0
    ensures 2 * (x / 2) == x
  {
  }

  /** States whose code is defined and equal are equal: within the atoms
      for which the shift is defined, the code is unique for states of
      positive atoms. */
  lemma CodeInjective(ws: seq<bv32>, vs: seq<bv32>)
    requires |ws| == |vs|
    requires CodeOf(Atoms(ws)).Ok? && CodeOf(Atoms(ws)) == CodeOf(Atoms(vs))
    ensures ws == vs
  {
    forall b: nat
      ensures Holds(ws, b) == Holds(vs, b)
    {
      AtomsMembers(ws, b);
      AtomsMembers(vs, b);
      if b in Atoms(ws) {
        SameCodeSameAtoms(Atoms(ws), Atoms(vs), b);
      }
      if b in Atoms(vs) {
        SameCodeSameAtoms(Atoms(vs), Atoms(ws), b);
      }
    }
    SameAtomsSameWords(ws, vs);
  }

  /** The printed atoms. */
  function Numerals(atoms: seq<nat>): (r: seq<string>)
    ensures |r| == |atoms|
    ensures forall i :: 0 <= i < |atoms| ==> r[i] == Rationals.NatToString(atoms[i])
  {
    if |atoms| == 0 then [] else Numerals(atoms[..|atoms| - 1]) + [Rationals.NatToString(atoms[|atoms| - 1])]
  }

  /** `toString(print_braces)`: the atoms in increasing order separated by
      single spaces, between brackets when asked for. */
  function Shown(ws: seq<bv32>, braces: bool): string {
    (if braces then "[" else "") + Utils.Join(Numerals(Atoms(ws)), ' ') + (if braces then "]" else "")
  }

  // ---------------------------------------------------------------------
  // The string constructor with atom indices
  // ---------------------------------------------------------------------

  /** The white space `atoi` skips. */
  predicate IsSpace(c: char) {
    c == ' ' || c == '\t' || c == '\n' || c == '\r' || c == '\U{B}' || c == '\U{C}'
  }

  /** How many decimal digits `s` starts with. */
  function LeadingDigits(s: string): (n: nat)
    ensures n <= |s|
    ensures forall i :: 0 <= i < n ==> Rationals.IsDigit(s[i])
    ensures n < |s| ==> !Rationals.IsDigit(s[n])
  {
    if |s| > 0 && Rationals.IsDigit(s[0]) then 1 + LeadingDigits(s[1..]) else 0
  }

  /** The C library's `atoi` on values that fit an `int`: leading white
      space, an optional sign, then as many digits as follow. */
  function Atoi(s: string): int
    decreases |s|
  {
    if |s| > 0 && IsSpace(s[0]) then Atoi(s[1..])
    else if |s| > 0 && s[0] == '-' then -Rationals.DigitsValue(s[1..][..LeadingDigits(s[1..])])
    else if |s| > 0 && s[0] == '+' then Rationals.DigitsValue(s[1..][..LeadingDigits(s[1..])])
    else Rationals.DigitsValue(s[..LeadingDigits(s)])
  }

  /** `atoi` reads back a printed natural number. */
  lemma AtoiOfNumeral(n: nat)
    ensures Atoi(Rationals.NatToString(n)) == n
  {
    var s := Rationals.NatToString(n);
    assert !IsSpace(s[0]) && s[0] != '-' && s[0] != '+';
    LeadingDigitsAll(s);
    assert s[..|s|] == s;
    Rationals.DigitsValueOfNat(n);
  }

  lemma {:induction false} LeadingDigitsAll(s: string)
    requires forall i :: 0 <= i < |s| ==> Rationals.IsDigit(s[i])
    ensures LeadingDigits(s) == |s|
    decreases |s|
  {
    if |s| > 0 {
      LeadingDigitsAll(s[1..]);
    }
  }

  /** The `unsigned short` an `int` converts to. */
  function ToUShort(x: int): (a: Atom)
    ensures 0 <= x <= UShortMax ==> a == x
  {
    x % (UShortMax + 1)
  }

  /** The words after adding the atom of every non-empty id in turn; an
      atom past the last word is a write out of the buffer. */
  function AddIds(ws: seq<bv32>, ids: seq<string>): (r: Result<seq<bv32>>)
    ensures r.Ok? ==> |r.value| == |ws|
    decreases |ids|
  {
    if |ids| == 0 then Ok(ws)
    else
      match AddIds(ws, ids[..|ids| - 1])
      case Err(e) => Err(e)
      case Ok(vs) =>
        var id := ids[|ids| - 1];
        if id == "" then Ok(vs)
        else
          var a := ToUShort(Atoi(id));
          if a < 32 * |vs| then Ok(Added(vs, a)) else Err(IndexError)
  }

  /** `state_t(str, true)`: the string split at single spaces, each
      non-empty piece an atom index. */
  function Parsed(str: string, n: nat): Result<seq<bv32>> {
    match Utils.Split(str, " ")
    case Err(e) => Err(e)
    case Ok(ids) => AddIds(Zeros(n), ids)
  }

  lemma {:induction false} AddIdsOfNumerals(ws: seq<bv32>, s: seq<nat>)
    requires InRange(s, |ws|) && 32 * |ws| <= UShortMax + 1
    ensures AddIds(ws, Numerals(s)) == Ok(AddAll(ws, s))
    decreases |s|
  {
    if |s| > 0 {
      var p := s[..|s| - 1];
      var a := s[|s| - 1];
      assert Numerals(s)[..|s| - 1] == Numerals(p);
      AddIdsOfNumerals(ws, p);
      AtoiOfNumeral(a);
    }
  }

  /** Printing a state without brackets and reading it back with atom
      indices gives the same state. */
  lemma ShownParsedRoundTrip(ws: seq<bv32>)
    requires |ws| <= MaxWords
    ensures Parsed(Shown(ws, false), |ws|) == Ok(ws)
  {
    var s := Atoms(ws);
    var ids := Numerals(s);
    AddAtomsRebuilds(ws);
    assert Shown(ws, false) == Utils.Join(ids, ' ');
    if |s| == 0 {
      assert Utils.Join(ids, ' ') == "";
    } else {
      forall k | 0 <= k < |ids|
        ensures ' ' !in ids[k]
      {
        assert ids[k] == Rationals.NatToString(s[k]);
      }
      Utils.JoinPieces(ids, ' ');
      assert Utils.Join(ids, ' ') != "" by {
        if |ids| == 1 {
          assert Utils.Join(ids, ' ') == ids[0];
        }
      }
      assert Utils.Split(Shown(ws, false), " ") == Ok(ids);
    }
    AddIdsOfNumerals(Zeros(|ws|), s);
  }

  // ---------------------------------------------------------------------
  // Conditions evaluated on a state (atomList_t::holds(state))
  // ---------------------------------------------------------------------

  /** One condition atom holds in a state: as in `LiteralHolds`, with the
      state's bits in place of the atom set. */
  predicate StateLiteralHolds(ws: seq<bv32>, a: Atom, nprec: bool) {
    if nprec then Holds(ws, a) else if a % 2 == 1 then !Holds(ws, a - 1) else Holds(ws, a)
  }

  predicate StateListHolds(ws: seq<bv32>, s: seq<Atom>, nprec: bool) {
    forall i :: 0 <= i < |s| ==> StateLiteralHolds(ws, s[i], nprec)
  }

  /** A condition holds in a state exactly when it holds in the state's
      list of atoms. */
  lemma StateListHoldsIsListHolds(ws: seq<bv32>, s: seq<Atom>, nprec: bool)
    ensures StateListHolds(ws, s, nprec) == ListHolds(s, Atoms(ws), nprec)
  {
    forall i | 0 <= i < |s|
      ensures StateLiteralHolds(ws, s[i], nprec) == LiteralHolds(Atoms(ws), s[i], nprec)
    {
      AtomsMembers(ws, s[i]);
      if s[i] % 2 == 1 {
        AtomsMembers(ws, s[i] - 1);
      }
    }
  }

  /** Every atom of `s` is an atom of a state of `n` words. */
  predicate AtomsInState(s: seq<Atom>, n: nat) {
    forall i :: 0 <= i < |s| ==> s[i] < 32 * n
  }

  // ---------------------------------------------------------------------
  // state_t
  // ---------------------------------------------------------------------

  class State {
    /** The words `data_`; the array length is the static `size_`. */
    const data: array<bv32>

    predicate Valid() {
      data.Length <= MaxWords
    }

    /** `state_t()`: a fresh state of `size` words, all clear. */
    constructor (size: nat)
      requires size <= MaxWords
      ensures Valid() && fresh(data) && data[..] == Zeros(size)
    {
      data := new bv32[size](_ => 0);
    }

    /** The copy constructor: a fresh buffer holding the same words. */
    constructor Copy(other: State)
      ensures fresh(data) && data[..] == other.data[..]
    {
      var buf := new bv32[other.data.Length];
      var i := 0;
      while i < buf.Length
        invariant 0 <= i <= buf.Length
        invariant buf[..i] == other.data[..i]
      {
        buf[i] := other.data[i];
        i := i + 1;
      }
      data := buf;
    }

    /** `state_t(atomList)`: a fresh state with the atoms of the list. */
    constructor FromAtomList(size: nat, alist: AtomList)
      requires size <= MaxWords && alist.Valid()
      requires AtomsInState(alist.Contents(), size)
      ensures fresh(data) && data[..] == AddAll(Zeros(size), alist.Contents())
    {
      data := new bv32[size](_ => 0);
      new;
      var s := alist.Contents();
      var i := 0;
      while i < alist.count
        invariant 0 <= i <= alist.count
        invariant data[..] == AddAll(Zeros(size), s[..i])
        modifies data
      {
        assert s[..i + 1][..i] == s[..i];
        var _ := Add(alist.data[i]);
        i := i + 1;
      }
      assert s[..i] == s;
    }

    /** `operator=`: the words of `other` copied over, unless it is this
        very state. */
    method Assign(other: State)
      requires other.data.Length == data.Length
      modifies data
      ensures data[..] == old(other.data[..])
    {
      if other == this {
        return;
      }
      ghost var src := other.data[..];
      var i := 0;
      while i < data.Length
        invariant 0 <= i <= data.Length
        invariant data[..i] == src[..i]
        invariant other.data[i..] == src[i..]
      {
        data[i] := other.data[i];
        i := i + 1;
      }
    }

    /** `operator==`: the word buffers compare equal (`memcmp`). */
    method Equals(other: State) returns (b: bool)
      requires other.data.Length == data.Length
      ensures b == (data[..] == other.data[..])
    {
      var i := 0;
      while i < data.Length
        invariant 0 <= i <= data.Length
        invariant data[..i] == other.data[..i]
      {
        if data[i] != other.data[i] {
          assert data[..][i] != other.data[..][i];
          return false;
        }
        i := i + 1;
      }
      assert data[..] == data[..i];
      return true;
    }

    /** `holds(atom)`: the atom's bit in its word. */
    method HoldsAtom(a: Atom) returns (b: bool)
      requires a < 32 * data.Length
      ensures b == Holds(data[..], a)
    {
      b := TestBit(data[a / 32], a % 32);
    }

    /** `add(atom)`: sets the atom (and nothing else) and tells whether it
        was absent. */
    method Add(a: Atom) returns (rv: bool)
      requires a < 32 * data.Length
      modifies data
      ensures rv == !Holds(old(data[..]), a)
      ensures data[..] == Added(old(data[..]), a)
    {
      var i, j := a / 32, a % 32;
      rv := !TestBit(data[i], j);
      data[i] := SetWord(data[i], j);
    }

    /** `clear(atom)`: clears the atom (and nothing else) and tells whether
        it was present. */
    method Clear(a: Atom) returns (rv: bool)
      requires a < 32 * data.Length
      modifies data
      ensures rv == Holds(old(data[..]), a)
      ensures data[..] == Cleared(old(data[..]), a)
    {
      var i, j := a / 32, a % 32;
      rv := TestBit(data[i], j);
      data[i] := ClearWord(data[i], j);
    }

    /** The inner loop of the iterator: from bit `j` of word `wi`, shifted
        into `word`, step to the lowest set bit. */
    method ScanWord(wi: nat, j: nat, word: bv32) returns (r: nat)
      requires wi < data.Length && j < 32
      requires word == ShiftN(data[wi], j) && word != 0
      ensures r == NextSet(data[..], 32 * wi + j)
    {
      ghost var ws := data[..];
      var d := word;
      r := 32 * wi + j;
      while d % 2 == 0
        invariant 32 * wi + j <= r < 32 * wi + 32
        invariant d == ShiftN(ws[wi], r - 32 * wi) && d != 0
        invariant forall b: nat :: 32 * wi + j <= b < r ==> !Holds(ws, b)
        decreases 32 * wi + 32 - r
      {
        ScanStep(ws, wi, r - 32 * wi, d);
        d := d >> 1;
        r := r + 1;
      }
      ScanStop(ws, wi, r - 32 * wi, d);
      NextSetIs(ws, 32 * wi + j, r);
    }

    /** The outer loop of the iterator: skip the words that are zero. */
    method SkipZeroWords(i: nat) returns (k: nat)
      requires i <= data.Length
      ensures i <= k <= data.Length
      ensures k < data.Length ==> data[k] != 0
      ensures NextSet(data[..], 32 * i) == NextSet(data[..], 32 * k)
    {
      ghost var ws := data[..];
      k := i;
      while k < data.Length && data[k] == 0
        invariant i <= k <= data.Length
        invariant NextSet(ws, 32 * i) == NextSet(ws, 32 * k)
      {
        HighPartZero(ws, k, 0);
        SkipEmpty(ws, 32 * k, 32 * k + 32);
        k := k + 1;
      }
    }

    /** The search both iterator steps end with: skip the zero words from
        word `i` on, then scan the first non-zero one; the end index when
        there is none. */
    method ScanFrom(i: nat) returns (r: nat)
      requires i <= data.Length
      ensures r == NextSet(data[..], 32 * i)
    {
      var k := SkipZeroWords(i);
      if k < data.Length {
        r := ScanWord(k, 0, data[k]);
      } else {
        r := 32 * k;
      }
    }

    /** The iterator's `first()` (`predicate_begin()`): the first atom that
        holds, or the end index `size() << 5`. */
    method First() returns (idx: nat)
      ensures idx == NextSet(data[..], 0)
    {
      idx := ScanFrom(0);
    }

    /** The iterator's `increase()` (`operator++`): the next atom after
        `idx` that holds, or the end index.  The rest of the current word
        is tried first, then the following words. */
    method Increase(idx: nat) returns (r: nat)
      requires idx < 32 * data.Length
      ensures r == NextSet(data[..], idx + 1)
    {
      var i, j := idx / 32, idx % 32;
      assert idx == 32 * i + j;
      if j == 31 {
        r := ScanFrom(i + 1);
      } else {
        // `data >> (j + 1)`, which is j + 1 single shifts (ShiftNIsShift)
        var word := ShiftN(data[i], j + 1);
        if word != 0 {
          r := ScanWord(i, j + 1, word);
        } else {
          RestOfWordEmpty(data[..], i, j);
          r := ScanFrom(i + 1);
        }
      }
    }

    /** `code()`: bit `a / 2` for every atom `a`, stopping the process on an
        odd atom. */
    method Code() returns (r: Result<set<nat>>)
      requires Valid()
      ensures r == CodeOf(Atoms(data[..]))
    {
      ghost var ws := data[..];
      var c: set<nat> := {};
      ghost var done: seq<nat> := [];
      var idx := First();
      VisitStart(ws);
      while idx != 32 * data.Length
        invariant Visited(ws, done, idx)
        invariant CodeOf(done) == Ok(c)
        decreases 32 * |ws| - idx
      {
        VisitStep(ws, done, idx);
        // `*ai`: the index as an unsigned short
        var a: nat := ToUShort(idx);
        CodeStep(done, c, a);
        if a % 2 != 0 {
          CodeOfPrefixErr(done + [a], Atoms(ws));
          return Err(Die);
        }
        if a / 2 >= 32 {
          // `1 << (*ai / 2)` shifts an `int` by its width or more
          CodeOfPrefixErr(done + [a], Atoms(ws));
          return Err(UndefinedBehaviour);
        }
        c := c + ShiftedBits(a / 2);
        done := done + [a];
        idx := Increase(idx);
      }
      VisitEnd(ws, done);
      return Ok(c);
    }

    /** `toString(print_braces)`: the atoms in increasing order separated by
        single spaces, between brackets when asked for. */
    method ToString(braces: bool) returns (s: string)
      requires Valid()
      ensures s == Shown(data[..], braces)
    {
      ghost var ws := data[..];
      s := if braces then "[" else "";
      ghost var start := s;
      ghost var done: seq<nat> := [];
      var sep := false;
      var idx := First();
      VisitStart(ws);
      while idx != 32 * data.Length
        invariant Visited(ws, done, idx)
        invariant sep == (|done| > 0)
        invariant ShownSoFar(s, start, done)
        decreases 32 * |ws| - idx
      {
        VisitStep(ws, done, idx);
        // `*ai`: the index as an unsigned short
        var a: nat := ToUShort(idx);
        var sepText := "";
        if sep {
          sepText := " ";
        } else {
          sep := true;
        }
        ShownStep(s, start, done, a, sepText);
        s := s + sepText + Rationals.NatToString(a);
        done := done + [a];
        idx := Increase(idx);
      }
      VisitEnd(ws, done);
      if braces {
        s := s + "]";
      }
    }
  }

  /** An iteration over `ws` has visited the atoms `done` and stands at
      `idx`, the next atom that holds or the end. */
  predicate Visited(ws: seq<bv32>, done: seq<nat>, idx: nat) {
    idx <= 32 * |ws| && idx == NextSet(ws, idx) && done + AtomsFrom(ws, idx) == Atoms(ws)
  }

  /** The iteration starts at the first atom of the list. */
  lemma VisitStart(ws: seq<bv32>)
    ensures Visited(ws, [], NextSet(ws, 0))
  {
    NextSetIdempotent(ws, 0);
    AtomsFromNext(ws, 0);
  }

  /** One round of an iteration: the current index is the next atom of the
      list, and the iterator moves to the one after it. */
  lemma VisitStep(ws: seq<bv32>, done: seq<nat>, idx: nat)
    requires |ws| <= MaxWords
    requires Visited(ws, done, idx) && idx != 32 * |ws|
    ensures idx <= UShortMax
    ensures |done| < |Atoms(ws)| && Atoms(ws)[..|done| + 1] == done + [idx]
    ensures Visited(ws, done + [idx], NextSet(ws, idx + 1))
  {
    AtomsFromHeld(ws, idx);
    NextSetIdempotent(ws, idx + 1);
    var t := Atoms(ws);
    assert t == (done + [idx]) + AtomsFrom(ws, NextSet(ws, idx + 1));
    assert t[..|done| + 1] == done + [idx];
  }

  /** At the end iterator every atom has been visited. */
  lemma VisitEnd(ws: seq<bv32>, done: seq<nat>)
    requires Visited(ws, done, 32 * |ws|)
    ensures done == Atoms(ws)
  {
    assert AtomsFrom(ws, 32 * |ws|) == [];
  }

  /** The code after one more atom. */
  lemma CodeStep(done: seq<nat>, c: set<nat>, a: nat)
    requires CodeOf(done) == Ok(c)
    ensures a % 2 == 1 ==> CodeOf(done + [a]) == Err(Die)
    ensures a % 2 == 0 && a / 2 >= 32 ==> CodeOf(done + [a]) == Err(UndefinedBehaviour)
    ensures a % 2 == 0 && a / 2 < 32 ==> CodeOf(done + [a]) == Ok(c + ShiftedBits(a / 2))
  {
    assert (done + [a])[..|done|] == done;
  }

  /** A failed code makes the code of every longer list fail the same way. */
  lemma {:induction false} CodeOfPrefixErr(p: seq<nat>, q: seq<nat>)
    requires CodeOf(p).Err?
    requires |p| <= |q| && q[..|p|] == p
    ensures CodeOf(q) == CodeOf(p)
    decreases |q|
  {
    if |q| > |p| {
      var q' := q[..|q| - 1];
      assert q'[..|p|] == p;
      CodeOfPrefixErr(p, q');
    } else {
      assert q == q[..|p|];
    }
  }

  /** The text printed so far: the opening text, then the numerals of the
      atoms visited, separated by single spaces. */
  ghost predicate ShownSoFar(s: string, start: string, done: seq<nat>) {
    s == start + Utils.Join(Numerals(done), ' ')
  }

  /** Printing one more atom: a space first unless it is the first. */
  lemma ShownStep(s: string, start: string, done: seq<nat>, a: nat, sepText: string)
    requires ShownSoFar(s, start, done)
    requires sepText == if |done| > 0 then " " else ""
    ensures ShownSoFar(s + sepText + Rationals.NatToString(a), start, done + [a])
  {
    var ns := Numerals(done);
    var n := Rationals.NatToString(a);
    NumeralsSnoc(done, a);
    JoinSeparated(ns, n, sepText);
    AppendRegrouped(s, start, Utils.Join(ns, ' '), sepText, n);
  }

  /** Text appended after a known prefix regroups with the prefix. */
  lemma AppendRegrouped(s: string, start: string, j: string, sep: string, n: string)
    requires s == start + j
    ensures s + sep + n == start + (j + sep + n)
  {
  }

  /** The numerals of one more atom. */
  lemma NumeralsSnoc(done: seq<nat>, a: nat)
    ensures Numerals(done + [a]) == Numerals(done) + [Rationals.NatToString(a)]
  {
    assert (done + [a])[..|done|] == done;
  }

  /** Joining one more piece adds the separator only after a first piece. */
  lemma JoinSeparated(ns: seq<string>, n: string, sepText: string)
    requires sepText == if |ns| > 0 then " " else ""
    ensures Utils.Join(ns + [n], ' ') == Utils.Join(ns, ' ') + sepText + n
  {
    if |ns| > 0 {
      Utils.JoinSnoc(ns, n, ' ');
    } else {
      assert ns + [n] == [n];
    }
  }

  /** A bad id makes the parse of every longer list of ids fail too. */
  lemma {:induction false} AddIdsPrefixErr(ws: seq<bv32>, p: seq<string>, q: seq<string>)
    requires AddIds(ws, p).Err?
    requires |p| <= |q| && q[..|p|] == p
    ensures AddIds(ws, q) == AddIds(ws, p)
    decreases |q|
  {
    if |q| > |p| {
      var q' := q[..|q| - 1];
      assert q'[..|p|] == p;
      AddIdsPrefixErr(ws, p, q');
    } else {
      assert q == q[..|p|];
    }
  }

  /** `state_t(str, true)`: split the string at single spaces and add the
      atom of every non-empty piece.  A null result stands for an atom past
      the last word, which the source writes out of its buffer. */
  method FromIndexString(str: string, size: nat) returns (r: Option<State>)
    requires size <= MaxWords
    ensures r.Some? <==> Parsed(str, size).Ok?
    ensures r.Some? ==> fresh(r.value.data) && r.value.data[..] == Parsed(str, size).value
  {
    var st := new State(size);
    var split := Utils.SplitString(str, " ");
    assert split.Ok?;
    var ids := split.value;
    var i := 0;
    while i < |ids|
      invariant 0 <= i <= |ids|
      invariant AddIds(Zeros(size), ids[..i]) == Ok(st.data[..])
      modifies st.data
    {
      assert ids[..i + 1][..i] == ids[..i];
      var id := ids[i];
      if id != "" {
        var a := ToUShort(Atoi(id));
        if a >= 32 * st.data.Length {
          AddIdsPrefixErr(Zeros(size), ids[..i + 1], ids);
          return None;
        }
        var _ := st.Add(a);
      }
      i := i + 1;
    }
    assert ids[..i] == ids;
    return Some(st);
  }

  /** `atomList_t::holds(state, nprec)`: every atom of the list holds in
      the state. */
  method ListHoldsInState(alist: AtomList, st: State, nprec: bool) returns (b: bool)
    requires alist.Valid() && AtomsInState(alist.Contents(), st.data.Length)
    ensures b == StateListHolds(st.data[..], alist.Contents(), nprec)
  {
    var i := 0;
    while i < alist.count
      invariant 0 <= i <= alist.count
      invariant forall k :: 0 <= k < i ==> StateLiteralHolds(st.data[..], alist.data[k], nprec)
    {
      var atm := alist.data[i];
      assert atm == alist.Contents()[i];
      var ok: bool;
      if nprec {
        ok := st.HoldsAtom(atm);
      } else if atm % 2 == 1 {
        var h := st.HoldsAtom(atm - 1);
        ok := !h;
      } else {
        ok := st.HoldsAtom(atm);
      }
      if !ok {
        return false;
      }
      i := i + 1;
    }
    return true;
  }

  /** `atomListList_t::holds(state, nprec)`: some member list holds in the
      state. */
  method ListListHoldsInState(lists: AtomListList, st: State, nprec: bool) returns (b: bool)
    requires lists.Valid()
    requires forall i :: 0 <= i < lists.count ==> AtomsInState(lists.data[i].Contents(), st.data.Length)
    ensures b <==> exists i :: 0 <= i < lists.count && StateListHolds(st.data[..], lists.data[i].Contents(), nprec)
  {
    var i := 0;
    while i < lists.count
      invariant 0 <= i <= lists.count
      invariant forall k :: 0 <= k < i ==> !StateListHolds(st.data[..], lists.data[k].Contents(), nprec)
    {
      var h := ListHoldsInState(lists.data[i], st, nprec);
      if h {
        return true;
      }
      i := i + 1;
    }
    return false;
  }
}
