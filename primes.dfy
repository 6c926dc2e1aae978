/** The `prime` routine of `hash.cc`: the table sizes of the planner's hash
  tables are taken from a cache of primes found by trial division.

  The cache is static state shared by every table: the primes found so far
  (`primes`, `p` of them, in a buffer of `size` entries) and the next
  candidate `current`.  One round of the do-while tests `current` against
  the cached primes, appends it when it passes and moves on to the next
  candidate; `prime(n)` runs rounds until the last cached entry is at least
  `n` and returns that entry.

  `(unsigned)ceil(sqrt((double)current))` is modelled as the exact integer
  ceiling of the square root; `unsigned` wrap-around of `current` is not
  modelled.
*/
module Primes {
  import opened CInt

  predicate IsPrime(n: nat) {
    n >= 2 && forall d :: 2 <= d < n ==> n % d != 0
  }

  /** Every entry is usable as a trial divisor. */
  predicate AllAtLeastTwo(ps: seq<nat>) {
    forall k :: 0 <= k < |ps| ==> ps[k] >= 2
  }

  predicate Increasing(ps: seq<nat>) {
    forall i, j :: 0 <= i < j < |ps| ==> ps[i] < ps[j]
  }

  /** `ps` lists, in increasing order, exactly the primes below `c`. */
  ghost predicate ListsPrimesBelow(ps: seq<nat>, c: nat) {
    && Increasing(ps)
    && (forall k :: 0 <= k < |ps| ==> IsPrime(ps[k]) && ps[k] < c)
    && (forall q {:trigger q in ps} :: 2 <= q < c && IsPrime(q) ==> q in ps)
  }

  /** The cache: the primes found, the next candidate and the buffer size. */
  datatype Cache = Cache(primes: seq<nat>, current: nat, capacity: nat)

  /** The cache before the first call: nothing found, candidate 2, a buffer
      of `gpt::initial_hash_size` entries. */
  function Fresh(initialSize: nat): Cache {
    Cache([], 2, initialSize)
  }

  // ---------------------------------------------------------------------
  // Integer square roots and divisors
  // ---------------------------------------------------------------------

  /** `(unsigned)ceil(sqrt((double)x))`: the least `b` with `b * b >= x`. */
  function CeilSqrt(x: nat): (b: nat)
    ensures b * b >= x
    ensures b == 0 || (b - 1) * (b - 1) < x
  {
    CeilSqrtFrom(x, 0)
  }

  function CeilSqrtFrom(x: nat, b: nat): (r: nat)
    requires b == 0 || (b - 1) * (b - 1) < x
    ensures r * r >= x
    ensures r == 0 || (r - 1) * (r - 1) < x
    decreases x - b
  {
    if b * b >= x then b
    else
      assert b <= b * b;
      CeilSqrtFrom(x, b + 1)
  }

  lemma SquareMono(a: nat, b: nat)
    requires a <= b
    ensures a * a <= b * b
  {
    assert a * a <= a * b;
  }

  /** The least divisor of `c` that is at least `d`. */
  function SmallestDivisorFrom(c: nat, d: nat): (q: nat)
    requires 2 <= d <= c
    ensures d <= q <= c && c % q == 0
    ensures forall e :: d <= e < q ==> c % e != 0
    decreases c - d
  {
    if c % d == 0 then d else SmallestDivisorFrom(c, d + 1)
  }

  lemma DividesTransitive(e: nat, q: nat, c: nat)
    requires e > 0 && q > 0 && q % e == 0 && c % q == 0
    ensures c % e == 0
  {
    var a, b := c / q, q / e;
    ModZeroIsMultiple(c, q);
    ModZeroIsMultiple(q, e);
    assert c == (a * b) * e;
    MulDivMod(a * b, e);
  }

  /** The least divisor of a number from 2 on is a prime. */
  lemma SmallestDivisorIsPrime(c: nat)
    requires c >= 2
    ensures IsPrime(SmallestDivisorFrom(c, 2))
  {
    var q := SmallestDivisorFrom(c, 2);
    forall e | 2 <= e < q
      ensures q % e != 0
    {
      if q % e == 0 {
        DividesTransitive(e, q, c);
      }
    }
  }

  /** A composite number's least divisor is at most its square root. */
  lemma SmallestDivisorOfComposite(c: nat)
    requires c >= 2 && !IsPrime(c)
    ensures SmallestDivisorFrom(c, 2) < c
    ensures SmallestDivisorFrom(c, 2) * SmallestDivisorFrom(c, 2) <= c
  {
    var q := SmallestDivisorFrom(c, 2);
    var d :| 2 <= d < c && c % d == 0;
    assert q <= d;
    var m := c / q;
    ModZeroIsMultiple(c, q);
    Cofactor(c, q, m);
    assert m >= q;
    SquareBelow(q, m, c);
  }

  /** The cofactor of a proper divisor is a divisor of at least 2. */
  lemma Cofactor(c: nat, q: nat, m: nat)
    requires 2 <= q < c && c == m * q
    ensures m >= 2 && c % m == 0
  {
    assert (m - 1) * q == c - q > 0;
    MulDivMod(q, m);
  }

  lemma SquareBelow(q: nat, m: nat, c: nat)
    requires q <= m && c == m * q
    ensures q * q <= c
  {
    assert q * q <= m * q;
  }

  lemma EvenNotPrime(m: nat)
    requires m >= 4 && m % 2 == 0
    ensures !IsPrime(m)
  {
    assert 2 <= 2 < m;
  }

  // ---------------------------------------------------------------------
  // Euclid: there is always a larger prime
  // ---------------------------------------------------------------------

  function Fact(n: nat): (f: nat)
    ensures f >= 1
  {
    if n == 0 then 1 else n * Fact(n - 1)
  }

  lemma {:induction false} FactDivisible(n: nat, q: nat)
    requires 1 <= q <= n
    ensures Fact(n) % q == 0
    decreases n
  {
    if q == n {
      assert Fact(n) == Fact(n - 1) * n;
      MulDivMod(Fact(n - 1), n);
    } else {
      FactDivisible(n - 1, q);
      var k := Fact(n - 1) / q;
      ModZeroIsMultiple(Fact(n - 1), q);
      assert Fact(n) == (n * k) * q;
      MulDivMod(n * k, q);
    }
  }

  lemma PlusOneMod(f: nat, q: nat)
    requires q >= 2 && f % q == 0
    ensures (f + 1) % q == 1
  {
    var k: int, t: int, r: int := f / q, (f + 1) / q, (f + 1) % q;
    ModZeroIsMultiple(f, q);
    assert f + 1 == t * q + r && 0 <= r < q;
    var e := t - k;
    assert e * q == t * q - k * q;
    MulBounds(e, q);
    assert e == 0;
  }

  /** A non-zero multiple of a positive `q` is at least `q` away from 0. */
  lemma MulBounds(e: int, q: int)
    requires q > 0
    ensures e >= 1 ==> e * q >= q
    ensures e <= -1 ==> e * q <= -q
  {
    if e >= 1 {
      assert e * q == (e - 1) * q + q;
    } else if e <= -1 {
      assert e * q == (e + 1) * q - q;
    }
  }

  lemma FactPlusOneMod(n: nat, q: nat)
    ensures 2 <= q <= n ==> (Fact(n) + 1) % q == 1
  {
    if 2 <= q <= n {
      FactDivisible(n, q);
      PlusOneMod(Fact(n), q);
    }
  }

  /** Above every number there is a prime. */
  lemma PrimeAbove(n: nat) returns (q: nat)
    ensures IsPrime(q) && q > n
  {
    var m := Fact(n) + 1;
    q := SmallestDivisorFrom(m, 2);
    SmallestDivisorIsPrime(m);
    FactPlusOneMod(n, q);
  }

  // ---------------------------------------------------------------------
  // One round of the do-while, as written (hash.cc:50-66)
  // ---------------------------------------------------------------------

  /** Where the trial division loop stops as written: at the first cached
      entry that is not below `bound` or that divides `c`. */
  function StopAsWritten(ps: seq<nat>, c: nat, bound: nat, i: nat): (j: nat)
    requires AllAtLeastTwo(ps) && i <= |ps|
    ensures i <= j <= |ps|
    decreases |ps| - i
  {
    if i == |ps| || ps[i] >= bound || c % ps[i] == 0 then i
    else StopAsWritten(ps, c, bound, i + 1)
  }

  /** The acceptance test as written: the loop ran past every entry, or it
      stopped at an entry equal to the rounded-up square root. */
  predicate AcceptsAsWritten(ps: seq<nat>, c: nat)
    requires AllAtLeastTwo(ps)
  {
    var bound := CeilSqrt(c);
    var i := StopAsWritten(ps, c, bound, 0);
    i == |ps| || ps[i] == bound
  }

  /** One round as written: an accepted candidate is appended, and when the
      buffer is full the buffer is first halved. */
  function StepAsWritten(c: Cache): (d: Cache)
    requires AllAtLeastTwo(c.primes) && c.current >= 2
    ensures AllAtLeastTwo(d.primes) && d.current >= 2
  {
    if AcceptsAsWritten(c.primes, c.current) then
      var cap := if |c.primes| == c.capacity then c.capacity / 2 else c.capacity;
      Cache(c.primes + [c.current], c.current + (if |c.primes| == 0 then 1 else 2), cap)
    else
      Cache(c.primes, c.current + 2, c.capacity)
  }

  /** `k` rounds as written. */
  function StepsAsWritten(c: Cache, k: nat): (d: Cache)
    requires AllAtLeastTwo(c.primes) && c.current >= 2
    ensures AllAtLeastTwo(d.primes) && d.current >= 2
    decreases k
  {
    if k == 0 then c else StepsAsWritten(StepAsWritten(c), k - 1)
  }

  /** As written, 9 passes the test against the primes below it, because
      the loop stops at 3, the square root of 9, before trying it. */
  lemma NineAcceptedAsWritten()
    ensures AcceptsAsWritten([2, 3, 5, 7], 9) && !IsPrime(9)
  {
    assert CeilSqrt(9) == 3 by {
      assert 2 * 2 < 9;
    }
    assert 9 % 3 == 0;
  }

  /** As written, the prime 11 fails the test against the cached entries,
      because the loop stops at 5 and 5 is not the rounded-up root 4. */
  lemma ElevenRejectedAsWritten()
    ensures !AcceptsAsWritten([2, 3, 5, 7, 9], 11) && IsPrime(11)
  {
    assert CeilSqrt(11) == 4 by {
      assert 3 * 3 < 11;
    }
  }

  /** On a fresh cache the first five rounds cache 2, 3, 5, 7 and 9, so
      `prime(8)` returns 9, which is not a prime. */
  lemma PrimeOfEightAsWritten(initialSize: nat)
    requires initialSize >= 5
    ensures StepsAsWritten(Fresh(initialSize), 4).primes == [2, 3, 5, 7]
    ensures StepsAsWritten(Fresh(initialSize), 5).primes == [2, 3, 5, 7, 9]
    ensures !IsPrime(9)
  {
    var c0 := Fresh(initialSize);
    assert CeilSqrt(2) == 2 by { assert 1 * 1 < 2; }
    assert CeilSqrt(3) == 2 by { assert 1 * 1 < 3; }
    assert CeilSqrt(5) == 3 by { assert 2 * 2 < 5; }
    assert CeilSqrt(7) == 3 by { assert 2 * 2 < 7; }
    var c1 := StepAsWritten(c0);
    assert c1 == Cache([2], 3, initialSize);
    var c2 := StepAsWritten(c1);
    assert c2 == Cache([2, 3], 5, initialSize);
    var c3 := StepAsWritten(c2);
    assert c3 == Cache([2, 3, 5], 7, initialSize);
    var c4 := StepAsWritten(c3);
    assert c4 == Cache([2, 3, 5, 7], 9, initialSize);
    NineAcceptedAsWritten();
    var c5 := StepAsWritten(c4);
    assert c5.primes == [2, 3, 5, 7, 9];
    assert StepsAsWritten(c0, 4) == c4 by {
      assert StepsAsWritten(c0, 4) == StepsAsWritten(c1, 3) == StepsAsWritten(c2, 2);
      assert StepsAsWritten(c2, 2) == StepsAsWritten(c3, 1) == StepsAsWritten(c4, 0);
    }
    assert StepsAsWritten(c0, 5) == StepsAsWritten(c1, 4) == StepsAsWritten(c2, 3);
    assert StepsAsWritten(c2, 3) == StepsAsWritten(c3, 2) == StepsAsWritten(c4, 1);
    assert StepsAsWritten(c4, 1) == StepsAsWritten(c5, 0);
  }

  /** As written, a round that appends to a full buffer first halves it, so
      the new entry lies outside the buffer. */
  lemma FullBufferHalvedAsWritten(c: Cache)
    requires AllAtLeastTwo(c.primes) && c.current >= 2
    requires AcceptsAsWritten(c.primes, c.current)
    requires |c.primes| == c.capacity > 0
    ensures |StepAsWritten(c).primes| > StepAsWritten(c).capacity
  {
  }

  // ---------------------------------------------------------------------
  // One round, corrected
  // ---------------------------------------------------------------------

  /** Where the corrected trial division stops: at the first cached prime
      whose square exceeds `c` or that divides `c`. */
  function Stop(ps: seq<nat>, c: nat, i: nat): (j: nat)
    requires AllAtLeastTwo(ps) && i <= |ps|
    ensures i <= j <= |ps|
    ensures forall k :: i <= k < j ==> ps[k] * ps[k] <= c && c % ps[k] != 0
    ensures j < |ps| ==> ps[j] * ps[j] > c || c % ps[j] == 0
    decreases |ps| - i
  {
    if i == |ps| || ps[i] * ps[i] > c || c % ps[i] == 0 then i
    else Stop(ps, c, i + 1)
  }

  /** The corrected test: no cached prime up to the square root divides. */
  predicate Accepts(ps: seq<nat>, c: nat)
    requires AllAtLeastTwo(ps)
  {
    var i := Stop(ps, c, 0);
    i == |ps| || ps[i] * ps[i] > c
  }

  lemma ListedAtLeastTwo(ps: seq<nat>, c: nat)
    requires ListsPrimesBelow(ps, c)
    ensures AllAtLeastTwo(ps)
  {
  }

  /** Against the list of all primes below it, the corrected test accepts
      a number exactly when it is a prime. */
  lemma TrialDivisionCorrect(ps: seq<nat>, c: nat)
    requires ListsPrimesBelow(ps, c) && c >= 2
    ensures AllAtLeastTwo(ps)
    ensures Accepts(ps, c) <==> IsPrime(c)
  {
    ListedAtLeastTwo(ps, c);
    var j := Stop(ps, c, 0);
    if !IsPrime(c) {
      var q := SmallestDivisorFrom(c, 2);
      SmallestDivisorIsPrime(c);
      SmallestDivisorOfComposite(c);
      assert q in ps;
      var k :| 0 <= k < |ps| && ps[k] == q;
      assert j <= k;
      assert ps[j] <= q;
      SquareMono(ps[j], q);
      assert !Accepts(ps, c);
    }
  }

  /** `current += (p == 1 ? 1 : 2)`: from 2 to 3, then odd numbers only. */
  function NextCandidate(c: Cache): nat {
    c.current + (if |c.primes| == 0 then 1 else 2)
  }

  /** The buffer size after appending to a full buffer: doubled. */
  function Grown(capacity: nat): nat {
    if capacity == 0 then 1 else 2 * capacity
  }

  /** One round, corrected: the test divides by every cached prime up to
      the square root, and a full buffer is doubled. */
  function Advanced(c: Cache): (d: Cache)
    requires AllAtLeastTwo(c.primes)
  {
    if Accepts(c.primes, c.current) then
      var cap := if |c.primes| == c.capacity then Grown(c.capacity) else c.capacity;
      Cache(c.primes + [c.current], NextCandidate(c), cap)
    else
      Cache(c.primes, c.current + 2, c.capacity)
  }

  /** What every round keeps: the cache lists exactly the primes below the
      candidate, the buffer holds them, and the candidate is 2 at first and
      odd afterwards. */
  ghost predicate CacheOk(c: Cache) {
    && ListsPrimesBelow(c.primes, c.current)
    && |c.primes| <= c.capacity
    && ((c.current == 2 && c.primes == []) || (c.current >= 3 && c.current % 2 == 1))
  }

  lemma FreshOk(initialSize: nat)
    ensures CacheOk(Fresh(initialSize))
  {
  }

  /** Appending an accepted prime candidate keeps the list exact. */
  lemma AppendKeepsListing(ps: seq<nat>, x: nat, next: nat)
    requires ListsPrimesBelow(ps, x) && IsPrime(x)
    requires next == x + 1 || (next == x + 2 && x % 2 == 1 && x >= 3)
    ensures ListsPrimesBelow(ps + [x], next)
  {
    var ps' := ps + [x];
    assert Increasing(ps');
    forall q | 2 <= q < next && IsPrime(q)
      ensures q in ps'
    {
      if q == x + 1 {
        EvenNotPrime(q);
      } else if q < x {
        assert q in ps;
      }
    }
  }

  /** Skipping a rejected odd candidate keeps the list exact. */
  lemma SkipKeepsListing(ps: seq<nat>, x: nat)
    requires ListsPrimesBelow(ps, x) && !IsPrime(x) && x >= 3 && x % 2 == 1
    ensures ListsPrimesBelow(ps, x + 2)
  {
    forall q | 2 <= q < x + 2 && IsPrime(q)
      ensures q in ps
    {
      if q == x + 1 {
        EvenNotPrime(q);
      }
    }
  }

  lemma OddStep(x: nat)
    requires x % 2 == 1
    ensures (x + 2) % 2 == 1
  {
  }

  /** A corrected round keeps the cache exact. */
  lemma AdvancedOk(c: Cache)
    requires CacheOk(c)
    ensures AllAtLeastTwo(c.primes)
    ensures CacheOk(Advanced(c))
    ensures Advanced(c).current > c.current
    ensures c.primes <= Advanced(c).primes
    ensures |Advanced(c).primes| <= |c.primes| + 1
  {
    TrialDivisionCorrect(c.primes, c.current);
    var d := Advanced(c);
    if Accepts(c.primes, c.current) {
      assert d.primes == c.primes + [c.current] && d.current == NextCandidate(c);
      AppendKeepsListing(c.primes, c.current, d.current);
      assert |d.primes| <= d.capacity;
      if c.current != 2 {
        assert IsPrime(2);
        assert 2 in c.primes;
        OddStep(c.current);
      }
    } else {
      assert d == Cache(c.primes, c.current + 2, c.capacity);
      SkipKeepsListing(c.primes, c.current);
      OddStep(c.current);
    }
    assert ListsPrimesBelow(d.primes, d.current);
    assert d.current >= 3 && d.current % 2 == 1;
  }

  /** Every entry but the last is below `n`. */
  predicate AllButLastBelow(ps: seq<nat>, n: nat) {
    forall k :: 0 <= k < |ps| - 1 ==> ps[k] < n
  }

  /** When the last entry of an increasing list is below `n`, or the list
      is empty, every entry is. */
  lemma AllBelowLast(ps: seq<nat>, n: nat)
    requires Increasing(ps) && (|ps| == 0 || ps[|ps| - 1] < n)
    ensures forall k :: 0 <= k < |ps| ==> ps[k] < n
  {
  }

  /** Extending a list whose entries are all below `n` by at most one entry
      leaves every entry but the last below `n`. */
  lemma RoundKeepsBelow(ps: seq<nat>, ps': seq<nat>, n: nat)
    requires ps <= ps' && |ps'| <= |ps| + 1
    requires AllButLastBelow(ps, n) && (|ps| == 0 || ps[|ps| - 1] < n)
    ensures AllButLastBelow(ps', n)
  {
    assert forall k :: 0 <= k < |ps| ==> ps'[k] == ps[k];
  }

  /** A round on the cache before any prime is found finds 2. */
  lemma AdvancedNonEmpty(c: Cache)
    requires CacheOk(c)
    ensures AllAtLeastTwo(c.primes)
    ensures |Advanced(c).primes| > 0
  {
    AdvancedOk(c);
    if c.primes == [] {
      assert Stop([], c.current, 0) == 0;
    }
  }

  /** When the last cached prime is the first to reach `n`, it is the
      least prime from `n` on. */
  lemma LeastFrom(c: Cache, n: nat)
    requires ListsPrimesBelow(c.primes, c.current) && |c.primes| > 0 && AllButLastBelow(c.primes, n)
    ensures forall p :: n <= p < Last(c) ==> !IsPrime(p)
  {
    var ps := c.primes;
    forall p | n <= p < Last(c)
      ensures !IsPrime(p)
    {
      assert forall k :: 0 <= k < |ps| ==> ps[k] != p;
      UnlistedNotPrime(ps, c.current, p);
    }
  }

  /** A number below the candidate that is not cached is not a prime. */
  lemma UnlistedNotPrime(ps: seq<nat>, c: nat, p: nat)
    requires ListsPrimesBelow(ps, c) && p < c && p !in ps
    ensures !IsPrime(p)
  {
  }

  /** While the last cached prime is below `n`, a prime above `n` is not
      yet passed by the candidate. */
  lemma CandidateAtMost(ps: seq<nat>, c: nat, q: nat, n: nat)
    requires ListsPrimesBelow(ps, c) && |ps| > 0 && IsPrime(q) && q > n
    ensures ps[|ps| - 1] < n ==> c <= q
  {
    if c > q {
      ListedBelowLast(ps, c, q);
    }
  }

  /** The last cached prime. */
  function Last(c: Cache): nat {
    if |c.primes| == 0 then 0 else c.primes[|c.primes| - 1]
  }

  /** What the `while` part of `prime(n)` keeps: something is cached, when
      nothing cached reached `n` at the call every entry but the last is
      below `n`, and while the last is below `n` the candidate has not
      passed the prime `q` above `n`. */
  ghost predicate RoundInvariant(c: Cache, n: nat, q: nat, startBelow: bool) {
    && |c.primes| > 0
    && IsPrime(q) && q > n
    && (startBelow ==> AllButLastBelow(c.primes, n))
    && (Last(c) < n ==> c.current <= q)
  }

  /** The unconditional first round of `prime(n)` sets up the invariant
      of the `while` part. */
  lemma FirstRound(c: Cache, n: nat, q: nat, startBelow: bool)
    requires CacheOk(c) && IsPrime(q) && q > n && q > c.current
    requires startBelow == (|c.primes| == 0 || Last(c) < n)
    ensures AllAtLeastTwo(c.primes)
    ensures c.primes <= Advanced(c).primes
    ensures RoundInvariant(Advanced(c), n, q, startBelow)
    ensures !startBelow ==> Last(Advanced(c)) >= n
  {
    AdvancedOk(c);
    AdvancedNonEmpty(c);
    var d := Advanced(c);
    if startBelow {
      AllBelowLast(c.primes, n);
      RoundKeepsBelow(c.primes, d.primes, n);
    }
    CandidateAtMost(d.primes, d.current, q, n);
    if !startBelow {
      AdvancedLast(c);
    }
  }

  /** What `prime(n)` returns from the cache `c0`, leaving the cache `d`:
      `r`, the last cached entry, is a prime that is at least `n`; the cache
      only grew; when nothing cached reached `n` before, `r` is the least
      prime from `n` on, and otherwise the call was the single
      unconditional round of the do-while. */
  ghost predicate PrimeOutcome(c0: Cache, d: Cache, n: nat, r: nat) {
    && |d.primes| > 0 && r == Last(d)
    && IsPrime(r) && r >= n
    && c0.primes <= d.primes
    && ((|c0.primes| == 0 || Last(c0) < n) ==> forall p :: n <= p < r ==> !IsPrime(p))
    && (|c0.primes| > 0 && Last(c0) >= n ==> AllAtLeastTwo(c0.primes) && d == Advanced(c0))
  }

  lemma PrimeOutcomeHolds(c0: Cache, c1: Cache, d: Cache, n: nat, q: nat, startBelow: bool)
    requires CacheOk(c0) && CacheOk(d)
    requires AllAtLeastTwo(c0.primes) && c1 == Advanced(c0)
    requires RoundInvariant(d, n, q, startBelow) && Last(d) >= n
    requires c0.primes <= c1.primes && c1.primes <= d.primes
    requires startBelow == (|c0.primes| == 0 || Last(c0) < n)
    requires !startBelow ==> d == c1
    ensures PrimeOutcome(c0, d, n, Last(d))
  {
    PrefixTransitive(c0.primes, c1.primes, d.primes);
    LastListed(d);
    if startBelow {
      LeastFrom(d, n);
    }
  }

  /** A round with the last cached prime below `n` keeps the invariant. */
  lemma RoundKeepsInvariant(c: Cache, n: nat, q: nat, startBelow: bool)
    requires CacheOk(c) && RoundInvariant(c, n, q, startBelow) && Last(c) < n
    ensures AllAtLeastTwo(c.primes)
    ensures RoundInvariant(Advanced(c), n, q, startBelow)
    ensures Advanced(c).current > c.current
    ensures c.primes <= Advanced(c).primes
  {
    AdvancedOk(c);
    var d := Advanced(c);
    if startBelow {
      RoundKeepsBelow(c.primes, d.primes, n);
    }
    CandidateAtMost(d.primes, d.current, q, n);
  }

  lemma PrefixTransitive(a: seq<nat>, b: seq<nat>, c: seq<nat>)
    requires a <= b && b <= c
    ensures a <= c
  {
    assert forall i :: 0 <= i < |a| ==> a[i] == b[i] == c[i];
  }

  /** The last cached entry is a prime. */
  lemma LastListed(c: Cache)
    requires CacheOk(c) && |c.primes| > 0
    ensures IsPrime(Last(c))
  {
  }

  /** A round never lowers the last cached prime. */
  lemma AdvancedLast(c: Cache)
    requires CacheOk(c) && |c.primes| > 0
    ensures AllAtLeastTwo(c.primes)
    ensures Last(Advanced(c)) >= Last(c)
  {
    AdvancedOk(c);
  }

  /** A prime below the candidate is at most the last cached prime. */
  lemma ListedBelowLast(ps: seq<nat>, c: nat, q: nat)
    requires ListsPrimesBelow(ps, c) && |ps| > 0 && IsPrime(q) && q < c
    ensures q <= ps[|ps| - 1]
  {
    assert q in ps;
    var k :| 0 <= k < |ps| && ps[k] == q;
    assert k == |ps| - 1 || ps[k] < ps[|ps| - 1];
  }

  // ---------------------------------------------------------------------
  // The cache as the static state of `prime`
  // ---------------------------------------------------------------------

  class PrimeTable {
    /** The `primes` buffer; its length is `size`. */
    var buf: array<nat>
    /** `p`: the number of cached primes. */
    var count: nat
    /** The next candidate. */
    var current: nat

    function Snapshot(): Cache
      reads this, buf
      requires count <= buf.Length
    {
      Cache(buf[..count], current, buf.Length)
    }

    ghost predicate Valid()
      reads this, buf
    {
      count <= buf.Length && CacheOk(Snapshot())
    }

    /** The state set up on the first call. */
    constructor (initialSize: nat)
      ensures Valid() && Snapshot() == Fresh(initialSize)
    {
      buf := new nat[initialSize];
      count := 0;
      current := 2;
      new;
      FreshOk(initialSize);
    }

    /** The last cached prime, `primes[p - 1]`. */
    method LastCached() returns (p: nat)
      requires 0 < count <= buf.Length
      ensures p == Last(Snapshot())
    {
      p := buf[count - 1];
    }

    /** The trial division loop, corrected. */
    method TrialDivision() returns (i: nat)
      requires Valid()
      ensures AllAtLeastTwo(buf[..count])
      ensures i == Stop(buf[..count], current, 0)
    {
      ghost var ps := buf[..count];
      ListedAtLeastTwo(ps, current);
      i := 0;
      while i < count && buf[i] * buf[i] <= current
        invariant 0 <= i <= count
        invariant Stop(ps, current, i) == Stop(ps, current, 0)
      {
        assert buf[i] == ps[i];
        if current % buf[i] == 0 {
          break;
        }
        i := i + 1;
      }
    }

    /** The `realloc` of a full buffer, corrected to double it. */
    method Grow()
      requires count == buf.Length
      modifies this
      ensures fresh(buf) && buf.Length == Grown(old(buf.Length))
      ensures count == old(count) && current == old(current)
      ensures buf[..count] == old(buf[..count])
    {
      var nbuf := new nat[Grown(buf.Length)];
      var i := 0;
      while i < count
        invariant 0 <= i <= count
        invariant nbuf[..i] == buf[..i]
        modifies nbuf
      {
        nbuf[i] := buf[i];
        i := i + 1;
      }
      buf := nbuf;
    }

    /** Appending the accepted candidate, growing a full buffer first. */
    method Append()
      requires count <= buf.Length
      modifies this, buf
      ensures count <= buf.Length && (buf == old(buf) || fresh(buf))
      ensures Snapshot() == Cache(old(buf[..count]) + [old(current)], old(NextCandidate(Snapshot())),
        if old(count == buf.Length) then Grown(old(buf.Length)) else old(buf.Length))
    {
      if count == buf.Length {
        Grow();
      }
      buf[count] := current;
      count := count + 1;
      current := current + (if count == 1 then 1 else 2);
      assert buf[..count] == old(buf[..count]) + [old(current)];
    }

    /** One round of the do-while, corrected. */
    method Advance()
      requires Valid()
      modifies this, buf
      ensures Valid() && Snapshot() == Advanced(old(Snapshot()))
      ensures buf == old(buf) || fresh(buf)
    {
      ghost var c := Snapshot();
      var i := TrialDivision();
      AdvancedOk(c);
      if i == count || buf[i] * buf[i] > current {
        Append();
      } else {
        current := current + 2;
      }
    }

    /** A round of the `while` part of the do-while. */
    method RoundBelow(n: nat, ghost q: nat, ghost startBelow: bool)
      requires Valid() && RoundInvariant(Snapshot(), n, q, startBelow) && Last(Snapshot()) < n
      modifies this, buf
      ensures Valid() && RoundInvariant(Snapshot(), n, q, startBelow)
      ensures buf == old(buf) || fresh(buf)
      ensures current > old(current)
      ensures old(Snapshot()).primes <= Snapshot().primes
    {
      ghost var c := Snapshot();
      Advance();
      RoundKeepsInvariant(c, n, q, startBelow);
    }

    /** The `while` part of the do-while: rounds until the last cached
        prime reaches `n`. */
    method RoundsUntil(n: nat, ghost q: nat, ghost startBelow: bool)
      requires Valid() && RoundInvariant(Snapshot(), n, q, startBelow)
      modifies this, buf
      ensures Valid() && RoundInvariant(Snapshot(), n, q, startBelow)
      ensures Last(Snapshot()) >= n
      ensures buf == old(buf) || fresh(buf)
      ensures old(Snapshot()).primes <= Snapshot().primes
      ensures old(Last(Snapshot())) >= n ==> Snapshot() == old(Snapshot())
    {
      ghost var c0 := Snapshot();
      var last := LastCached();
      while last < n
        invariant Valid() && RoundInvariant(Snapshot(), n, q, startBelow)
        invariant last == Last(Snapshot())
        invariant buf == old(buf) || fresh(buf)
        invariant c0.primes <= Snapshot().primes
        invariant Last(c0) >= n ==> Snapshot() == c0
        decreases q - current
      {
        ghost var c := Snapshot();
        RoundBelow(n, q, startBelow);
        PrefixTransitive(c0.primes, c.primes, Snapshot().primes);
        last := LastCached();
      }
    }

    /** `prime(n)`, corrected: see `PrimeOutcome`. */
    method Prime(n: nat) returns (r: nat)
      requires Valid()
      modifies this, buf
      ensures Valid() && PrimeOutcome(old(Snapshot()), Snapshot(), n, r)
    {
      ghost var c0 := Snapshot();
      ghost var startBelow := count == 0 || buf[count - 1] < n;
      ghost var q := PrimeAbove(if n < current then current else n);
      Advance();
      FirstRound(c0, n, q, startBelow);
      ghost var c1 := Snapshot();
      RoundsUntil(n, q, startBelow);
      r := LastCached();
      PrimeOutcomeHolds(c0, c1, Snapshot(), n, q, startBelow);
    }
  }
}
