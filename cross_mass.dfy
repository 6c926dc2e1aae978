/** The probability mass of the parts of
    `ProbabilisticEffect::cross_product` where no threshold drops an
    outcome: the pairs weigh the product of the two masses, a completion
    the missing mass times the other effect's mass, the null outcome the
    rest, and together, by `CrossArithmetic`, the product of the completed
    masses of the two effects. */
module CrossMass {
  import opened Wrappers
  import opened Effects

  /** The probability an effect carries once completed: one when it is not
      known to sum up to one and falls short, else its own. */
  function Completed(total: real, sumUpToOne: bool): real {
    if !sumUpToOne && total < 1.0 then 1.0 else total
  }

  /** Every probability in the list is positive, as it is for stored outcomes. */
  predicate Weighted(os: seq<Outcome>) {
    forall i :: 0 <= i < |os| ==> os[i].p > 0.0
  }

  lemma MulDistributesLeft(s: real, x: real, y: real, c: real)
    requires s == x + y
    ensures s * c == x * c + y * c
  {
  }

  lemma {:induction false} KeptWeightAll(o: Outcome, qs: seq<Outcome>, threshold: real)
    requires threshold <= 0.0 && o.p > 0.0 && Weighted(qs)
    ensures KeptWeight(o, qs, threshold) == SumP(qs)
  {
    if |qs| > 0 {
      KeptWeightAll(o, qs[..|qs| - 1], threshold);
      KeptOneAll(o, qs[|qs| - 1], threshold);
    }
  }

  lemma KeptOneAll(o: Outcome, q: Outcome, threshold: real)
    requires threshold <= 0.0 && o.p > 0.0 && q.p > 0.0
    ensures KeptOne(o, q, threshold) == q.p
  {
    MulPositive(o.p, q.p);
  }

  /** The single pair of `o` and `q`, where there is no threshold. */
  lemma PairedMass(o: Outcome, q: Outcome, threshold: real)
    requires threshold <= 0.0 && o.p > 0.0 && q.p > 0.0
    ensures SumP(Paired(o, q, threshold)) == o.p * q.p
  {
    MulPositive(o.p, q.p);
    assert SumP([Outcome(o.p * q.p, Conjunction(Spliced(o.effect) + Spliced(q.effect)))]) == SumP([]) + o.p * q.p;
  }

  lemma {:induction false} RowScaledMass(o: Outcome, qs: seq<Outcome>, threshold: real)
    requires threshold <= 0.0 && o.p > 0.0 && Weighted(qs)
    ensures SumP(Row(o, qs, threshold)) == ScaledMass(o.p, qs)
  {
    if |qs| > 0 {
      RowScaledMass(o, qs[..|qs| - 1], threshold);
      RowStepMass(o, qs, threshold);
    }
  }

  /** The last pair of a row weighs what the last scaled outcome does. */
  lemma RowStepMass(o: Outcome, qs: seq<Outcome>, threshold: real)
    requires |qs| > 0 && threshold <= 0.0 && o.p > 0.0 && qs[|qs| - 1].p > 0.0
    ensures SumP(Row(o, qs, threshold)) - ScaledMass(o.p, qs) ==
            SumP(Row(o, qs[..|qs| - 1], threshold)) - ScaledMass(o.p, qs[..|qs| - 1])
  {
    RowLast(o, qs, threshold);
    PairedMass(o, qs[|qs| - 1], threshold);
    ScaledLast(o.p, qs);
  }

  lemma RowLast(o: Outcome, qs: seq<Outcome>, threshold: real)
    requires |qs| > 0
    ensures SumP(Row(o, qs, threshold)) == SumP(Row(o, qs[..|qs| - 1], threshold)) + SumP(Paired(o, qs[|qs| - 1], threshold))
  {
    SumPConcat(Row(o, qs[..|qs| - 1], threshold), Paired(o, qs[|qs| - 1], threshold));
  }

  lemma ScaledSwap(c: real, qs: seq<Outcome>)
    ensures ScaledMass(c, qs) == SumP(qs) * c
  {
    ScaledMassIsScaledSum(c, qs);
  }

  lemma {:induction false} PairsScaled(os: seq<Outcome>, qs: seq<Outcome>, threshold: real)
    requires threshold <= 0.0
    requires Weighted(os)
    requires Weighted(qs)
    ensures SumP(Pairs(os, qs, threshold)) == ScaledMass(SumP(qs), os)
  {
    if |os| > 0 {
      PairsScaled(os[..|os| - 1], qs, threshold);
      RowScaled(os, qs, threshold);
      PairsLast(os, qs, threshold);
    }
  }

  lemma RowScaled(os: seq<Outcome>, qs: seq<Outcome>, threshold: real)
    requires |os| > 0 && threshold <= 0.0 && os[|os| - 1].p > 0.0
    requires Weighted(qs)
    ensures SumP(Row(os[|os| - 1], qs, threshold)) == ScaledMass(SumP(qs), os) - ScaledMass(SumP(qs), os[..|os| - 1])
  {
    RowScaledMass(os[|os| - 1], qs, threshold);
    ScaledSwap(os[|os| - 1].p, qs);
    ScaledLast(SumP(qs), os);
  }

  lemma PairsLast(os: seq<Outcome>, qs: seq<Outcome>, threshold: real)
    requires |os| > 0
    ensures SumP(Pairs(os, qs, threshold)) == SumP(Pairs(os[..|os| - 1], qs, threshold)) + SumP(Row(os[|os| - 1], qs, threshold))
  {
    SumPConcat(Pairs(os[..|os| - 1], qs, threshold), Row(os[|os| - 1], qs, threshold));
  }

  lemma PairsMass(os: seq<Outcome>, qs: seq<Outcome>, threshold: real)
    requires threshold <= 0.0
    requires Weighted(os)
    requires Weighted(qs)
    ensures SumP(Pairs(os, qs, threshold)) == SumP(os) * SumP(qs)
  {
    PairsScaled(os, qs, threshold);
    ScaledBySum(os, qs);
  }

  lemma ScaledBySum(os: seq<Outcome>, qs: seq<Outcome>)
    ensures ScaledMass(SumP(qs), os) == SumP(os) * SumP(qs)
  {
    ScaledMassIsScaledSum(SumP(qs), os);
  }

  lemma {:induction false} ScaledMassKept(c: real, qs: seq<Outcome>, threshold: real)
    requires threshold <= 0.0 && c > 0.0 && Weighted(qs)
    ensures SumP(Scaled(c, qs, threshold)) == ScaledMass(c, qs)
  {
    if |qs| > 0 {
      ScaledMassKept(c, qs[..|qs| - 1], threshold);
      ScaledKeptLast(c, qs, threshold);
      ScaledOneMass(c, qs[|qs| - 1], threshold);
      ScaledLast(c, qs);
    }
  }

  lemma ScaledKeptLast(c: real, qs: seq<Outcome>, threshold: real)
    requires |qs| > 0
    ensures SumP(Scaled(c, qs, threshold)) == SumP(Scaled(c, qs[..|qs| - 1], threshold)) + SumP(ScaledOne(c, qs[|qs| - 1], threshold))
  {
    SumPConcat(Scaled(c, qs[..|qs| - 1], threshold), ScaledOne(c, qs[|qs| - 1], threshold));
  }

  lemma ScaledOneMass(c: real, q: Outcome, threshold: real)
    requires threshold <= 0.0 && c > 0.0 && q.p > 0.0
    ensures SumP(ScaledOne(c, q, threshold)) == c * q.p
  {
    MulPositive(c, q.p);
    assert SumP([Outcome(c * q.p, q.effect)]) == SumP([]) + c * q.p;
  }

  lemma Remainder(p: real, q: real, u: real, v: real)
    requires u == 1.0 - p && v == 1.0 - q
    ensures 1.0 - (p * q + u * q + v * p) == u * v
  {
  }

  /** A product, named so that facts about it are matched as they stand. */
  function Times(x: real, y: real): real {
    x * y
  }

  lemma PairsTimes(os: seq<Outcome>, qs: seq<Outcome>, threshold: real)
    requires threshold <= 0.0
    requires Weighted(os)
    requires Weighted(qs)
    ensures SumP(Pairs(os, qs, threshold)) == Times(SumP(os), SumP(qs))
  {
    PairsMass(os, qs, threshold);
  }

  lemma ScaledTimes(c: real, qs: seq<Outcome>)
    ensures ScaledMass(c, qs) == Times(c, SumP(qs))
  {
    ScaledMassIsScaledSum(c, qs);
  }

  /** The arithmetic of the cross product: with no threshold the pieces
      weigh the product of the completed masses. */
  lemma CrossArithmetic(p: real, q: real, a: real, pairs: real, first: real, second: real,
                        completeThis: bool, completeArg: bool, sumA: bool, sumB: bool)
    requires completeThis == (!sumA && p < 1.0) && completeArg == (!sumB && a < 1.0)
    requires (a == q) || (a == 0.0 && p == 0.0 && q <= 1.0)
    requires pairs == Times(p, q)
    requires first == if completeThis then Times(1.0 - p, q) else 0.0
    requires second == if completeArg then Times(1.0 - a, p) else 0.0
    ensures completeThis && completeArg ==> 1.0 - (pairs + first + second) >= 0.0
    ensures !(completeThis && completeArg) ==> pairs + first + second == Times(Completed(p, sumA), Completed(q, sumB))
    ensures completeThis && completeArg ==> Times(Completed(p, sumA), Completed(q, sumB)) == 1.0
  {
    var u, v := 1.0 - p, 1.0 - a;
    if a == q {
      MulDistributesLeft(1.0, p, u, q);
      MulDistributesLeft(1.0, q, v, p);
      assert 1.0 * q == q && 1.0 * p == p;
      assert p * q == q * p;
      if completeThis && completeArg {
        MulPositive(u, v);
        Remainder(p, q, u, v);
        assert 1.0 - (p * q + u * q + v * p) >= 0.0;
        assert (1.0 - p) * q == u * q;
        assert (1.0 - a) * p == v * p;
      }
    } else {
      assert p * q == 0.0 && v * p == 0.0;
      assert u * q == q;
    }
  }

  /** With no threshold a completion keeps every outcome it scales. */
  lemma CompletionMass(run: bool, c: real, qs: seq<Outcome>, threshold: real)
    requires threshold <= 0.0 && (run ==> c > 0.0)
    requires Weighted(qs)
    ensures SumP(CompletionOutcomes(run, c, qs, threshold)) == CompletionWeight(run, c, qs)
  {
    if run {
      ScaledMassKept(c, qs, threshold);
    }
  }

  /** The null outcome `cross_product` appends when it completes both
      effects, where there is no threshold. */
  lemma NullOutcomeMass(x: real, threshold: real)
    requires threshold <= 0.0 && x >= 0.0
    ensures Flattened(x, Conjunction([]), threshold).Ok?
    ensures SumP(Flattened(x, Conjunction([]), threshold).value) == x
  {
    if x > 0.0 {
      FlattenedPlain(x, Conjunction([]), threshold);
      assert SumP([Outcome(x, Conjunction([]))]) == SumP([]) + x;
    }
  }
}
