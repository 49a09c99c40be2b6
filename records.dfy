/**
 * The per-generation bookkeeping of `executa`: the fitness aggregates and the best-individual
 * record `melhor_individuo`, which `_limpaRegistros` starts at `(v_min, 0)`.
 */
module Records {

  /** `melhor_individuo`: `{'aptidao': fitness, 'geracao_encontrado': generation}`. */
  datatype BestRecord = BestRecord(fitness: real, generation: nat)

  /** `max(aptidoes)` */
  function Max(xs: seq<real>): (m: real)
    requires |xs| > 0
    ensures exists i :: 0 <= i < |xs| && xs[i] == m
    ensures forall i :: 0 <= i < |xs| ==> xs[i] <= m
  {
    if |xs| == 1 then xs[0]
    else
      var m := Max(xs[..|xs| - 1]);
      if xs[|xs| - 1] > m then xs[|xs| - 1] else m
  }

  function Sum(xs: seq<real>): real {
    if xs == [] then 0.0 else Sum(xs[..|xs| - 1]) + xs[|xs| - 1]
  }

  /** `average(aptidoes)`: the arithmetic mean. */
  function Mean(xs: seq<real>): real
    requires |xs| > 0
  {
    Sum(xs) / |xs| as real
  }

  /** A sum of `|xs|` terms, each in `[lo, hi]`, lies between `|xs| * lo` and `|xs| * hi`. */
  lemma {:induction false} SumWithin(xs: seq<real>, lo: real, hi: real)
    requires forall i :: 0 <= i < |xs| ==> lo <= xs[i] <= hi
    ensures |xs| as real * lo <= Sum(xs) <= |xs| as real * hi
  {
    if xs != [] {
      SumWithin(xs[..|xs| - 1], lo, hi);
      assert |xs| as real * lo == (|xs| - 1) as real * lo + lo;
      assert |xs| as real * hi == (|xs| - 1) as real * hi + hi;
    }
  }

  /** The mean fitness of a generation lies between its smallest and largest fitness. */
  lemma MeanWithin(xs: seq<real>, lo: real, hi: real)
    requires |xs| > 0 && forall i :: 0 <= i < |xs| ==> lo <= xs[i] <= hi
    ensures lo <= Mean(xs) <= hi
  {
    SumWithin(xs, lo, hi);
    QuotientWithin(Sum(xs), |xs| as real, lo, hi);
  }

  /** A quotient by a positive `n` of a number in `[n * lo, n * hi]` lies in `[lo, hi]`. */
  lemma QuotientWithin(a: real, n: real, lo: real, hi: real)
    requires n > 0.0 && n * lo <= a <= n * hi
    ensures lo <= a / n <= hi
  {
    var q := a / n;
    assert q * n == a;
    assert q < lo ==> q * n < lo * n;
    assert q > hi ==> q * n > hi * n;
  }

  /**
   * The record step of `executa`: the record moves only when this generation's best fitness is
   * strictly greater, and then holds that fitness and this generation.
   */
  function UpdateBest(best: BestRecord, fitness: seq<real>, generation: nat): (r: BestRecord)
    requires |fitness| > 0
    ensures r.fitness >= best.fitness && r.fitness >= Max(fitness)
    ensures r != best <==> Max(fitness) > best.fitness
    ensures r != best ==> r == BestRecord(Max(fitness), generation)
  {
    if Max(fitness) > best.fitness then BestRecord(Max(fitness), generation) else best
  }

  /** Every generation evaluated at least one individual. */
  predicate NonEmptyRows(history: seq<seq<real>>) {
    forall g :: 0 <= g < |history| ==> |history[g]| > 0
  }

  /** The record after the generations `1 .. |history|`, starting from `(v_min, 0)`. */
  function BestAfter(vMin: real, history: seq<seq<real>>): BestRecord
    requires NonEmptyRows(history)
  {
    if history == [] then BestRecord(vMin, 0)
    else UpdateBest(BestAfter(vMin, history[..|history| - 1]), history[|history| - 1], |history|)
  }

  /**
   * The record holds the largest of `v_min` and every generation's maximum; its generation is the
   * first (1-based) one that reached it, or 0 when no generation beat `v_min`.
   */
  lemma {:induction false} BestAfterIsFirstMaximum(vMin: real, history: seq<seq<real>>)
    requires NonEmptyRows(history)
    ensures var r := BestAfter(vMin, history);
      && r.fitness >= vMin
      && (forall g :: 0 <= g < |history| ==> Max(history[g]) <= r.fitness)
      && r.generation <= |history|
      && (r.generation == 0 ==> r.fitness == vMin)
      && (r.generation > 0 ==>
            && r.fitness > vMin
            && Max(history[r.generation - 1]) == r.fitness
            && forall g :: 0 <= g < r.generation - 1 ==> Max(history[g]) < r.fitness)
  {
    if history != [] {
      var init := history[..|history| - 1];
      BestAfterIsFirstMaximum(vMin, init);
      assert forall g :: 0 <= g < |init| ==> history[g] == init[g];
    }
  }

  /** The record's fitness never decreases from one generation to the next. */
  lemma {:induction false} BestNeverDecreases(vMin: real, history: seq<seq<real>>, i: nat)
    requires NonEmptyRows(history) && i <= |history|
    ensures BestAfter(vMin, history[..i]).fitness <= BestAfter(vMin, history).fitness
    decreases |history| - i
  {
    if i < |history| {
      BestNeverDecreases(vMin, history, i + 1);
      assert history[..i + 1][..i] == history[..i];
    } else {
      assert history[..i] == history;
    }
  }
}
