/**
 * `AlgoritmoGenetico`: the population operators (`_selecao`, `_cruzamento`, `_mutacao`) and one run of
 * the generation loop (`executa` without plotting). Every random draw is a parameter.
 */
module Engine {
  import opened Codec
  import opened Outcomes
  import opened Individuals
  import opened Operators
  import opened Sequences
  import opened Records

  /** The draws one pass of the fill loop consumes. */
  datatype BreedDraws = BreedDraws(
    picks: seq<(nat, nat)>,  // each `choices(self.pop, weights=aptidoes, k=2)`, as positions, in order
    coin: real,              // `random()`, compared with `tx_crz`
    k: nat,                  // `randint(1, floor(sqrt(n_bits)))`
    loci: seq<nat>,          // `sorted(sample(range(1, n_bits-2), k))`
    mutCoins: seq<real>,     // `random()` per child, compared with `tx_mut`
    mutLoci: seq<nat>)       // `randint(0, n_bits-1)` per child

  /** The draws one generation consumes: the fill loop's, then the trim loop's `randint(0, len-1)`. */
  datatype GenerationDraws = GenerationDraws(breeds: seq<BreedDraws>, removals: seq<nat>)

  /** Positions of two parents that the redraw loop of `_selecao` treats as the same individual. */
  predicate SameIndividual(pop: seq<Individual>, pick: (nat, nat))
    requires pick.0 < |pop| && pick.1 < |pop|
  {
    pop[pick.0] == pop[pick.1]
  }

  /** Positions of two parents that compare equal under the dataclass `==` the source uses. */
  predicate EqualIndividuals(pop: seq<Individual>, pick: (nat, nat))
    requires pick.0 < |pop| && pick.1 < |pop|
    reads pop[pick.0], pop[pick.1]
  {
    pop[pick.0].SameFields(pop[pick.1])
  }

  /** No individual occurs twice. */
  predicate Distinct(p: seq<Individual>) {
    forall a, b :: 0 <= a < b < |p| ==> p[a] != p[b]
  }

  /** What is left of a list of distinct individuals after removals has no individual twice. */
  lemma DistinctKept(xs: seq<Individual>, ys: seq<Individual>)
    requires Distinct(xs) && KeepsOrder(ys, xs)
    ensures Distinct(ys)
  {
    var idx :| EmbeddedBy(ys, xs, idx);
  }

  /** Appending two new individuals, different from each other, keeps a list free of repeats. */
  lemma DistinctSnoc(p: seq<Individual>, c1: Individual, c2: Individual)
    requires Distinct(p) && c1 !in p && c2 !in p && c1 != c2
    ensures Distinct(p + [c1, c2])
  {
    var q := p + [c1, c2];
    forall a, b | 0 <= a < b < |q|
      ensures q[a] != q[b]
    {
      if b < |p| {
        assert q[a] == p[a] && q[b] == p[b];
      } else if a < |p| {
        assert q[a] in p;
      }
    }
  }

  /** Every drawn pair names two members of the population. */
  predicate PicksInRange(picks: seq<(nat, nat)>, n: nat) {
    forall t :: 0 <= t < |picks| ==> picks[t].0 < n && picks[t].1 < n
  }

  /** Every drawn pair names one member twice, so the redraw loop of `_selecao` never stops. */
  predicate AllCollide(pop: seq<Individual>, picks: seq<(nat, nat)>) {
    PicksInRange(picks, |pop|) && forall t :: 0 <= t < |picks| ==> SameIndividual(pop, picks[t])
  }

  /**
   * `_selecao` as written: draw pairs until the two compare unequal. `Individuo` is a dataclass, so
   * `==` compares fields, and two distinct individuals with the same chromosome count as a collision.
   * `None` means every supplied draw collided, so the source would still be drawing.
   */
  method SelectAsWritten(pop: seq<Individual>, picks: seq<(nat, nat)>) returns (r: Option<(Individual, Individual)>)
    requires PicksInRange(picks, |pop|)
    ensures r.None? <==> forall t :: 0 <= t < |picks| ==> EqualIndividuals(pop, picks[t])
    ensures r.Some? ==> !r.value.0.SameFields(r.value.1)
    ensures r.Some? ==> exists t :: (0 <= t < |picks| && r.value == (pop[picks[t].0], pop[picks[t].1])
      && !EqualIndividuals(pop, picks[t]) && forall u :: 0 <= u < t ==> EqualIndividuals(pop, picks[u]))
  {
    var t := 0;
    while t < |picks|
      invariant 0 <= t <= |picks|
      invariant forall u :: 0 <= u < t ==> EqualIndividuals(pop, picks[u])
    {
      var a, b := pop[picks[t].0], pop[picks[t].1];
      if !a.SameFields(b) {
        return Some((a, b));
      }
      t := t + 1;
    }
    return None;
  }

  /** Draw `t` is the first that names two different individuals: the corrected redraw stops there. */
  predicate FirstDistinctPick(pop: seq<Individual>, picks: seq<(nat, nat)>, t: nat)
    requires PicksInRange(picks, |pop|)
  {
    t < |picks| && !SameIndividual(pop, picks[t]) && forall u :: 0 <= u < t ==> SameIndividual(pop, picks[u])
  }

  /**
   * Where the corrected redraw stops when it starts at draw `from`: the first later draw naming two
   * different individuals, or `|picks|` when there is none.
   */
  function FirstDistinct(pop: seq<Individual>, picks: seq<(nat, nat)>, from: nat): (t: nat)
    requires PicksInRange(picks, |pop|) && from <= |picks|
    ensures from <= t <= |picks|
    decreases |picks| - from
  {
    if from == |picks| || !SameIndividual(pop, picks[from]) then from else FirstDistinct(pop, picks, from + 1)
  }

  /** The first distinct draw is the one `FirstDistinct` finds from any earlier start. */
  lemma {:induction false} FirstDistinctFinds(pop: seq<Individual>, picks: seq<(nat, nat)>, from: nat, t: nat)
    requires PicksInRange(picks, |pop|) && from <= t && FirstDistinctPick(pop, picks, t)
    ensures FirstDistinct(pop, picks, from) == t
    decreases t - from
  {
    if from < t {
      FirstDistinctFinds(pop, picks, from + 1, t);
    }
  }

  /**
   * Started after draws that all picked one individual twice, `FirstDistinct` either finds the first
   * distinct draw or reports that every draw picked one individual twice.
   */
  lemma {:induction false} FirstDistinctIsFirst(pop: seq<Individual>, picks: seq<(nat, nat)>, from: nat)
    requires PicksInRange(picks, |pop|) && from <= |picks|
    requires forall u :: 0 <= u < from ==> SameIndividual(pop, picks[u])
    ensures FirstDistinct(pop, picks, from) < |picks| ==> FirstDistinctPick(pop, picks, FirstDistinct(pop, picks, from))
    ensures FirstDistinct(pop, picks, from) == |picks| <==> forall u :: 0 <= u < |picks| ==> SameIndividual(pop, picks[u])
    decreases |picks| - from
  {
    if from < |picks| && SameIndividual(pop, picks[from]) {
      FirstDistinctIsFirst(pop, picks, from + 1);
    }
  }

  /**
   * `_selecao` with the redraw taken on the same individual, not on equal fields: draw pairs until
   * the two picks are different objects. `None` means every supplied draw picked one object twice.
   */
  method Select(pop: seq<Individual>, picks: seq<(nat, nat)>) returns (r: Option<(Individual, Individual)>)
    requires PicksInRange(picks, |pop|)
    ensures r.None? <==> forall t :: 0 <= t < |picks| ==> SameIndividual(pop, picks[t])
    ensures r.Some? ==> r.value.0 != r.value.1 && r.value.0 in pop && r.value.1 in pop
    ensures r.Some? ==> exists t: nat :: FirstDistinctPick(pop, picks, t) && r.value == (pop[picks[t].0], pop[picks[t].1])
  {
    var t := 0;
    while t < |picks|
      invariant 0 <= t <= |picks|
      invariant forall u :: 0 <= u < t ==> SameIndividual(pop, picks[u])
    {
      var a, b := pop[picks[t].0], pop[picks[t].1];
      if a != b {
        return Some((a, b));
      }
      t := t + 1;
    }
    return None;
  }

  /**
   * Two separate individuals with the same chromosome: every possible draw makes the as-written
   * selection redraw, so it never returns, while the first draw of two different positions ends
   * the corrected one.
   */
  method SelectionStall() returns (asWritten: Option<(Individual, Individual)>, corrected: Option<(Individual, Individual)>)
    ensures asWritten.None? && corrected.Some?
  {
    var a := new Individual(2, 0.0, 1.0, "10", 0);
    var b := new Individual(2, 0.0, 1.0, "10", 0);
    asWritten := SelectAsWritten([a, b], [(0, 0), (0, 1), (1, 0), (1, 1)]);
    var pair, draws := [a, b], [(0, 1)];
    assert draws[0] == (0, 1) && !SameIndividual(pair, draws[0]);
    corrected := Select(pair, draws);
  }

  /**
   * The slice loop of `_cruzamento`: for each slice `[b[s], b[s+1])`, append parent 1's piece to
   * child 1 and parent 2's to child 2 when `s` is even, the other way round when it is odd.
   */
  method Splice(cr1: string, cr2: string, b: seq<nat>) returns (f1: string, f2: string)
    requires |cr1| == |cr2| && IsPartition(b, |cr1|)
    ensures Spliced(f1, f2, cr1, cr2, b)
  {
    f1, f2 := "", "";
    var i := 0;
    while i < |b| - 1
      invariant 0 <= i <= |b| - 1
      invariant |f1| == b[i] && |f2| == b[i]
      invariant forall s: nat, j: nat {:trigger InSlice(b, s, j)} :: s < i && InSlice(b, s, j) ==>
        if s % 2 == 0 then f1[j] == cr1[j] && f2[j] == cr2[j]
        else f1[j] == cr2[j] && f2[j] == cr1[j]
    {
      var lo, hi := b[i], b[i + 1];
      assert hi <= |cr1| by {
        if i + 1 < |b| - 1 {
          assert b[i + 1] < b[|b| - 1];
        }
      }
      if i % 2 == 0 {
        f1, f2 := f1 + cr1[lo..hi], f2 + cr2[lo..hi];
      } else {
        f1, f2 := f1 + cr2[lo..hi], f2 + cr1[lo..hi];
      }
      i := i + 1;
    }
    assert forall s: nat, j: nat :: InSlice(b, s, j) ==> s < |b| - 1;
  }

  /** `[self._objetivo(i.valor) for i in self.pop]`, with the objective `f` supplied by the caller. */
  function Fitness(f: real -> real, p: seq<Individual>): seq<real>
    reads p
    requires forall i :: 0 <= i < |p| ==> p[i].nBits >= 1
  {
    seq(|p|, i requires 0 <= i < |p| reads p => f(p[i].Value()))
  }

  class GeneticAlgorithm {
    /** The hyperparameters `n_geracoes`, `n_pop`, `tx_crz`, `tx_mut`, `v_max`, `v_min`, `n_bits`. */
    const nGenerations: nat
    const nPop: nat
    const txCrz: real
    const txMut: real
    const vMax: real
    const vMin: real
    const nBits: nat

    /** `pop`: the current population. */
    var pop: seq<Individual>
    /** `melhor_individuo`: empty until a run clears the records. */
    var best: Option<BestRecord>
    /** `apt_media`, `apt_maxima`, `apt_minima`, `apt_best`. */
    var meanFitness: seq<real>
    var maxFitness: seq<real>
    var minFitness: seq<real>
    var bestFitness: seq<real>
    /** The fitness vector of each generation since the records were last cleared. */
    ghost var history: seq<seq<real>>

    constructor (nGenerations: nat, nPop: nat, txCrz: real, txMut: real, vMax: real, vMin: real, nBits: nat)
      ensures this.nGenerations == nGenerations && this.nPop == nPop && this.txCrz == txCrz
      ensures this.txMut == txMut && this.vMax == vMax && this.vMin == vMin && this.nBits == nBits
      ensures pop == [] && best == None && history == []
      ensures meanFitness == [] && maxFitness == [] && minFitness == [] && bestFitness == []
    {
      this.nGenerations, this.nPop, this.txCrz, this.txMut := nGenerations, nPop, txCrz, txMut;
      this.vMax, this.vMin, this.nBits := vMax, vMin, nBits;
      pop, best, history := [], None, [];
      meanFitness, maxFitness, minFitness, bestFitness := [], [], [], [];
    }

    /** An individual of this engine: consistent, and built with its bit width and bounds. */
    ghost predicate Member(ind: Individual)
      reads ind
    {
      ind.Valid() && ind.nBits == nBits && ind.lInf == vMin && ind.lSup == vMax
    }

    ghost predicate Members(p: seq<Individual>)
      reads p
    {
      forall i :: 0 <= i < |p| ==> Member(p[i])
    }

    /** Every individual's value is the integer its chromosome decodes to. */
    ghost predicate Decoded(p: seq<Individual>)
      reads p
    {
      forall i :: 0 <= i < |p| ==> IsBits(p[i].chromosome) && p[i].value == BitsToInt(p[i].chromosome) as real
    }

    /** What is left of a consistent, decoded population after removals is consistent and decoded. */
    lemma MembersKept(xs: seq<Individual>, ys: seq<Individual>)
      requires Members(xs) && Decoded(xs) && KeepsOrder(ys, xs)
      ensures Members(ys) && Decoded(ys)
    {
      var idx :| EmbeddedBy(ys, xs, idx);
    }

    /** Appending two consistent, decoded individuals keeps a population consistent and decoded. */
    lemma MembersSnoc(p: seq<Individual>, c1: Individual, c2: Individual)
      requires Members(p) && Decoded(p) && Member(c1) && Member(c2)
      requires c1.value == BitsToInt(c1.chromosome) as real && c2.value == BitsToInt(c2.chromosome) as real
      ensures Members(p + [c1, c2]) && Decoded(p + [c1, c2])
    {
      var q := p + [c1, c2];
      forall i | 0 <= i < |q|
        ensures Member(q[i]) && IsBits(q[i].chromosome) && q[i].value == BitsToInt(q[i].chromosome) as real
      {
        if i < |p| {
          assert q[i] == p[i];
        }
      }
    }

    /** `_limpaRegistros`: empty series and the best record back at `(v_min, 0)`. */
    method ClearRecords()
      modifies this
      ensures meanFitness == [] && maxFitness == [] && minFitness == [] && bestFitness == []
      ensures best == Some(BestRecord(vMin, 0)) && history == []
      ensures pop == old(pop)
    {
      meanFitness, maxFitness, minFitness, bestFitness := [], [], [], [];
      best := Some(BestRecord(vMin, 0));
      history := [];
    }

    /** `_novoIndividuo`: an individual with this engine's bit width and bounds. */
    method NewIndividual(cr: string, draw: nat) returns (r: Result<Individual>)
      requires IsBits(cr) && draw <= Pow2(nBits) - 1
      ensures r.Failure? <==> cr != [] && |cr| != nBits
      ensures r.Success? ==> fresh(r.value) && Member(r.value)
      ensures r.Success? && cr != [] ==> r.value.chromosome == cr && r.value.value == BitsToInt(cr) as real
      ensures r.Success? && cr == [] ==> r.value.value == draw as real && r.value.chromosome == IntToBits(draw, nBits)
    {
      r := Individual.Create(nBits, vMin, vMax, cr, draw);
    }

    /**
     * `_cruzamento`. With `coin >= tx_crz` the children copy the parents' chromosomes. Otherwise the
     * `k` sampled loci (`k * k <= n_bits` is `k <= floor(sqrt(n_bits))`) cut both parents and the
     * children alternate sources slice by slice; `sample` fails when `k` exceeds the `n_bits - 3`
     * interior loci it draws from.
     */
    method Crossover(p1: Individual, p2: Individual, coin: real, k: nat, loci: seq<nat>)
      returns (r: Result<(Individual, Individual)>)
      requires Member(p1) && Member(p2)
      requires 0.0 <= coin < 1.0
      requires coin < txCrz ==> 1 <= k && k * k <= nBits
      requires coin < txCrz && k <= nBits - 3 ==> IsCutSample(loci, k, nBits)
      ensures r.Failure? <==> coin < txCrz && k > nBits - 3
      ensures r.Failure? ==> r.error == SampleLargerThanPopulation
      ensures r.Success? ==> fresh(r.value.0) && fresh(r.value.1) && r.value.0 != r.value.1
      ensures r.Success? ==> Member(r.value.0) && Member(r.value.1)
      ensures r.Success? ==> r.value.0.value == BitsToInt(r.value.0.chromosome) as real
      ensures r.Success? ==> r.value.1.value == BitsToInt(r.value.1.chromosome) as real
      ensures r.Success? && coin >= txCrz ==>
        r.value.0.chromosome == p1.chromosome && r.value.1.chromosome == p2.chromosome
      ensures r.Success? && coin < txCrz ==>
        Spliced(r.value.0.chromosome, r.value.1.chromosome, p1.chromosome, p2.chromosome, Bounds(loci, nBits))
    {
      var cr1, cr2 := p1.chromosome, p2.chromosome;
      var f1, f2;
      if coin >= txCrz {
        f1, f2 := cr1, cr2;
      } else {
        if k > nBits - 3 {
          return Failure(SampleLargerThanPopulation);
        }
        BoundsPartition(loci, k, nBits);
        f1, f2 := Splice(cr1, cr2, Bounds(loci, nBits));
        assert IsBits(f1) && IsBits(f2) by {
          SplicedKeepsColumns(f1, f2, cr1, cr2, Bounds(loci, nBits));
        }
      }
      // With zero bits the chromosome is empty and `Individuo` draws `randint(0, 0)`, which is 0.
      var c1 := NewIndividual(f1, 0);
      var c2 := NewIndividual(f2, 0);
      if c1.Failure? || c2.Failure? {
        assert false;
      }
      r := Success((c1.value, c2.value));
    }

    /** The body of the loop in `_mutacao`, for one individual. */
    method MutateOne(ind: Individual, coin: real, locus: nat)
      requires Member(ind)
      requires coin < txMut ==> locus < nBits
      modifies ind
      ensures MutatedFrom(ind, old(ind.chromosome), old(ind.value), coin, locus)
      ensures Member(ind)
      ensures coin < txMut ==>
        ind.chromosome == Flip(old(ind.chromosome), locus) && ind.value == BitsToInt(ind.chromosome) as real
      ensures !(coin < txMut) ==> ind.chromosome == old(ind.chromosome) && ind.value == old(ind.value)
    {
      if coin < txMut {
        var cr := ind.chromosome;
        var res := ind.SetChromosome(Flip(cr, locus));
      }
    }

    /**
     * `_mutacao`: each individual whose coin is below `tx_mut` gets the bit at its drawn locus
     * flipped, through the chromosome setter; the others are left as they were.
     */
    method Mutate(inds: seq<Individual>, coins: seq<real>, loci: seq<nat>)
      requires |coins| == |inds| && |loci| == |inds|
      requires Members(inds)
      requires forall i :: 0 <= i < |inds| && coins[i] < txMut ==> loci[i] < nBits
      requires forall i, j :: 0 <= i < j < |inds| ==> inds[i] != inds[j]
      modifies inds
      ensures forall i :: 0 <= i < |inds| ==>
        MutatedFrom(inds[i], old(inds[i].chromosome), old(inds[i].value), coins[i], loci[i])
    {
      var i := 0;
      while i < |inds|
        invariant 0 <= i <= |inds|
        invariant forall j :: 0 <= j < i ==>
          MutatedFrom(inds[j], old(inds[j].chromosome), old(inds[j].value), coins[j], loci[j])
        invariant forall j :: i <= j < |inds| ==>
          Member(inds[j]) && inds[j].chromosome == old(inds[j].chromosome) && inds[j].value == old(inds[j].value)
      {
        assert forall j :: 0 <= j < |inds| && j != i ==> inds[j] != inds[i];
        MutateOne(inds[i], coins[i], loci[i]);
        i := i + 1;
      }
    }

    /**
     * One individual after its line of `_mutacao`, from chromosome `cr` and value `v`: still a member,
     * and flipped at `locus` with its value following when `coin` is below `tx_mut`, as it was otherwise.
     */
    ghost predicate MutatedFrom(ind: Individual, cr: string, v: real, coin: real, locus: nat)
      reads ind
    {
      && Member(ind)
      && (coin < txMut ==> locus < |cr| && ind.chromosome == Flip(cr, locus) && ind.value == BitsToInt(ind.chromosome) as real)
      && (!(coin < txMut) ==> ind.chromosome == cr && ind.value == v)
    }

    /**
     * One pass of the fill loop fails: every pick names one individual twice, so the redraw of
     * `_selecao` never ends, or crossover happens and `sample` is asked for more loci than there are.
     */
    predicate PassFails(parents: seq<Individual>, d: BreedDraws) {
      AllCollide(parents, d.picks) || (d.coin < txCrz && d.k > nBits - 3)
    }

    /** None of the first `n` passes of the fill loop fails. */
    predicate PassesSucceed(parents: seq<Individual>, breeds: seq<BreedDraws>, n: nat)
      requires n <= |breeds|
    {
      forall u :: 0 <= u < n ==> !PassFails(parents, breeds[u])
    }

    /** One more pass that does not fail extends the passes that succeed. */
    lemma PassesSucceedSnoc(parents: seq<Individual>, breeds: seq<BreedDraws>, n: nat)
      requires n < |breeds| && PassesSucceed(parents, breeds, n) && !PassFails(parents, breeds[n])
      ensures PassesSucceed(parents, breeds, n + 1)
    {
    }

    /** Some pass of the fill loop fails. */
    predicate FillFails(parents: seq<Individual>, breeds: seq<BreedDraws>) {
      !PassesSucceed(parents, breeds, |breeds|)
    }

    /** A pass's failure read off its draws alone: every pick is one position twice, or the sample is too large. */
    predicate DrawsFail(d: BreedDraws) {
      || (forall t :: 0 <= t < |d.picks| ==> d.picks[t].0 == d.picks[t].1)
      || (d.coin < txCrz && d.k > nBits - 3)
    }

    /** No pass of a generation's fill loop fails on its draws. */
    predicate GenerationSucceeds(d: GenerationDraws) {
      forall t :: 0 <= t < |d.breeds| ==> !DrawsFail(d.breeds[t])
    }

    /** None of the first `n` generations fails on its draws. */
    predicate GenerationsSucceed(gens: seq<GenerationDraws>, n: nat)
      requires n <= |gens|
    {
      forall h :: 0 <= h < n ==> GenerationSucceeds(gens[h])
    }

    /** One more generation that does not fail extends the run of generations that did not. */
    lemma GenerationsSucceedSnoc(gens: seq<GenerationDraws>, n: nat)
      requires n < |gens| && GenerationsSucceed(gens, n) && GenerationSucceeds(gens[n])
      ensures GenerationsSucceed(gens, n + 1)
    {
    }

    /**
     * When `executa` gets through: every start value lies in `[v_min, v_max]`, the
     * decoding's divisor `v_max - v_min` is not zero, a run with generations has a
     * population and a chromosome, and no generation's draws make its fill loop fail.
     */
    predicate RunSucceeds(initValues: seq<real>, gens: seq<GenerationDraws>)
      requires |initValues| == nPop && |gens| == nGenerations
    {
      && (forall i :: 0 <= i < nPop ==> vMin <= initValues[i] <= vMax) && (nPop > 0 ==> vMin < vMax)
      && (nGenerations > 0 ==> nPop > 0 && nBits >= 1)
      && GenerationsSucceed(gens, nGenerations)
    }

    /**
     * In a population of distinct individuals two picks name the same one exactly when they are the
     * same position, so the fill loop fails exactly when the draws of one of its passes fail.
     */
    lemma FillFailsOnDraws(parents: seq<Individual>, breeds: seq<BreedDraws>)
      requires Distinct(parents)
      requires forall t :: 0 <= t < |breeds| ==> PicksInRange(breeds[t].picks, |parents|)
      ensures FillFails(parents, breeds) <==> exists t :: 0 <= t < |breeds| && DrawsFail(breeds[t])
    {
      forall t | 0 <= t < |breeds|
        ensures PassFails(parents, breeds[t]) <==> DrawsFail(breeds[t])
      {
        var picks := breeds[t].picks;
        forall u | 0 <= u < |picks|
          ensures SameIndividual(parents, picks[u]) <==> picks[u].0 == picks[u].1
        {
          var a, b := picks[u].0, picks[u].1;
          if a < b {
            assert parents[a] != parents[b];
          } else if b < a {
            assert parents[b] != parents[a];
          }
        }
      }
    }

    /** A generation started from distinct individuals fails its fill loop exactly when its draws fail. */
    lemma GenerationFailsOnDraws(parents: seq<Individual>, d: GenerationDraws)
      requires Distinct(parents) && |parents| == nPop && ValidGenerationDraws(d)
      ensures FillFails(parents, d.breeds) <==> !GenerationSucceeds(d)
    {
      FillFailsOnDraws(parents, d.breeds);
    }

    /** The ranges of the draws one pass of the fill loop consumes. */
    predicate ValidBreedDraws(d: BreedDraws) {
      && PicksInRange(d.picks, nPop)
      && 0.0 <= d.coin < 1.0
      && (d.coin < txCrz ==> 1 <= d.k && d.k * d.k <= nBits)
      && (d.coin < txCrz && d.k <= nBits - 3 ==> IsCutSample(d.loci, d.k, nBits))
      && |d.mutCoins| == 2 && |d.mutLoci| == 2
      && forall i :: 0 <= i < 2 && d.mutCoins[i] < txMut ==> d.mutLoci[i] < nBits
    }

    /**
     * The ranges of the draws one generation consumes: one set per pass of the fill loop, which runs
     * `ceil(n_pop / 2)` times, and one position per element the trim loop removes.
     */
    predicate ValidGenerationDraws(d: GenerationDraws) {
      && |d.breeds| == (nPop + 1) / 2
      && (forall t :: 0 <= t < |d.breeds| ==> ValidBreedDraws(d.breeds[t]))
      && |d.removals| == 2 * ((nPop + 1) / 2) - nPop
      && ValidRemovals(d.removals, 2 * ((nPop + 1) / 2))
    }

    /** One child's line of `_mutacao`: below `tx_mut` the bit at `locus` flips, otherwise nothing. */
    function Mutated(cr: string, coin: real, locus: nat): string
      requires coin < txMut ==> locus < |cr|
    {
      if coin < txMut then Flip(cr, locus) else cr
    }

    /**
     * The chromosomes one pass of the fill loop gives its two children: copies of the parents' when
     * `random() >= tx_crz`, the two spliced children otherwise, then each mutated under its own draw.
     */
    function Offspring(cr1: string, cr2: string, d: BreedDraws): (string, string)
      requires |cr1| == nBits && |cr2| == nBits && ValidBreedDraws(d)
      requires d.coin < txCrz ==> d.k <= nBits - 3
    {
      var b := Bounds(d.loci, nBits);
      var crossed := if d.coin >= txCrz then (cr1, cr2)
        else (BoundsPartition(d.loci, d.k, nBits); (SpliceChild(cr1, cr2, b), SpliceChild(cr2, cr1, b)));
      (Mutated(crossed.0, d.mutCoins[0], d.mutLoci[0]), Mutated(crossed.1, d.mutCoins[1], d.mutLoci[1]))
    }

    /** `Offspring` in two steps: the crossed chromosomes `g1`, `g2`, then each mutated. */
    lemma OffspringSteps(cr1: string, cr2: string, d: BreedDraws, g1: string, g2: string)
      requires |cr1| == nBits && |cr2| == nBits && ValidBreedDraws(d)
      requires d.coin < txCrz ==> d.k <= nBits - 3
      requires d.coin >= txCrz ==> g1 == cr1 && g2 == cr2
      requires d.coin < txCrz ==> (IsPartition(Bounds(d.loci, nBits), nBits)
        && g1 == SpliceChild(cr1, cr2, Bounds(d.loci, nBits)) && g2 == SpliceChild(cr2, cr1, Bounds(d.loci, nBits)))
      ensures |g1| == nBits && |g2| == nBits
      ensures Offspring(cr1, cr2, d) == (Mutated(g1, d.mutCoins[0], d.mutLoci[0]), Mutated(g2, d.mutCoins[1], d.mutLoci[1]))
    {
    }

    /** Every individual's chromosome is `n_bits` long. */
    ghost predicate OfWidth(p: seq<Individual>)
      reads p
    {
      forall i :: 0 <= i < |p| ==> |p[i].chromosome| == nBits
    }

    /**
     * `c1` and `c2` are what one pass of the fill loop breeds from `parents` with the draws `d`: the
     * first draw naming two different individuals picks the parents, and the children carry the
     * parents' offspring chromosomes.
     */
    ghost predicate BredFrom(parents: seq<Individual>, d: BreedDraws, c1: Individual, c2: Individual)
      reads parents, c1, c2
    {
      && |parents| == nPop && OfWidth(parents) && ValidBreedDraws(d)
      && (d.coin < txCrz ==> d.k <= nBits - 3)
      && c1 != c2
      && var t := FirstDistinct(parents, d.picks, 0);
      && t < |d.picks|
      && (c1.chromosome, c2.chromosome)
         == Offspring(parents[d.picks[t].0].chromosome, parents[d.picks[t].1].chromosome, d)
    }

    /** The pass that used draw `t` for its parents bred `c1` and `c2`. */
    lemma BredFromPick(parents: seq<Individual>, d: BreedDraws, c1: Individual, c2: Individual, t: nat)
      requires |parents| == nPop && OfWidth(parents) && ValidBreedDraws(d)
      requires d.coin < txCrz ==> d.k <= nBits - 3
      requires c1 != c2
      requires FirstDistinctPick(parents, d.picks, t)
      requires (c1.chromosome, c2.chromosome)
        == Offspring(parents[d.picks[t].0].chromosome, parents[d.picks[t].1].chromosome, d)
      ensures BredFrom(parents, d, c1, c2)
    {
      FirstDistinctFinds(parents, d.picks, 0, t);
    }

    /** `children` are the pairs bred from `parents` by the first `n` passes, one per draw set, in order. */
    ghost predicate BredFirst(parents: seq<Individual>, breeds: seq<BreedDraws>, children: seq<Individual>, n: nat)
      reads parents, children
    {
      n <= |breeds| && |children| == 2 * n
      && forall t :: 0 <= t < n ==> BredFrom(parents, breeds[t], children[2 * t], children[2 * t + 1])
    }

    /** `children` are the pairs bred from `parents`, one pass per draw set, in order. */
    ghost predicate BredAll(parents: seq<Individual>, breeds: seq<BreedDraws>, children: seq<Individual>)
      reads parents, children
    {
      BredFirst(parents, breeds, children, |breeds|)
    }

    /** One more pass of the fill loop extends what was bred by its pair. */
    lemma BredFirstSnoc(parents: seq<Individual>, breeds: seq<BreedDraws>, children: seq<Individual>, n: nat,
                        c1: Individual, c2: Individual)
      requires BredFirst(parents, breeds, children, n) && n < |breeds| && BredFrom(parents, breeds[n], c1, c2)
      ensures BredFirst(parents, breeds, children + [c1, c2], n + 1)
    {
      var cs := children + [c1, c2];
      forall t | 0 <= t < n + 1
        ensures BredFrom(parents, breeds[t], cs[2 * t], cs[2 * t + 1])
      {
        if t < n {
          assert cs[2 * t] == children[2 * t] && cs[2 * t + 1] == children[2 * t + 1];
        }
      }
    }

    /** `_mutacao` on the two children of one pass: each is mutated under its own coin and locus. */
    method MutatePair(c1: Individual, c2: Individual, coins: seq<real>, loci: seq<nat>)
      requires Member(c1) && Member(c2) && c1 != c2
      requires |coins| == 2 && |loci| == 2
      requires coins[0] < txMut ==> loci[0] < nBits
      requires coins[1] < txMut ==> loci[1] < nBits
      requires c1.value == BitsToInt(c1.chromosome) as real && c2.value == BitsToInt(c2.chromosome) as real
      modifies c1, c2
      ensures Member(c1) && Member(c2)
      ensures c1.chromosome == Mutated(old(c1.chromosome), coins[0], loci[0])
      ensures c2.chromosome == Mutated(old(c2.chromosome), coins[1], loci[1])
      ensures c1.value == BitsToInt(c1.chromosome) as real && c2.value == BitsToInt(c2.chromosome) as real
    {
      var pair := [c1, c2];
      Mutate(pair, coins, loci);
    }

    /**
     * The rest of one pass of the fill loop once the parents are chosen: `_cruzamento` on them,
     * then `_mutacao` on the two children.
     */
    method CrossAndMutate(p1: Individual, p2: Individual, d: BreedDraws) returns (r: Result<(Individual, Individual)>)
      requires Member(p1) && Member(p2) && ValidBreedDraws(d)
      ensures r.Failure? <==> d.coin < txCrz && d.k > nBits - 3
      ensures r.Failure? ==> r.error == SampleLargerThanPopulation
      ensures r.Success? ==> fresh(r.value.0) && fresh(r.value.1) && r.value.0 != r.value.1
      ensures r.Success? ==> Member(r.value.0) && Member(r.value.1)
      ensures r.Success? ==> r.value.0.value == BitsToInt(r.value.0.chromosome) as real
      ensures r.Success? ==> r.value.1.value == BitsToInt(r.value.1.chromosome) as real
      ensures r.Success? ==> (r.value.0.chromosome, r.value.1.chromosome) == Offspring(p1.chromosome, p2.chromosome, d)
    {
      var kids := Crossover(p1, p2, d.coin, d.k, d.loci);
      if kids.Failure? {
        return Failure(kids.error);
      }
      var c1, c2 := kids.value.0, kids.value.1;
      ghost var g1, g2 := c1.chromosome, c2.chromosome;
      if d.coin < txCrz {
        BoundsPartition(d.loci, d.k, nBits);
        SplicedIsSpliceChild(g1, g2, p1.chromosome, p2.chromosome, Bounds(d.loci, nBits));
      }
      OffspringSteps(p1.chromosome, p2.chromosome, d, g1, g2);
      MutatePair(c1, c2, d.mutCoins, d.mutLoci);
      return Success((c1, c2));
    }

    /**
     * One pass of the fill loop of `executa`: select two parents, cross them over and mutate both
     * children. It fails when the draws run out or the crossover's sample is too large.
     */
    method BreedPair(d: BreedDraws) returns (r: Result<(Individual, Individual)>)
      requires |pop| == nPop && Members(pop)
      requires ValidBreedDraws(d)
      ensures r.Failure? <==> PassFails(pop, d)
      ensures r.Failure? ==> r.error == DrawsExhausted || r.error == SampleLargerThanPopulation
      ensures r.Success? ==> fresh(r.value.0) && fresh(r.value.1)
      ensures r.Success? ==> Member(r.value.0) && Member(r.value.1)
      ensures r.Success? ==> r.value.0.value == BitsToInt(r.value.0.chromosome) as real
      ensures r.Success? ==> r.value.1.value == BitsToInt(r.value.1.chromosome) as real
      ensures r.Success? ==> BredFrom(pop, d, r.value.0, r.value.1)
    {
      var parents := Select(pop, d.picks);
      if parents.None? {
        return Failure(DrawsExhausted);
      }
      ghost var t: nat :| FirstDistinctPick(pop, d.picks, t) && parents.value == (pop[d.picks[t].0], pop[d.picks[t].1]);
      r := CrossAndMutate(parents.value.0, parents.value.1, d);
      if r.Success? {
        assert OfWidth(pop);
        BredFromPick(pop, d, r.value.0, r.value.1, t);
      }
    }

    /**
     * The fill loop of `executa`: while the new population is smaller than `n_pop`, breed a pair and
     * append it. Two children per pass, so it stops with `n_pop` or `n_pop + 1` individuals: the
     * pairs bred from the draw sets in order.
     */
    method Breed(breeds: seq<BreedDraws>) returns (r: Result<seq<Individual>>)
      requires |pop| == nPop && Members(pop)
      requires |breeds| == (nPop + 1) / 2
      requires forall t :: 0 <= t < |breeds| ==> ValidBreedDraws(breeds[t])
      ensures r.Failure? <==> FillFails(pop, breeds)
      ensures r.Failure? ==> r.error == DrawsExhausted || r.error == SampleLargerThanPopulation
      ensures r.Success? ==> |r.value| == 2 * |breeds| && nPop <= |r.value| <= nPop + 1
      ensures r.Success? ==> Members(r.value) && forall c :: c in r.value ==> fresh(c)
      ensures r.Success? ==> Decoded(r.value) && Distinct(r.value)
      ensures r.Success? ==> BredAll(pop, breeds, r.value)
    {
      var next: seq<Individual> := [];
      var t := 0;
      while |next| < nPop
        invariant |next| == 2 * t && 2 * t <= nPop + 1 && t <= |breeds|
        invariant forall c :: c in next ==> fresh(c)
        invariant Members(next) && Decoded(next) && Distinct(next) && BredFirst(pop, breeds, next, t)
        invariant PassesSucceed(pop, breeds, t)
        decreases nPop - |next|
      {
        var longer := BreedStep(breeds, next, t);
        if longer.Failure? {
          return Failure(longer.error);
        }
        PassesSucceedSnoc(pop, breeds, t);
        next := longer.value;
        t := t + 1;
      }
      return Success(next);
    }

    /** One pass of the fill loop: the pair bred from draw set `t` appended to what was bred so far. */
    method BreedStep(breeds: seq<BreedDraws>, next: seq<Individual>, t: nat) returns (r: Result<seq<Individual>>)
      requires |pop| == nPop && Members(pop)
      requires |breeds| == (nPop + 1) / 2
      requires forall t :: 0 <= t < |breeds| ==> ValidBreedDraws(breeds[t])
      requires |next| == 2 * t && |next| < nPop && t < |breeds|
      requires Members(next) && Decoded(next) && Distinct(next) && BredFirst(pop, breeds, next, t)
      ensures r.Failure? <==> PassFails(pop, breeds[t])
      ensures r.Failure? ==> r.error == DrawsExhausted || r.error == SampleLargerThanPopulation
      ensures r.Success? ==> |r.value| == |next| + 2 && forall c :: c in r.value ==> c in next || fresh(c)
      ensures r.Success? ==> Members(r.value) && Decoded(r.value) && Distinct(r.value)
      ensures r.Success? ==> BredFirst(pop, breeds, r.value, t + 1)
    {
      var kids := BreedPair(breeds[t]);
      if kids.Failure? {
        return Failure(kids.error);
      }
      BredFirstSnoc(pop, breeds, next, t, kids.value.0, kids.value.1);
      MembersSnoc(next, kids.value.0, kids.value.1);
      DistinctSnoc(next, kids.value.0, kids.value.1);
      return Success(next + [kids.value.0, kids.value.1]);
    }

    /**
     * The record step of `executa`: the best record moves only on a strictly greater maximum, and
     * the generation's mean fitness is appended to `apt_media`.
     */
    method RecordGeneration(fitness: seq<real>, generation: nat)
      requires |fitness| > 0 && best.Some?
      modifies this
      ensures best == Some(UpdateBest(old(best).value, fitness, generation))
      ensures meanFitness == old(meanFitness) + [Mean(fitness)]
      ensures history == old(history) + [fitness]
      ensures pop == old(pop) && maxFitness == old(maxFitness) && minFitness == old(minFitness)
      ensures bestFitness == old(bestFitness)
    {
      if Max(fitness) > best.value.fitness {
        best := Some(BestRecord(Max(fitness), generation));
      }
      meanFitness := meanFitness + [Mean(fitness)];
      history := history + [fitness];
    }

    /**
     * The start of `executa`: `n_pop` random individuals, each one's value then pushed to its drawn
     * starting point through the `valor` setter, whose first failure ends the run.
     */
    method Populate(initDraws: seq<nat>, initValues: seq<real>) returns (res: Outcome)
      requires |initDraws| == nPop && forall i :: 0 <= i < nPop ==> initDraws[i] <= Pow2(nBits) - 1
      requires |initValues| == nPop
      modifies this
      ensures |pop| == nPop && Members(pop) && forall j :: 0 <= j < nPop ==> fresh(pop[j])
      ensures best == old(best) && history == old(history) && meanFitness == old(meanFitness)
      ensures maxFitness == old(maxFitness) && minFitness == old(minFitness) && bestFitness == old(bestFitness)
      ensures res.Pass? <==> (forall i :: 0 <= i < nPop ==> vMin <= initValues[i] <= vMax) && (nPop > 0 ==> vMin < vMax)
      ensures res.Fail? ==> res.error == ValueOutOfBounds || res.error == DivisionByZero
      ensures Distinct(pop)
      ensures res.Pass? && nBits >= 1 ==> forall j :: 0 <= j < nPop ==> pop[j].Value() == initValues[j]
    {
      var initial: seq<Individual> := [];
      for i := 0 to nPop
        invariant |initial| == i && Members(initial) && Distinct(initial)
        invariant forall j :: 0 <= j < i ==> fresh(initial[j])
        invariant best == old(best) && history == old(history) && meanFitness == old(meanFitness)
        invariant maxFitness == old(maxFitness) && minFitness == old(minFitness) && bestFitness == old(bestFitness)
      {
        var ind := NewIndividual("", initDraws[i]);
        initial := initial + [ind.value];
      }
      pop := initial;
      for i := 0 to nPop
        invariant |pop| == nPop && Members(pop)
        invariant forall j :: 0 <= j < nPop ==> fresh(pop[j])
        invariant Distinct(pop)
        invariant nBits >= 1 ==> forall j :: 0 <= j < i ==> pop[j].Value() == initValues[j]
        invariant forall j :: 0 <= j < i ==> vMin <= initValues[j] <= vMax
        invariant i > 0 ==> vMin < vMax
        invariant best == old(best) && history == old(history) && meanFitness == old(meanFitness)
        invariant maxFitness == old(maxFitness) && minFitness == old(minFitness) && bestFitness == old(bestFitness)
      {
        assert forall j :: 0 <= j < nPop && j != i ==> pop[j] != pop[i];
        var r := pop[i].SetValue(initValues[i]);
        if r.Fail? {
          return r;
        }
      }
      return Pass;
    }

    /**
     * The fill and trim loops of `executa`: breed pairs from the population until there are at least
     * `n_pop` children, then pop drawn positions until exactly `n_pop` remain, in their bred order.
     */
    method Refill(ghost f: real -> real, draws: GenerationDraws) returns (r: Result<seq<Individual>>, ghost bred: seq<Individual>)
      requires |pop| == nPop && Members(pop)
      requires ValidGenerationDraws(draws)
      ensures r.Failure? <==> FillFails(pop, draws.breeds)
      ensures r.Failure? ==> r.error == DrawsExhausted || r.error == SampleLargerThanPopulation
      ensures r.Success? ==> |r.value| == nPop && Members(r.value) && Decoded(r.value) && Distinct(r.value)
      ensures r.Success? ==> BredAll(pop, draws.breeds, bred) && ValidRemovals(draws.removals, |bred|)
      ensures r.Success? ==> r.value == Removed(bred, draws.removals) && KeepsOrder(r.value, bred)
      ensures r.Success? && nBits >= 1 ==> Stepped(f, pop, draws, Fitness(f, pop), bred, r.value)
    {
      bred := [];
      var next := Breed(draws.breeds);
      if next.Failure? {
        return Failure(next.error), bred;
      }
      bred := next.value;
      var kept := Trim(next.value, nPop, draws.removals);
      MembersKept(next.value, kept);
      DistinctKept(next.value, kept);
      return Success(kept), bred;
    }

    /**
     * What one generation does to a population: its fitness row is `f` of each member's decoded
     * value, in population order, the fill loop breeds `children` from it, each with `_valor` its
     * chromosome's decoding, and the trim loop's removals on `children` leave `after`.
     */
    ghost predicate Stepped(f: real -> real, parents: seq<Individual>, d: GenerationDraws, row: seq<real>,
                            children: seq<Individual>, after: seq<Individual>)
      reads parents, children
    {
      && |parents| == nPop && nBits >= 1 && (forall i :: 0 <= i < |parents| ==> parents[i].nBits == nBits)
      && row == Fitness(f, parents)
      && BredAll(parents, d.breeds, children) && Decoded(children)
      && ValidRemovals(d.removals, |children|)
      && after == Removed(children, d.removals)
    }

    /**
     * A run so far: generation `h` started from `pops[h]`, recorded `history[h]`, bred `breds[h]`
     * with the draws `gens[h]` and left `pops[h + 1]`.
     */
    ghost predicate Evolution(f: real -> real, pops: seq<seq<Individual>>, gens: seq<GenerationDraws>,
                              history: seq<seq<real>>, breds: seq<seq<Individual>>)
      reads set h, i | 0 <= h < |pops| && 0 <= i < |pops[h]| :: pops[h][i]
      reads set h, i | 0 <= h < |breds| && 0 <= i < |breds[h]| :: breds[h][i]
    {
      && |pops| == |breds| + 1 && |history| == |breds| && |breds| <= |gens|
      && forall h :: 0 <= h < |breds| ==> Stepped(f, pops[h], gens[h], history[h], breds[h], pops[h + 1])
    }

    /** A run so far stays what it was while none of its individuals change. */
    twostate lemma EvolutionUnchanged(new f: real -> real, new pops: seq<seq<Individual>>, new gens: seq<GenerationDraws>,
                                      new history: seq<seq<real>>, new breds: seq<seq<Individual>>)
      requires old(allocated(pops)) && old(allocated(breds))
      requires old(Evolution(f, pops, gens, history, breds))
      requires forall h, i :: 0 <= h < |pops| && 0 <= i < |pops[h]| ==> unchanged(pops[h][i])
      requires forall h, i :: 0 <= h < |breds| && 0 <= i < |breds[h]| ==> unchanged(breds[h][i])
      ensures Evolution(f, pops, gens, history, breds)
    {
    }

    /** One more generation extends a run. */
    lemma EvolutionSnoc(f: real -> real, pops: seq<seq<Individual>>, gens: seq<GenerationDraws>,
                        history: seq<seq<real>>, breds: seq<seq<Individual>>,
                        row: seq<real>, bred: seq<Individual>, after: seq<Individual>)
      requires Evolution(f, pops, gens, history, breds) && |breds| < |gens|
      requires Stepped(f, pops[|breds|], gens[|breds|], row, bred, after)
      ensures Evolution(f, pops + [after], gens, history + [row], breds + [bred])
    {
      var ps, hs, bs := pops + [after], history + [row], breds + [bred];
      forall h | 0 <= h < |bs|
        ensures Stepped(f, ps[h], gens[h], hs[h], bs[h], ps[h + 1])
      {
        if h < |breds| {
          assert ps[h] == pops[h] && ps[h + 1] == pops[h + 1] && hs[h] == history[h] && bs[h] == breds[h];
        }
      }
    }

    /**
     * One generation of `executa`: evaluate the population, record the generation, fill a new
     * population and trim it back to `n_pop`. `bred` is the filled population before the trim.
     */
    method Generation(f: real -> real, generation: nat, draws: GenerationDraws)
      returns (res: Outcome, ghost row: seq<real>, ghost bred: seq<Individual>)
      requires |pop| == nPop && Members(pop) && best.Some?
      requires ValidGenerationDraws(draws)
      modifies this
      ensures res.Pass? <==> nPop > 0 && nBits >= 1 && !FillFails(old(pop), draws.breeds)
      ensures res.Pass? ==> |pop| == nPop && Members(pop) && Decoded(pop) && Distinct(pop)
      ensures res.Pass? ==> row == old(Fitness(f, pop))
      ensures res.Pass? ==> Stepped(f, old(pop), draws, row, bred, pop) && KeepsOrder(pop, bred)
      ensures res.Pass? ==> history == old(history) + [row]
      ensures res.Pass? ==> best == Some(UpdateBest(old(best).value, row, generation))
      ensures res.Pass? ==> meanFitness == old(meanFitness) + [Mean(row)]
      ensures maxFitness == old(maxFitness) && minFitness == old(minFitness) && bestFitness == old(bestFitness)
      ensures nPop > 0 && nBits == 0 ==> res == Fail(DivisionByZero)
      ensures nPop == 0 ==> res == Fail(EmptyPopulation)
    {
      row, bred := [], [];
      if nPop > 0 && nBits == 0 {
        res := Fail(DivisionByZero);
        return;
      }
      var fitness := Fitness(f, pop);
      if |fitness| == 0 {
        res := Fail(EmptyPopulation);
        return;
      }
      RecordGeneration(fitness, generation);
      row := fitness;
      res, bred := Advance(f, draws);
    }

    /** The fill and trim loops of one generation: the population is replaced by what they leave. */
    method Advance(ghost f: real -> real, draws: GenerationDraws) returns (res: Outcome, ghost bred: seq<Individual>)
      requires |pop| == nPop && Members(pop) && nPop > 0 && nBits >= 1
      requires ValidGenerationDraws(draws)
      modifies this
      ensures res.Fail? <==> FillFails(old(pop), draws.breeds)
      ensures res.Pass? || res == Fail(DrawsExhausted) || res == Fail(SampleLargerThanPopulation)
      ensures res.Pass? ==> |pop| == nPop && Members(pop) && Decoded(pop) && Distinct(pop)
      ensures res.Pass? ==> Stepped(f, old(pop), draws, old(Fitness(f, pop)), bred, pop) && KeepsOrder(pop, bred)
      ensures history == old(history) && best == old(best) && meanFitness == old(meanFitness)
      ensures maxFitness == old(maxFitness) && minFitness == old(minFitness) && bestFitness == old(bestFitness)
    {
      var next;
      next, bred := Refill(f, draws);
      if next.Failure? {
        return Fail(next.error), bred;
      }
      pop := next.value;
      res := Pass;
    }

    /**
     * The records of a run after the generations `rows`: every row holds one fitness per member,
     * the best record is the fold of the record step over the rows, and `means` holds each row's mean.
     */
    ghost predicate RecordsOf(rows: seq<seq<real>>, record: Option<BestRecord>, means: seq<real>) {
      && NonEmptyRows(rows) && (forall h :: 0 <= h < |rows| ==> |rows[h]| == nPop)
      && record == Some(BestAfter(vMin, rows))
      && |means| == |rows| && forall h :: 0 <= h < |rows| ==> means[h] == Mean(rows[h])
    }

    /** The record step of generation `|rows| + 1` extends the records by its row. */
    lemma RecordsOfSnoc(rows: seq<seq<real>>, record: Option<BestRecord>, means: seq<real>, row: seq<real>, generation: nat)
      requires RecordsOf(rows, record, means) && |row| == nPop && nPop > 0 && generation == |rows| + 1
      ensures RecordsOf(rows + [row], Some(UpdateBest(record.value, row, generation)), means + [Mean(row)])
    {
      assert (rows + [row])[..|rows|] == rows;
    }

    /**
     * A run after the generations `breds` bred: the current population is consistent, the records
     * summarise the history and the series `executa` never fills are empty, `pops` and `breds`
     * record each generation, and `first` is the fitness row of the initial population.
     */
    ghost predicate Ran(f: real -> real, gens: seq<GenerationDraws>, pops: seq<seq<Individual>>,
                        breds: seq<seq<Individual>>, first: seq<real>)
      reads this, pop
      reads set h, i | 0 <= h < |pops| && 0 <= i < |pops[h]| :: pops[h][i]
      reads set h, i | 0 <= h < |breds| && 0 <= i < |breds[h]| :: breds[h][i]
    {
      && |pop| == nPop && Members(pop) && Distinct(pop) && (|breds| > 0 ==> Decoded(pop))
      && |history| == |breds| && RecordsOf(history, best, meanFitness)
      && maxFitness == [] && minFitness == [] && bestFitness == []
      && (|breds| > 0 ==> nPop > 0 && nBits >= 1)
      && |breds| <= |gens| && GenerationsSucceed(gens, |breds|)
      && |pops| == |breds| + 1 && pops[|breds|] == pop
      && Evolution(f, pops, gens, history, breds)
      && (|breds| == 0 && nBits >= 1 ==> first == Fitness(f, pop))
      && (|breds| > 0 ==> history[0] == first)
    }

    /** A generation that got through, with the records it added, extends a run by one generation. */
    lemma RanSnoc(f: real -> real, gens: seq<GenerationDraws>, pops: seq<seq<Individual>>, breds: seq<seq<Individual>>,
                  first: seq<real>, rows: seq<seq<real>>, record: Option<BestRecord>, means: seq<real>,
                  row: seq<real>, bred: seq<Individual>)
      requires Evolution(f, pops, gens, rows, breds) && |breds| < |gens| && |rows| == |breds|
      requires Stepped(f, pops[|breds|], gens[|breds|], row, bred, pop)
      requires RecordsOf(rows, record, means) && nPop > 0
      requires history == rows + [row] && meanFitness == means + [Mean(row)]
      requires best == Some(UpdateBest(record.value, row, |breds| + 1))
      requires maxFitness == [] && minFitness == [] && bestFitness == []
      requires |pop| == nPop && Members(pop) && Distinct(pop) && Decoded(pop)
      requires GenerationsSucceed(gens, |breds|) && GenerationSucceeds(gens[|breds|])
      requires (if |breds| == 0 then row else rows[0]) == first
      ensures Ran(f, gens, pops + [pop], breds + [bred], first)
    {
      EvolutionSnoc(f, pops, gens, rows, breds, row, bred, pop);
      RecordsOfSnoc(rows, record, means, row, |breds| + 1);
      GenerationsSucceedSnoc(gens, |breds|);
    }

    /**
     * One pass of the generation loop of `executa` as the run sees it: `Generation`, with the
     * population it started from and the one it bred appended to the run's record.
     */
    method RunGeneration(f: real -> real, generation: nat, gens: seq<GenerationDraws>,
                         ghost pops: seq<seq<Individual>>, ghost breds: seq<seq<Individual>>, ghost first: seq<real>)
      returns (res: Outcome, ghost pops': seq<seq<Individual>>, ghost breds': seq<seq<Individual>>)
      requires Ran(f, gens, pops, breds, first)
      requires generation == |breds| + 1 <= |gens| && ValidGenerationDraws(gens[generation - 1])
      modifies this
      ensures res.Pass? <==> nPop > 0 && nBits >= 1 && GenerationSucceeds(gens[generation - 1])
      ensures res.Pass? ==> |breds'| == |breds| + 1 && Ran(f, gens, pops', breds', first)
    {
      GenerationFailsOnDraws(pop, gens[|breds|]);
      ghost var rows, record, means := history, best, meanFitness;
      ghost var row, bred;
      assert gens[generation - 1] == gens[|breds|];
      res, row, bred := Generation(f, generation, gens[generation - 1]);
      pops', breds' := pops, breds;
      if res.Pass? {
        EvolutionUnchanged(f, pops, gens, rows, breds);
        RanSnoc(f, gens, pops, breds, first, rows, record, means, row, bred);
        pops', breds' := pops + [pop], breds + [bred];
      }
    }

    /**
     * `executa(plot=False)`: clear the records, build the population, then run `n_geracoes`
     * generations. On success the population has exactly `n_pop` members, `apt_media` has one
     * mean per generation, and the best record is the fold of the record step over all generations.
     * `pops[g]` is the population generation `g` starts from (`pops[0]` the initial one, the last
     * the final one) and `breds[g]` what its fill loop bred.
     */
    method Run(f: real -> real, initDraws: seq<nat>, initValues: seq<real>, gens: seq<GenerationDraws>)
      returns (res: Outcome, ghost pops: seq<seq<Individual>>, ghost breds: seq<seq<Individual>>)
      requires |initDraws| == nPop && forall i :: 0 <= i < nPop ==> initDraws[i] <= Pow2(nBits) - 1
      requires |initValues| == nPop
      requires |gens| == nGenerations && forall g :: 0 <= g < nGenerations ==> ValidGenerationDraws(gens[g])
      modifies this
      ensures res.Pass? ==> |pop| == nPop && Members(pop)
      ensures res.Pass? ==> |history| == nGenerations && NonEmptyRows(history)
      ensures res.Pass? ==> forall g :: 0 <= g < nGenerations ==> |history[g]| == nPop
      ensures res.Pass? ==> best == Some(BestAfter(vMin, history))
      ensures res.Pass? ==> |meanFitness| == nGenerations
      ensures res.Pass? ==> forall g :: 0 <= g < nGenerations ==> meanFitness[g] == Mean(history[g])
      ensures res.Pass? ==> maxFitness == [] && minFitness == [] && bestFitness == []
      ensures res.Pass? <==> RunSucceeds(initValues, gens)
      ensures res.Pass? && nGenerations > 0 ==> Decoded(pop)
      ensures res.Pass? ==> |pops| == nGenerations + 1 && |breds| == nGenerations && pops[nGenerations] == pop
      ensures res.Pass? ==> Evolution(f, pops, gens, history, breds)
      ensures res.Pass? && nGenerations > 0 ==> forall j :: 0 <= j < nPop ==> history[0][j] == f(initValues[j])
    {
      pops, breds := [], [];
      ClearRecords();
      res := Populate(initDraws, initValues);
      if res.Fail? {
        return;
      }
      pops := [pop];
      ghost var first: seq<real> := [];
      if nBits >= 1 {
        first := Fitness(f, pop);
      }
      var g := 1;
      while g <= nGenerations
        invariant 1 <= g <= nGenerations + 1 && |breds| == g - 1
        invariant Ran(f, gens, pops, breds, first)
        invariant res.Pass?
        invariant nBits >= 1 ==> |first| == nPop && forall j :: 0 <= j < nPop ==> first[j] == f(initValues[j])
      {
        res, pops, breds := RunGeneration(f, g, gens, pops, breds, first);
        if res.Fail? {
          if nPop > 0 && nBits >= 1 {
            assert !GenerationSucceeds(gens[g - 1]);
          }
          return;
        }
        g := g + 1;
      }
    }
  }
}
