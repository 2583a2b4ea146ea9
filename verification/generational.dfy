/**
 The generational genetic algorithm of the older driver
 (`genetic_algorithm`) on the alternative encoding, with its local
 operators: a tournament of two, one-point crossover with the cut drawn over
 the whole chromosome, the ungated descending mutation and the countdown
 termination `(*iteration_count)--`. Both probability gates are inverted in
 the source: an operator runs when its probability is BELOW the draw `u`.
 */
module Generational {
  import opened Seqs
  import opened Encoding
  import opened Selection
  import opened AltOperators
  import opened Config

  /** The genes of an `alternative_solution_t`. */
  type Specimen = seq<int>

  /** Every specimen has `len` genes and keeps the positional bound. */
  predicate Specimens(pop: seq<Specimen>, len: nat) {
    forall k :: 0 <= k < |pop| ==> |pop[k]| == len && PositionalBound(pop[k])
  }

  /** The gate draw of one pair and the cut drawn when the gate opens. */
  datatype CrossoverGate = CrossoverGate(u: real, cut: int)

  /** The draws of one generation, in the order the source makes them. */
  datatype GenerationDraw = GenerationDraw(selection: seq<TournamentDraw>, crossover: seq<CrossoverGate>,
                                           mutation: seq<MutationDraw>)

  /**
   The draws fit a population of `size` from an initial population of `n`:
   n tournaments over `size` indices, n/2 crossover gates whose cut lies in
   [0, len) when open, n/2 mutation gates whose position lies in [0, len-2]
   and value in [0, len-1-pos] when open.
   */
  predicate GenerationDrawFits(size: nat, n: nat, len: nat, pc: real, pm: real, d: GenerationDraw) {
    SelectionFits(size, n, d.selection) && CrossoverFits(n / 2, len, pc, d.crossover) &&
    MutationFits(n / 2, len, pm, d.mutation)
  }

  predicate SelectionFits(size: nat, n: nat, sel: seq<TournamentDraw>) {
    |sel| == n && forall i :: 0 <= i < n ==> 0 <= sel[i].first < size && 0 <= sel[i].second < size
  }

  predicate CrossoverFits(pairs: nat, len: nat, pc: real, gates: seq<CrossoverGate>) {
    |gates| == pairs && forall c :: 0 <= c < pairs && pc < gates[c].u ==> 0 <= gates[c].cut < len
  }

  predicate MutationFits(pairs: nat, len: nat, pm: real, draws: seq<MutationDraw>) {
    |draws| == pairs &&
    forall c :: 0 <= c < pairs && pm < draws[c].u ==>
      0 <= draws[c].pos <= len - 2 && 0 <= draws[c].value <= len - 1 - draws[c].pos
  }

  /**
   The selection loop: n parents, each the member of the current population
   at the index `selection_f` picks from the fitness vector; the first draw
   wins only when strictly fitter.
   */
  function Parents(pop: seq<Specimen>, fitness: Specimen -> real, n: nat, sel: seq<TournamentDraw>)
    : (parents: seq<Specimen>)
    requires SelectionFits(|pop|, n, sel)
    ensures |parents| == n
    ensures forall i :: 0 <= i < n ==>
      parents[i] in pop &&
      (parents[i] == pop[sel[i].first] || parents[i] == pop[sel[i].second]) &&
      fitness(pop[sel[i].first]) <= fitness(parents[i]) && fitness(pop[sel[i].second]) <= fitness(parents[i]) &&
      (fitness(pop[sel[i].first]) <= fitness(pop[sel[i].second]) ==> parents[i] == pop[sel[i].second])
  {
    var f := FitnessVector(pop, fitness);
    seq(n, i requires 0 <= i < n => pop[Tournament(f, TournamentDraw(sel[i].first, sel[i].second))])
  }

  /** Two parents or two children, as the crossover and mutation loops step over them. */
  type Couple = (Specimen, Specimen)

  /** Both members of every couple have `len` genes and keep the positional bound. */
  predicate Couples(cs: seq<Couple>, len: nat) {
    forall c :: 0 <= c < |cs| ==>
      |cs[c].0| == len && PositionalBound(cs[c].0) && |cs[c].1| == len && PositionalBound(cs[c].1)
  }

  /**
   The couples the loops visit: indices (2c, 2c+1) while 2c < n-1, so an odd
   last parent is never used.
   */
  function Pair(parents: seq<Specimen>): (cs: seq<Couple>)
    ensures |cs| == |parents| / 2
    ensures forall c :: 0 <= c < |cs| ==> 2 * c + 1 < |parents| && cs[c] == (parents[2 * c], parents[2 * c + 1])
  {
    seq(|parents| / 2, c requires 0 <= c < |parents| / 2 => (parents[2 * c], parents[2 * c + 1]))
  }

  /** Pairing keeps every specimen's length and bound. */
  lemma PairCouples(parents: seq<Specimen>, len: nat)
    requires Specimens(parents, len)
    ensures Couples(Pair(parents), len)
  {
  }

  /**
   The couples back as a population, in the order the loops pushed them:
   children 2c and 2c+1 are the members of couple c.
   */
  function Unpair(cs: seq<Couple>): (pop: seq<Specimen>)
    ensures |pop| == 2 * |cs|
  {
    if cs == [] then [] else [cs[0].0, cs[0].1] + Unpair(cs[1..])
  }

  /** Unpairing places couple c at indices 2c and 2c+1. */
  lemma {:induction false} UnpairPlaces(cs: seq<Couple>)
    ensures forall c :: 0 <= c < |cs| ==> Unpair(cs)[2 * c] == cs[c].0 && Unpair(cs)[2 * c + 1] == cs[c].1
  {
    if cs != [] {
      UnpairPlaces(cs[1..]);
      var rest := Unpair(cs[1..]);
      assert Unpair(cs) == [cs[0].0, cs[0].1] + rest;
      forall c | 0 <= c < |cs| ensures Unpair(cs)[2 * c] == cs[c].0 && Unpair(cs)[2 * c + 1] == cs[c].1 {
        if c > 0 {
          assert Unpair(cs)[2 * c] == rest[2 * (c - 1)];
          assert Unpair(cs)[2 * c + 1] == rest[2 * (c - 1) + 1];
        }
      }
    }
  }

  /** Unpairing after pairing gives back the parents, less an odd last one. */
  lemma UnpairPair(parents: seq<Specimen>)
    ensures Unpair(Pair(parents)) == parents[..2 * (|parents| / 2)]
  {
    var cs := Pair(parents);
    UnpairPlaces(cs);
    forall k | 0 <= k < 2 * (|parents| / 2) ensures Unpair(cs)[k] == parents[k] {
      var c := k / 2;
      assert k == 2 * c || k == 2 * c + 1;
    }
  }

  /** Unpaired couples are specimens of the same length and bound. */
  lemma {:induction false} UnpairSpecimens(cs: seq<Couple>, len: nat)
    requires Couples(cs, len)
    ensures Specimens(Unpair(cs), len)
  {
    if cs != [] {
      UnpairSpecimens(cs[1..], len);
      assert Couples(cs[1..], len) by {
        forall c | 0 <= c < |cs| - 1 ensures |cs[1..][c].0| == len && PositionalBound(cs[1..][c].0) &&
                                             |cs[1..][c].1| == len && PositionalBound(cs[1..][c].1) {
          assert cs[1..][c] == cs[c + 1];
        }
      }
      var rest := Unpair(cs[1..]);
      forall k | 0 <= k < |Unpair(cs)| ensures |Unpair(cs)[k]| == len && PositionalBound(Unpair(cs)[k]) {
        if k >= 2 {
          assert Unpair(cs)[k] == rest[k - 2];
        }
      }
    }
  }

  /** One pass of the crossover loop: crossed at the cut when pc < u, else copied. */
  function Cross(couple: Couple, pc: real, g: CrossoverGate): (r: Couple)
    requires |couple.0| == |couple.1| && (pc < g.u ==> 0 <= g.cut < |couple.0|)
    ensures ExchangesGenes(couple.0, couple.1, r.0, r.1)
    ensures !(pc < g.u) ==> r == couple
    ensures pc < g.u ==> r == OnePoint(couple.0, couple.1, g.cut)
  {
    if pc < g.u then OnePoint(couple.0, couple.1, g.cut) else couple
  }

  /**
   The crossover loop: couple c is crossed at its cut when pc < u and copied
   otherwise; either way each child gene is one of the two parent genes at
   that index, so the positional bound is kept.
   */
  function Crossed(cs: seq<Couple>, len: nat, pc: real, gates: seq<CrossoverGate>): (r: seq<Couple>)
    requires Couples(cs, len) && CrossoverFits(|cs|, len, pc, gates)
    ensures |r| == |cs|
    ensures forall c :: 0 <= c < |cs| && !(pc < gates[c].u) ==> r[c] == cs[c]
    ensures forall c :: 0 <= c < |cs| && pc < gates[c].u ==> r[c] == OnePoint(cs[c].0, cs[c].1, gates[c].cut)
    ensures Couples(r, len)
  {
    var r := seq(|cs|, c requires 0 <= c < |cs| => Cross(cs[c], pc, gates[c]));
    assert Couples(r, len) by {
      forall c | 0 <= c < |cs| ensures PositionalBound(r[c].0) && PositionalBound(r[c].1) {
        ExchangeKeepsBound(cs[c].0, cs[c].1, r[c].0, r[c].1);
      }
    }
    r
  }

  /**
   The mutation loop: the first child of couple c (child 2c) is mutated when
   pm < u; the second child of every couple is never touched.
   */
  function Mutated(cs: seq<Couple>, len: nat, pm: real, draws: seq<MutationDraw>): (r: seq<Couple>)
    requires Couples(cs, len) && MutationFits(|cs|, len, pm, draws)
    ensures |r| == |cs|
    ensures forall c :: 0 <= c < |cs| ==> r[c].1 == cs[c].1
    ensures forall c :: 0 <= c < |cs| && !(pm < draws[c].u) ==> r[c].0 == cs[c].0
    ensures forall c :: 0 <= c < |cs| && pm < draws[c].u ==>
      |r[c].0| == len && 0 <= draws[c].pos < len && r[c].0[draws[c].pos] == draws[c].value &&
      forall i :: 0 <= i < len && i != draws[c].pos ==> r[c].0[i] == cs[c].0[i]
    ensures Couples(r, len)
  {
    seq(|cs|, c requires 0 <= c < |cs| =>
      if pm < draws[c].u then (ChangeOneGene(cs[c].0, draws[c].pos, draws[c].value), cs[c].1) else cs[c])
  }

  /**
   One generation: select n parents, cross the couples, mutate the first
   child of each, and push the children back in order.
   */
  function Generation(pop: seq<Specimen>, fitness: Specimen -> real, n: nat, len: nat, pc: real, pm: real,
                      d: GenerationDraw): (next: seq<Specimen>)
    requires Specimens(pop, len) && GenerationDrawFits(|pop|, n, len, pc, pm, d)
    ensures |next| == 2 * (n / 2)
    ensures Specimens(next, len)
  {
    var parents := Parents(pop, fitness, n, d.selection);
    PairCouples(parents, len);
    var children := Mutated(Crossed(Pair(parents), len, pc, d.crossover), len, pm, d.mutation);
    UnpairSpecimens(children, len);
    Unpair(children)
  }

  /**
   With every gate shut (each draw u at most the probability), a generation
   is selection alone: the selected parents, less an odd last one.
   */
  lemma ShutGatesOnlySelect(pop: seq<Specimen>, fitness: Specimen -> real, n: nat, len: nat, pc: real, pm: real,
                            d: GenerationDraw)
    requires Specimens(pop, len) && GenerationDrawFits(|pop|, n, len, pc, pm, d)
    requires forall c :: 0 <= c < n / 2 ==> d.crossover[c].u <= pc && d.mutation[c].u <= pm
    ensures Generation(pop, fitness, n, len, pc, pm, d) == Parents(pop, fitness, n, d.selection)[..2 * (n / 2)]
  {
    var parents := Parents(pop, fitness, n, d.selection);
    PairCouples(parents, len);
    var crossed := Crossed(Pair(parents), len, pc, d.crossover);
    assert crossed == Pair(parents);
    var mutated := Mutated(crossed, len, pm, d.mutation);
    assert mutated == crossed;
    UnpairPair(parents);
  }

  /**
   A run of generations: `trace[0]` is the initial population of n
   members, and each later population is one generation of the one before,
   bred with that generation's draws.
   */
  predicate Evolution(trace: seq<seq<Specimen>>, fitness: Specimen -> real, n: nat, len: nat, pc: real, pm: real,
                      draws: seq<GenerationDraw>)
  {
    |trace| <= |draws| + 1 &&
    (forall g :: 0 <= g < |trace| ==> Specimens(trace[g], len) && |trace[g]| == if g == 0 then n else 2 * (n / 2)) &&
    forall g :: 0 <= g < |trace| - 1 ==>
      GenerationDrawFits(|trace[g]|, n, len, pc, pm, draws[g]) &&
      trace[g + 1] == Generation(trace[g], fitness, n, len, pc, pm, draws[g])
  }

  /** Breeding the last population of a run with the next draws extends the run. */
  lemma EvolutionStep(trace: seq<seq<Specimen>>, next: seq<Specimen>, fitness: Specimen -> real, n: nat, len: nat,
                      pc: real, pm: real, draws: seq<GenerationDraw>)
    requires 0 < |trace| <= |draws| && Evolution(trace, fitness, n, len, pc, pm, draws)
    requires GenerationDrawFits(|trace[|trace| - 1]|, n, len, pc, pm, draws[|trace| - 1])
    requires next == Generation(trace[|trace| - 1], fitness, n, len, pc, pm, draws[|trace| - 1])
    ensures Evolution(trace + [next], fitness, n, len, pc, pm, draws)
  {
    var t := trace + [next];
    forall g | 0 <= g < |t| ensures Specimens(t[g], len) && |t[g]| == if g == 0 then n else 2 * (n / 2) {
      if g < |trace| {
        assert t[g] == trace[g];
      }
    }
    forall g | 0 <= g < |t| - 1
      ensures GenerationDrawFits(|t[g]|, n, len, pc, pm, draws[g]) &&
              t[g + 1] == Generation(t[g], fitness, n, len, pc, pm, draws[g])
    {
      EvolutionLink(trace, next, g, fitness, n, len, pc, pm, draws);
    }
  }

  /** Generation g of an extended run is an old one, or the new one for the last g. */
  lemma EvolutionLink(trace: seq<seq<Specimen>>, next: seq<Specimen>, g: nat, fitness: Specimen -> real, n: nat,
                      len: nat, pc: real, pm: real, draws: seq<GenerationDraw>)
    requires g < |trace| <= |draws| && Specimens(trace[g], len)
    requires GenerationDrawFits(|trace[g]|, n, len, pc, pm, draws[g])
    requires g < |trace| - 1 ==> trace[g + 1] == Generation(trace[g], fitness, n, len, pc, pm, draws[g])
    requires g == |trace| - 1 ==> next == Generation(trace[g], fitness, n, len, pc, pm, draws[g])
    ensures (trace + [next])[g + 1] == Generation((trace + [next])[g], fitness, n, len, pc, pm, draws[g])
  {
    var t := trace + [next];
    assert t[g] == trace[g];
    if g < |trace| - 1 {
      assert t[g + 1] == trace[g + 1];
    } else {
      assert t[g + 1] == next;
    }
  }

  /** Breeds the next population of a run from its last one and the next draws. */
  method NextGeneration(population: seq<Specimen>, g: nat, ghost trace: seq<seq<Specimen>>, fitness: Specimen -> real,
                        n: nat, len: nat, pc: real, pm: real, draws: seq<GenerationDraw>)
    returns (next: seq<Specimen>)
    requires |trace| == g + 1 && g < |draws| && Evolution(trace, fitness, n, len, pc, pm, draws)
    requires population == trace[g]
    requires forall g :: 0 <= g < |draws| ==> GenerationDrawFits(if g == 0 then n else 2 * (n / 2), n, len, pc, pm, draws[g])
    ensures Evolution(trace + [next], fitness, n, len, pc, pm, draws)
  {
    assert |trace[g]| == if g == 0 then n else 2 * (n / 2);
    next := Generation(population, fitness, n, len, pc, pm, draws[g]);
    EvolutionStep(trace, next, fitness, n, len, pc, pm, draws);
  }

  /**
   `genetic_algorithm` with the countdown from `count`: generations run while
   the countdown yields non-zero, so exactly `count` of them for
   0 <= count (the model stops when the draws run out). `trace` holds the
   population before the first generation and after each one: every
   generation replaces the whole population. The population has the initial
   size n before the first generation and 2*(n/2) after any, keeps the
   positional bound, and the result is the first fittest member of the
   final population alone: no best is kept across generations. A single
   specimen is accepted only with `count` 0, when no generation runs and
   it is the result.
   */
  method GeneticAlgorithm(initial: seq<Specimen>, len: nat, fitness: Specimen -> real, pc: real, pm: real,
                          count: int, draws: seq<GenerationDraw>)
    returns (best: Specimen, generations: nat, population: seq<Specimen>, ghost trace: seq<seq<Specimen>>)
    requires (|initial| >= 2 || (|initial| == 1 && count == 0)) && Specimens(initial, len)
    requires forall g :: 0 <= g < |draws| ==>
      GenerationDrawFits(if g == 0 then |initial| else 2 * (|initial| / 2), |initial|, len, pc, pm, draws[g])
    ensures generations == if 0 <= count <= |draws| then count else |draws|
    ensures |trace| == generations + 1 && trace[0] == initial && population == trace[generations]
    ensures Evolution(trace, fitness, |initial|, len, pc, pm, draws)
    ensures |population| == if generations == 0 then |initial| else 2 * (|initial| / 2)
    ensures Specimens(population, len)
    ensures best in population && forall k :: 0 <= k < |population| ==> fitness(population[k]) <= fitness(best)
    ensures exists i :: 0 <= i < |population| && population[i] == best &&
                        forall j :: 0 <= j < i ==> fitness(population[j]) < fitness(best)
  {
    var n := |initial|;
    population := initial;
    trace := [initial];
    generations := 0;
    var step := Countdown(count);
    var counter := step.1;
    while step.0 && generations < |draws|
      invariant generations <= |draws| && (0 <= count ==> generations <= count)
      invariant counter == count - generations - 1
      invariant step.0 <==> count - generations != 0
      invariant |trace| == generations + 1 && trace[0] == initial && population == trace[generations]
      invariant Evolution(trace, fitness, n, len, pc, pm, draws)
      invariant n == 1 ==> generations == 0
      decreases |draws| - generations
    {
      var next := NextGeneration(population, generations, trace, fitness, n, len, pc, pm, draws);
      population, trace := next, trace + [next];
      generations := generations + 1;
      step := Countdown(counter);
      counter := step.1;
    }
    assert Specimens(population, len) && |population| == if generations == 0 then n else 2 * (n / 2);
    var i := FirstMax(population, fitness);
    best := population[i];
  }
}
