/**
 The outer loop of `ep`: the termination predicates of the island program
 (a fixed iteration count and the no-improvement window), one round of
 breeding every deme and migrating, and the loop that repeats rounds while
 the predicate allows.
 */
module IslandLoop {
  import opened Seqs
  import opened Errors
  import opened Selection
  import opened PermOperators
  import opened Island

  /** `term_iterations` continues while the iteration counter is below this. */
  const IterationLimit: int := 1000

  /** `term_no_improvement` stops once this many iterations pass without a strictly fitter best. */
  const Window: int := 100

  /** The state `term_no_improvement` captures by reference. */
  datatype Progress = Progress(bestSoFar: Chromosome, lastImprovement: int)

  /** The state before the first call: the initial population's best, at iteration 0. */
  function StartProgress(pop: seq<Chromosome>, fitness: Chromosome -> real): (p: Progress)
    requires |pop| > 0
    ensures p.lastImprovement == 0 && p.bestSoFar in pop
    ensures forall k :: 0 <= k < |pop| ==> fitness(pop[k]) <= fitness(p.bestSoFar)
  {
    Progress(BestOf(pop, fitness), 0)
  }

  /**
   One call of `term_no_improvement`: the population's best replaces the
   best so far only when strictly fitter, and the search goes on while fewer
   than `Window` iterations have passed since the last improvement.
   */
  function NoImprovement(p: Progress, pop: seq<Chromosome>, iteration: int, fitness: Chromosome -> real)
    : (r: (bool, Progress))
    requires |pop| > 0
    ensures r.1 == p <==> forall k :: 0 <= k < |pop| ==> fitness(pop[k]) <= fitness(p.bestSoFar)
    ensures r.1 != p ==> r.1.lastImprovement == iteration && r.1.bestSoFar in pop
    ensures fitness(p.bestSoFar) <= fitness(r.1.bestSoFar)
    ensures forall k :: 0 <= k < |pop| ==> fitness(pop[k]) <= fitness(r.1.bestSoFar)
    ensures r.0 <==> iteration - r.1.lastImprovement < Window
  {
    var current := BestOf(pop, fitness);
    var q := if fitness(p.bestSoFar) < fitness(current) then Progress(current, iteration) else p;
    (iteration - q.lastImprovement < Window, q)
  }

  /** The answers of successive calls at iterations from, from+1, ..., and the state after them. */
  function Watch(p: Progress, pops: seq<seq<Chromosome>>, from: int, fitness: Chromosome -> real)
    : (r: (seq<bool>, Progress))
    requires forall i :: 0 <= i < |pops| ==> |pops[i]| > 0
    ensures |r.0| == |pops|
    decreases |pops|
  {
    if |pops| == 0 then ([], p)
    else
      var step := NoImprovement(p, pops[0], from, fitness);
      var rest := Watch(step.1, pops[1..], from + 1, fitness);
      ([step.0] + rest.0, rest.1)
  }

  /**
   The best so far never gets less fit along a run of calls and ends at
   least as fit as every member of every population seen.
   */
  lemma {:induction false} WatchKeepsBest(p: Progress, pops: seq<seq<Chromosome>>, from: int,
                                          fitness: Chromosome -> real)
    requires forall i :: 0 <= i < |pops| ==> |pops[i]| > 0
    ensures fitness(p.bestSoFar) <= fitness(Watch(p, pops, from, fitness).1.bestSoFar)
    ensures forall i, k :: 0 <= i < |pops| && 0 <= k < |pops[i]| ==>
      fitness(pops[i][k]) <= fitness(Watch(p, pops, from, fitness).1.bestSoFar)
    decreases |pops|
  {
    if |pops| > 0 {
      var step := NoImprovement(p, pops[0], from, fitness);
      WatchKeepsBest(step.1, pops[1..], from + 1, fitness);
      forall i, k | 0 <= i < |pops| && 0 <= k < |pops[i]|
        ensures fitness(pops[i][k]) <= fitness(Watch(p, pops, from, fitness).1.bestSoFar)
      {
        if i > 0 {
          assert pops[i] == pops[1..][i - 1];
        }
      }
    }
  }

  /**
   When no population seen beats the best so far, the state never changes
   and the i-th call answers "go on" exactly while from + i is less than
   `Window` past the last improvement.
   */
  lemma {:induction false} WatchStagnant(p: Progress, pops: seq<seq<Chromosome>>, from: int,
                                         fitness: Chromosome -> real)
    requires forall i :: 0 <= i < |pops| ==> |pops[i]| > 0
    requires forall i, k :: 0 <= i < |pops| && 0 <= k < |pops[i]| ==> fitness(pops[i][k]) <= fitness(p.bestSoFar)
    ensures Watch(p, pops, from, fitness).1 == p
    ensures forall i :: 0 <= i < |pops| ==>
      (Watch(p, pops, from, fitness).0[i] <==> from + i - p.lastImprovement < Window)
    decreases |pops|
  {
    if |pops| > 0 {
      var step := NoImprovement(p, pops[0], from, fitness);
      assert forall k :: 0 <= k < |pops[0]| ==> fitness(pops[0][k]) <= fitness(p.bestSoFar);
      assert step.1 == p;
      forall i, k | 0 <= i < |pops| - 1 && 0 <= k < |pops[1..][i]|
        ensures fitness(pops[1..][i][k]) <= fitness(p.bestSoFar)
      {
        assert pops[1..][i] == pops[i + 1];
      }
      WatchStagnant(p, pops[1..], from + 1, fitness);
    }
  }

  /** Watching one population is one call. */
  lemma WatchOne(p: Progress, pop: seq<Chromosome>, from: int, fitness: Chromosome -> real)
    requires |pop| > 0
    ensures var step := NoImprovement(p, pop, from, fitness);
            Watch(p, [pop], from, fitness) == ([step.0], step.1)
  {
    var step := NoImprovement(p, pop, from, fitness);
    assert [pop][1..] == [];
    assert Watch(p, [pop], from, fitness) == ([step.0] + [], step.1);
    assert [step.0] + [] == [step.0];
  }

  /** Watching populations is the first call followed by watching the rest. */
  lemma WatchFirst(p: Progress, pops: seq<seq<Chromosome>>, from: int, fitness: Chromosome -> real)
    requires |pops| > 0 && forall i :: 0 <= i < |pops| ==> |pops[i]| > 0
    ensures forall i :: 0 <= i < |pops[1..]| ==> |pops[1..][i]| > 0
    ensures var step := NoImprovement(p, pops[0], from, fitness);
            var rest := Watch(step.1, pops[1..], from + 1, fitness);
            Watch(p, pops, from, fitness) == ([step.0] + rest.0, rest.1)
  {
    forall i | 0 <= i < |pops[1..]| ensures |pops[1..][i]| > 0 {
      assert pops[1..][i] == pops[i + 1];
    }
  }

  /** The termination predicate handed to `ep`. */
  datatype Term = Iterations | NoImprovementSince(progress: Progress)

  /**
   One call of the termination predicate on the current population:
   `term_iterations` goes on while the counter is below `IterationLimit`,
   `term_no_improvement` as `NoImprovement` says.
   */
  function Continue(t: Term, pop: seq<Chromosome>, iteration: int, fitness: Chromosome -> real)
    : (r: (bool, Term))
    requires t.NoImprovementSince? ==> |pop| > 0
    ensures t.Iterations? ==> r.1 == Iterations && (r.0 <==> iteration < IterationLimit)
    ensures t.NoImprovementSince? ==>
      r.1.NoImprovementSince? && (r.0 <==> iteration - r.1.progress.lastImprovement < Window) &&
      fitness(t.progress.bestSoFar) <= fitness(r.1.progress.bestSoFar) &&
      (r.1.progress == t.progress || r.1.progress.lastImprovement == iteration)
  {
    match t
    case Iterations => (iteration < IterationLimit, Iterations)
    case NoImprovementSince(p) =>
      var step := NoImprovement(p, pop, iteration, fitness);
      (step.0, NoImprovementSince(step.1))
  }

  /**
   The population size splits into `demes` demes of one even size m, at
   least 2 for random replace and at least 4 for ranked migration (which
   drops two members and then needs a best). A deme of odd size would hold
   the empty chromosome `ga_iteration` leaves in its last slot, and unequal
   deme sizes always include an odd one.
   */
  predicate EpShape(size: int, demes: int, gap: int, randomReplace: bool) {
    demes > 0 && gap != 0 && size % demes == 0 &&
    var m := size / demes;
    m % 2 == 0 && (if randomReplace then m >= 2 else m >= 4)
  }

  /** The draws of one iteration of `ep`: one generation per deme, then the replace indices. */
  datatype RoundDraw = RoundDraw(breeding: seq<seq<PairDraw>>, replace: seq<ReplaceDraw>)

  /** The draws fit demes of size m holding tours of n cities. */
  predicate RoundDrawFits(m: int, n: int, pm: real, demes: int, d: RoundDraw) {
    |d.breeding| == demes && (forall k :: 0 <= k < demes ==> GenerationDrawsFit(m, n, pm, d.breeding[k])) &&
    |d.replace| == demes &&
    forall i :: 0 <= i < demes ==> 0 <= d.replace[i].first < m && 0 <= d.replace[i].second < m
  }

  /** With a size that is a multiple of the deme count every deme has size N/D. */
  lemma EqualDemes(pop: seq<Chromosome>, demes: nat)
    requires demes > 0 && |pop| % demes == 0
    ensures forall d :: 0 <= d < demes ==> |Deme(pop, demes, d)| == |pop| / demes
  {
    var m := |pop| / demes;
    assert |pop| == demes * m;
    forall d | 0 <= d < demes ensures |Deme(pop, demes, d)| == m {
      assert d * |pop| == demes * (d * m);
      assert (d + 1) * |pop| == demes * ((d + 1) * m);
      MulDiv(d * m, demes);
      MulDiv((d + 1) * m, demes);
    }
  }

  /** A deme of a population of tours holds only tours. */
  lemma DemeTours(pop: seq<Chromosome>, demes: nat, d: nat, n: nat)
    requires d < demes && AllTours(pop, n)
    ensures AllTours(Deme(pop, demes, d), n)
  {
    SliceBoundsMonotone(|pop|, demes, d);
    var lo := d * |pop| / demes;
    forall k | 0 <= k < |Deme(pop, demes, d)| ensures IsPermutation(Deme(pop, demes, d)[k], n) {
      assert Deme(pop, demes, d)[k] == pop[lo + k];
    }
  }

  /** Deme `child` is what `ga_iteration` makes of deme `parent` with `draws`. */
  predicate BredFrom(parent: seq<Chromosome>, child: seq<Chromosome>, n: nat, fitness: Chromosome -> real,
                     pc: real, pm: real, draws: seq<PairDraw>)
  {
    AllTours(parent, n) && GenerationDrawsFit(|parent|, n, pm, draws) && |child| == |parent| &&
    forall c :: 0 <= c < |parent| / 2 ==> (child[2 * c], child[2 * c + 1]) == Breed(parent, n, fitness, pc, pm, draws[c])
  }

  /** The first k bred demes are the generations of the first k demes of the population. */
  predicate BredPrefix(pop: seq<Chromosome>, demes: nat, bred: seq<seq<Chromosome>>, n: nat,
                       fitness: Chromosome -> real, pc: real, pm: real, draws: seq<seq<PairDraw>>, k: nat)
  {
    k <= demes && |bred| == k && |draws| == demes &&
    forall e :: 0 <= e < k ==> BredFrom(Deme(pop, demes, e), bred[e], n, fitness, pc, pm, draws[e])
  }

  /**
   The loop over demes in `ep`: deme d of the population runs one
   generation with draws[d]; the results, of even size m, are all tours.
   */
  method BreedDemes(pop: seq<Chromosome>, n: nat, fitness: Chromosome -> real, pc: real, pm: real,
                    demes: nat, draws: seq<seq<PairDraw>>) returns (bred: seq<seq<Chromosome>>)
    requires demes > 0 && |pop| % demes == 0 && (|pop| / demes) % 2 == 0 && AllTours(pop, n)
    requires |draws| == demes && forall d :: 0 <= d < demes ==> GenerationDrawsFit(|pop| / demes, n, pm, draws[d])
    ensures BredPrefix(pop, demes, bred, n, fitness, pc, pm, draws, demes)
    ensures forall d :: 0 <= d < demes ==> |bred[d]| == |pop| / demes
    ensures DemesOfTours(bred, n)
  {
    var m := |pop| / demes;
    EqualDemes(pop, demes);
    bred := [];
    var d := 0;
    while d < demes
      invariant 0 <= d <= demes
      invariant BredPrefix(pop, demes, bred, n, fitness, pc, pm, draws, d)
      invariant forall e :: 0 <= e < d ==> |bred[e]| == m
      invariant DemesOfTours(bred, n)
    {
      DemeTours(pop, demes, d, n);
      var next := BreedDeme(Deme(pop, demes, d), n, fitness, pc, pm, draws[d]);
      BredStep(pop, demes, bred, next, n, fitness, pc, pm, draws, d);
      bred := bred + [next];
      d := d + 1;
    }
  }

  /** One deme's generation: an even-sized deme of tours gives one of tours. */
  method BreedDeme(parent: seq<Chromosome>, n: nat, fitness: Chromosome -> real, pc: real, pm: real,
                   draws: seq<PairDraw>) returns (child: seq<Chromosome>)
    requires |parent| % 2 == 0 && AllTours(parent, n) && GenerationDrawsFit(|parent|, n, pm, draws)
    ensures BredFrom(parent, child, n, fitness, pc, pm, draws) && |child| == |parent| && AllTours(child, n)
  {
    child := GaIteration(parent, n, fitness, pc, pm, draws);
    assert 2 * (|parent| / 2) == |parent|;
  }

  lemma BredStep(pop: seq<Chromosome>, demes: nat, bred: seq<seq<Chromosome>>, next: seq<Chromosome>, n: nat,
                 fitness: Chromosome -> real, pc: real, pm: real, draws: seq<seq<PairDraw>>, d: nat)
    requires d < demes && BredPrefix(pop, demes, bred, n, fitness, pc, pm, draws, d)
    requires BredFrom(Deme(pop, demes, d), next, n, fitness, pc, pm, draws[d])
    ensures BredPrefix(pop, demes, bred + [next], n, fitness, pc, pm, draws, d + 1)
  {
    var b := bred + [next];
    forall e | 0 <= e < d + 1 ensures BredFrom(Deme(pop, demes, e), b[e], n, fitness, pc, pm, draws[e]) {
      if e < d {
        assert b[e] == bred[e];
      }
    }
  }

  /** Every member of every deme is a tour. */
  predicate DemesOfTours(ss: seq<seq<Chromosome>>, n: nat) {
    forall d :: 0 <= d < |ss| ==> AllTours(ss[d], n)
  }

  /** Concatenating demes of tours gives a population of tours. */
  lemma FlattenTours(ss: seq<seq<Chromosome>>, n: nat)
    requires DemesOfTours(ss, n)
    ensures AllTours(Flatten(ss), n)
  {
    forall k | 0 <= k < |Flatten(ss)| ensures IsPermutation(Flatten(ss)[k], n) {
      FlattenMembers(ss, Flatten(ss)[k]);
      var d :| 0 <= d < |ss| && Flatten(ss)[k] in ss[d];
      var i :| 0 <= i < |ss[d]| && ss[d][i] == Flatten(ss)[k];
    }
  }

  /** Demes whose members all come from demes of tours hold only tours. */
  lemma MembersFromTours(np: seq<seq<Chromosome>>, r: seq<seq<Chromosome>>, n: nat)
    requires DemesOfTours(np, n) && MembersFrom(np, r)
    ensures DemesOfTours(r, n)
  {
    forall j, k | 0 <= j < |r| && 0 <= k < |r[j]| ensures IsPermutation(r[j][k], n) {
      var d :| 0 <= d < |np| && r[j][k] in np[d];
      var e :| 0 <= e < |np[d]| && np[d][e] == r[j][k];
    }
  }

  /** Ranked migration's outcome: each deme its trimmed self, then its two neighbours' bests. */
  predicate RankedOutcome(bred: seq<seq<Chromosome>>, fitness: Chromosome -> real, r: seq<seq<Chromosome>>) {
    (forall d :: 0 <= d < |bred| ==> |bred[d]| >= 3) && |r| == |bred| &&
    (forall j :: 0 <= j < |bred| ==> |r[j]| == |bred[j]| && r[j][..|bred[j]| - 2] == Trim(bred[j], fitness)) &&
    forall j :: 0 <= j < |bred| ==>
      r[j][|bred[j]| - 2..] == ArrivalOrder(BestOf(Trim(bred[Left(j, |bred|)], fitness), fitness),
                                            BestOf(Trim(bred[Right(j, |bred|)], fitness), fitness), j, |bred|)
  }

  /**
   What the migration step of `ep` does to the bred demes: nothing when it
   is not due; otherwise ranked migration, or random replace with each
   index drawn over the deme it is written into.
   */
  predicate Migrated(bred: seq<seq<Chromosome>>, fitness: Chromosome -> real, due: bool, randomReplace: bool,
                     draws: seq<ReplaceDraw>, r: seq<seq<Chromosome>>)
  {
    if !due then r == bred
    else if !randomReplace then RankedOutcome(bred, fitness, r)
    else ReplaceShape(bred, draws) && ReplaceFrom(DemeBests(bred, fitness, draws), draws, 0, bred) == Ok(r)
  }

  /** The migration step of `ep`; sizes and tours are kept. */
  method Migrate(bred: seq<seq<Chromosome>>, n: nat, fitness: Chromosome -> real, m: nat,
                 due: bool, randomReplace: bool, draws: seq<ReplaceDraw>) returns (r: seq<seq<Chromosome>>)
    requires |bred| > 0 && (forall d :: 0 <= d < |bred| ==> |bred[d]| == m) && DemesOfTours(bred, n)
    requires if randomReplace then m >= 1 else m >= 3
    requires |draws| == |bred| && forall i :: 0 <= i < |bred| ==> 0 <= draws[i].first < m && 0 <= draws[i].second < m
    ensures |r| == |bred| && (forall d :: 0 <= d < |bred| ==> |r[d]| == m) && DemesOfTours(r, n)
    ensures Migrated(bred, fitness, due, randomReplace, draws, r)
  {
    if !due {
      r := bred;
    } else if !randomReplace {
      r := RankedTours(bred, n, fitness, m);
    } else {
      r := RandomTours(bred, n, fitness, m, draws);
    }
  }

  /** Ranked migration on demes of tours of one size m >= 3. */
  method RankedTours(bred: seq<seq<Chromosome>>, n: nat, fitness: Chromosome -> real, m: nat)
    returns (r: seq<seq<Chromosome>>)
    requires |bred| > 0 && m >= 3 && (forall d :: 0 <= d < |bred| ==> |bred[d]| == m) && DemesOfTours(bred, n)
    ensures |r| == |bred| && (forall d :: 0 <= d < |bred| ==> |r[d]| == m) && DemesOfTours(r, n)
    ensures RankedOutcome(bred, fitness, r)
  {
    r := MigrateRanked(bred, fitness);
    MembersFromTours(bred, r, n);
  }

  /** Random replace on demes of tours of one size m >= 1, indices drawn in [0, m). */
  method RandomTours(bred: seq<seq<Chromosome>>, n: nat, fitness: Chromosome -> real, m: nat,
                     draws: seq<ReplaceDraw>) returns (r: seq<seq<Chromosome>>)
    requires |bred| > 0 && m >= 1 && (forall d :: 0 <= d < |bred| ==> |bred[d]| == m) && DemesOfTours(bred, n)
    requires |draws| == |bred| && forall i :: 0 <= i < |bred| ==> 0 <= draws[i].first < m && 0 <= draws[i].second < m
    ensures |r| == |bred| && (forall d :: 0 <= d < |bred| ==> |r[d]| == m) && DemesOfTours(r, n)
    ensures ReplaceShape(bred, draws) && ReplaceFrom(DemeBests(bred, fitness, draws), draws, 0, bred) == Ok(r)
  {
    forall i | 0 <= i < |bred| ensures 0 <= Right(i, |bred|) < |bred| && 0 <= Left(i, |bred|) < |bred| {
      RingInverse(i, i, |bred|);
    }
    r := MigrateRandom(bred, fitness, draws);
    MembersFromTours(bred, r, n);
  }

  /**
   One iteration of the body of `ep`: breed every deme, migrate when the
   gap says so, and concatenate the demes back into one population of the
   same size, still all tours.
   */
  method Round(pop: seq<Chromosome>, n: nat, fitness: Chromosome -> real, pc: real, pm: real,
               demes: nat, gap: int, randomReplace: bool, iteration: nat, d: RoundDraw)
    returns (bred: seq<seq<Chromosome>>, migrated: seq<seq<Chromosome>>, next: seq<Chromosome>)
    requires EpShape(|pop|, demes, gap, randomReplace) && AllTours(pop, n)
    requires RoundDrawFits(|pop| / demes, n, pm, demes, d)
    ensures BredPrefix(pop, demes, bred, n, fitness, pc, pm, d.breeding, demes)
    ensures Migrated(bred, fitness, MigrationDue(iteration, gap), randomReplace, d.replace, migrated)
    ensures next == Flatten(migrated)
    ensures |next| == |pop| && AllTours(next, n)
  {
    var m := |pop| / demes;
    bred := BreedDemes(pop, n, fitness, pc, pm, demes, d.breeding);
    migrated := Migrate(bred, n, fitness, m, MigrationDue(iteration, gap), randomReplace, d.replace);
    next := Flatten(migrated);
    FlattenLength(migrated, m);
    ExactSplit(|pop|, demes);
    FlattenTours(migrated, n);
  }

  lemma ExactSplit(size: nat, demes: nat)
    requires demes > 0 && size % demes == 0
    ensures demes * (size / demes) == size
  {
  }

  /**
   One round of `ep` on `pop` at iteration `iteration`: its demes bred
   into `bred`, those migrated into `migrated` when the gap says so, and
   the demes concatenated into `next`.
   */
  predicate RoundOutcome(pop: seq<Chromosome>, bred: seq<seq<Chromosome>>, migrated: seq<seq<Chromosome>>,
                         next: seq<Chromosome>, n: nat, fitness: Chromosome -> real, pc: real, pm: real,
                         demes: nat, gap: int, randomReplace: bool, iteration: nat, d: RoundDraw)
  {
    gap != 0 && BredPrefix(pop, demes, bred, n, fitness, pc, pm, d.breeding, demes) &&
    Migrated(bred, fitness, MigrationDue(iteration, gap), randomReplace, d.replace, migrated) &&
    next == Flatten(migrated)
  }

  /**
   A run of `ep`: `trace[0]` is the initial population, and for each i
   population i+1 is round i applied to population i, with `breds[i]` and
   `migrations[i]` its bred and migrated demes and draws[i] its draws.
   */
  predicate EpRun(trace: seq<seq<Chromosome>>, breds: seq<seq<seq<Chromosome>>>, migrations: seq<seq<seq<Chromosome>>>,
                  n: nat, fitness: Chromosome -> real, pc: real, pm: real, demes: nat, gap: int, randomReplace: bool,
                  draws: seq<RoundDraw>)
  {
    |trace| == |breds| + 1 && |migrations| == |breds| <= |draws| &&
    forall i :: 0 <= i < |breds| ==>
      RoundOutcome(trace[i], breds[i], migrations[i], trace[i + 1], n, fitness, pc, pm, demes, gap, randomReplace, i, draws[i])
  }

  /** A run followed by one more round is a run. */
  lemma EpRunStep(trace: seq<seq<Chromosome>>, breds: seq<seq<seq<Chromosome>>>, migrations: seq<seq<seq<Chromosome>>>,
                  bred: seq<seq<Chromosome>>, migrated: seq<seq<Chromosome>>, next: seq<Chromosome>,
                  n: nat, fitness: Chromosome -> real, pc: real, pm: real, demes: nat, gap: int, randomReplace: bool,
                  draws: seq<RoundDraw>)
    requires EpRun(trace, breds, migrations, n, fitness, pc, pm, demes, gap, randomReplace, draws) && |breds| < |draws|
    requires RoundOutcome(trace[|breds|], bred, migrated, next, n, fitness, pc, pm, demes, gap, randomReplace,
                          |breds|, draws[|breds|])
    ensures EpRun(trace + [next], breds + [bred], migrations + [migrated], n, fitness, pc, pm, demes, gap,
                  randomReplace, draws)
  {
    var t, b, m := trace + [next], breds + [bred], migrations + [migrated];
    forall i | 0 <= i < |b|
      ensures RoundOutcome(t[i], b[i], m[i], t[i + 1], n, fitness, pc, pm, demes, gap, randomReplace, i, draws[i])
    {
      if i < |breds| {
        EpRunKeeps(trace, breds, migrations, bred, migrated, next, i);
        assert RoundOutcome(trace[i], breds[i], migrations[i], trace[i + 1], n, fitness, pc, pm, demes, gap,
                            randomReplace, i, draws[i]);
      } else {
        EpRunKeeps(trace, breds, migrations, bred, migrated, next, i);
      }
    }
  }

  /** Extending a run by one round leaves its earlier entries in place. */
  lemma EpRunKeeps(trace: seq<seq<Chromosome>>, breds: seq<seq<seq<Chromosome>>>, migrations: seq<seq<seq<Chromosome>>>,
                   bred: seq<seq<Chromosome>>, migrated: seq<seq<Chromosome>>, next: seq<Chromosome>, i: nat)
    requires |trace| == |breds| + 1 && |migrations| == |breds| && i <= |breds|
    ensures (trace + [next])[i] == trace[i]
    ensures i < |breds| ==> (breds + [bred])[i] == breds[i] && (migrations + [migrated])[i] == migrations[i] &&
                            (trace + [next])[i + 1] == trace[i + 1]
    ensures i == |breds| ==> (breds + [bred])[i] == bred && (migrations + [migrated])[i] == migrated &&
                             (trace + [next])[i + 1] == next
  {
  }

  /**
   Call i of the termination predicate, at iteration from + i in state
   terms[i] on population i, said to go on in state terms[i+1].
   */
  predicate AskLink(terms: seq<Term>, trace: seq<seq<Chromosome>>, from: int, i: int, fitness: Chromosome -> real)
    requires 0 <= i < |terms| - 1 && |terms| == |trace| && |trace[i]| > 0
  {
    Continue(terms[i], trace[i], from + i, fitness) == (true, terms[i + 1])
  }

  /**
   The states of the termination predicate along a run from iteration
   `from`: terms[i] is its state when asked about population i, and every
   call but the last said to go on.
   */
  predicate Asked(terms: seq<Term>, trace: seq<seq<Chromosome>>, from: int, fitness: Chromosome -> real) {
    |terms| == |trace| > 0 && (forall i :: 0 <= i < |trace| ==> |trace[i]| > 0) &&
    forall i :: 0 <= i < |terms| - 1 ==> AskLink(terms, trace, from, i, fitness)
  }

  /** A run of calls that said to go on once more is a run of calls. */
  lemma AskedStep(terms: seq<Term>, trace: seq<seq<Chromosome>>, from: int, next: seq<Chromosome>, t: Term,
                  fitness: Chromosome -> real)
    requires Asked(terms, trace, from, fitness) && |next| > 0
    requires Continue(terms[|terms| - 1], trace[|trace| - 1], from + |trace| - 1, fitness) == (true, t)
    ensures Asked(terms + [t], trace + [next], from, fitness)
  {
    var ts, tr := terms + [t], trace + [next];
    forall i | 0 <= i < |tr| ensures |tr[i]| > 0 {
      if i < |trace| { assert tr[i] == trace[i]; }
    }
    forall i | 0 <= i < |ts| - 1 ensures AskLink(ts, tr, from, i, fitness) {
      assert ts[i] == terms[i] && tr[i] == trace[i];
      if i < |terms| - 1 {
        assert ts[i + 1] == terms[i + 1];
        assert AskLink(terms, trace, from, i, fitness);
      }
    }
  }

  /** The calls after the first are a run of calls from the next iteration. */
  lemma AskedTail(terms: seq<Term>, trace: seq<seq<Chromosome>>, from: int, fitness: Chromosome -> real)
    requires Asked(terms, trace, from, fitness) && |terms| > 1
    ensures Asked(terms[1..], trace[1..], from + 1, fitness)
  {
    var ts, tr, f := terms[1..], trace[1..], from + 1;
    forall i | 0 <= i < |tr| ensures |tr[i]| > 0 {
      assert tr[i] == trace[i + 1];
    }
    forall i | 0 <= i < |ts| - 1 ensures AskLink(ts, tr, f, i, fitness) {
      assert ts[i] == terms[i + 1] && ts[i + 1] == terms[i + 2] && tr[i] == trace[i + 1];
      assert AskLink(terms, trace, from, i + 1, fitness);
    }
  }

  /**
   For `term_no_improvement` a run of calls is what Watch computes over
   the populations: every answer but the last was "go on", and the last
   call's answer and state are Watch's last answer and final state.
   */
  lemma {:induction false} AskedWatch(terms: seq<Term>, trace: seq<seq<Chromosome>>, from: int,
                                      fitness: Chromosome -> real)
    requires Asked(terms, trace, from, fitness) && terms[0].NoImprovementSince?
    ensures var k := |trace| - 1;
            var step := Continue(terms[k], trace[k], from + k, fitness);
            var w := Watch(terms[0].progress, trace, from, fitness);
            step.1 == NoImprovementSince(w.1) && (forall i :: 0 <= i < k ==> w.0[i]) && (step.0 <==> w.0[k])
    decreases |trace|
  {
    var p := terms[0].progress;
    if |trace| == 1 {
      assert trace == [trace[0]];
      WatchOne(p, trace[0], from, fitness);
    } else {
      var k := |trace| - 1;
      assert AskLink(terms, trace, from, 0, fitness);
      AskedTail(terms, trace, from, fitness);
      AskedWatch(terms[1..], trace[1..], from + 1, fitness);
      WatchFirst(p, trace, from, fitness);
      assert terms[1..][k - 1] == terms[k] && trace[1..][k - 1] == trace[k];
    }
  }

  /**
   The calls of the termination predicate up to round `rounds` of `ep`:
   `terms` its states along `trace` starting from `term`, `step` the
   answer and new state of the call at `rounds`, together with what each
   predicate has kept so far.
   */
  predicate Polled(term: Term, terms: seq<Term>, trace: seq<seq<Chromosome>>, rounds: nat, step: (bool, Term),
                   fitness: Chromosome -> real)
  {
    Asked(terms, trace, 0, fitness) && terms[0] == term && |terms| == rounds + 1 &&
    step == Continue(terms[rounds], trace[rounds], rounds, fitness) &&
    (term.Iterations? ==> step.1 == Iterations && rounds <= IterationLimit && (step.0 <==> rounds < IterationLimit)) &&
    (term.NoImprovementSince? ==>
       step.1.NoImprovementSince? && fitness(term.progress.bestSoFar) <= fitness(step.1.progress.bestSoFar) &&
       (step.0 <==> rounds - step.1.progress.lastImprovement < Window) &&
       (term.progress.lastImprovement >= 0 ==> step.1.progress.lastImprovement >= 0))
  }

  /** The first call, at iteration 0 on the initial population. */
  lemma PolledStart(term: Term, pop: seq<Chromosome>, fitness: Chromosome -> real)
    requires |pop| > 0
    ensures Polled(term, [term], [pop], 0, Continue(term, pop, 0, fitness), fitness)
  {
  }

  /** A call that said to go on, one more round, and the next call. */
  lemma PolledStep(term: Term, terms: seq<Term>, trace: seq<seq<Chromosome>>, rounds: nat, step: (bool, Term),
                   next: seq<Chromosome>, fitness: Chromosome -> real)
    requires Polled(term, terms, trace, rounds, step, fitness) && step.0 && |next| > 0
    ensures Polled(term, terms + [step.1], trace + [next], rounds + 1, Continue(step.1, next, rounds + 1, fitness), fitness)
  {
    AskedStep(terms, trace, 0, next, step.1, fitness);
    assert (terms + [step.1])[rounds + 1] == step.1 && (trace + [next])[rounds + 1] == next;
  }

  /**
   How the calls end a run of `ep` that stopped after `rounds` rounds with
   `limit` draw records: the last call said stop unless the draws ran
   out; `term_iterations` ran min(1000, limit) rounds; `term_no_improvement`
   made Watch's calls over the trace and, from an improvement at iteration
   0 or later, ran at least 100 rounds unless the draws ran out.
   */
  lemma PolledEnd(term: Term, terms: seq<Term>, trace: seq<seq<Chromosome>>, rounds: nat, step: (bool, Term),
                  fitness: Chromosome -> real, limit: nat)
    requires Polled(term, terms, trace, rounds, step, fitness) && rounds <= limit && (!step.0 || rounds == limit)
    ensures Asked(terms, trace, 0, fitness) && terms[0] == term && |terms| == rounds + 1
    ensures step.1 == Continue(terms[rounds], trace[rounds], rounds, fitness).1
    ensures rounds < limit ==> !Continue(terms[rounds], trace[rounds], rounds, fitness).0
    ensures term.NoImprovementSince? ==>
      var w := Watch(term.progress, trace, 0, fitness);
      |w.0| == rounds + 1 && step.1 == NoImprovementSince(w.1) &&
      (forall i :: 0 <= i < rounds ==> w.0[i]) && (rounds < limit ==> !w.0[rounds])
    ensures term.NoImprovementSince? && term.progress.lastImprovement >= 0 && rounds < limit ==> rounds >= Window
    ensures term.Iterations? ==> step.1 == Iterations && rounds == if limit < IterationLimit then limit else IterationLimit
    ensures term.NoImprovementSince? ==>
      step.1.NoImprovementSince? && fitness(term.progress.bestSoFar) <= fitness(step.1.progress.bestSoFar)
    ensures term.NoImprovementSince? && rounds < limit ==> rounds - step.1.progress.lastImprovement >= Window
  {
    if term.NoImprovementSince? {
      AskedWatch(terms, trace, 0, fitness);
    }
  }

  /**
   One pass of `ep`'s loop after a call that said to go on: the round on
   the current population, the run extended by it, and the next call of
   the termination predicate.
   */
  method EpRound(n: nat, fitness: Chromosome -> real, pc: real, pm: real, demes: nat, gap: int, randomReplace: bool,
                 draws: seq<RoundDraw>, current: seq<Chromosome>, rounds: nat, step: (bool, Term),
                 ghost term: Term, ghost trace: seq<seq<Chromosome>>, ghost breds: seq<seq<seq<Chromosome>>>,
                 ghost migrations: seq<seq<seq<Chromosome>>>, ghost terms: seq<Term>)
    returns (next: seq<Chromosome>, step': (bool, Term), ghost trace': seq<seq<Chromosome>>,
             ghost breds': seq<seq<seq<Chromosome>>>, ghost migrations': seq<seq<seq<Chromosome>>>,
             ghost terms': seq<Term>)
    requires EpShape(|current|, demes, gap, randomReplace) && AllTours(current, n)
    requires rounds < |draws| && forall i :: 0 <= i < |draws| ==> RoundDrawFits(|current| / demes, n, pm, demes, draws[i])
    requires EpRun(trace, breds, migrations, n, fitness, pc, pm, demes, gap, randomReplace, draws)
    requires |breds| == rounds && current == trace[rounds]
    requires Polled(term, terms, trace, rounds, step, fitness) && step.0
    ensures |next| == |current| && AllTours(next, n)
    ensures EpRun(trace', breds', migrations', n, fitness, pc, pm, demes, gap, randomReplace, draws)
    ensures |breds'| == rounds + 1 && trace'[0] == trace[0] && next == trace'[rounds + 1]
    ensures Polled(term, terms', trace', rounds + 1, step', fitness)
  {
    ExactSplit(|current|, demes);
    var bred, migrated;
    bred, migrated, next := Round(current, n, fitness, pc, pm, demes, gap, randomReplace, rounds, draws[rounds]);
    EpRunStep(trace, breds, migrations, bred, migrated, next, n, fitness, pc, pm, demes, gap, randomReplace, draws);
    PolledStep(term, terms, trace, rounds, step, next, fitness);
    trace', breds', migrations', terms' := trace + [next], breds + [bred], migrations + [migrated], terms + [step.1];
    step' := Continue(step.1, next, rounds + 1, fitness);
  }

  /**
   `ep`: rounds run while the termination predicate, asked with the current
   population and iteration counter, says to go on. The model stops early
   when the draws run out. `trace` holds the population before the first
   round and after each one, and each round breeds, migrates and flattens
   as RoundOutcome says. The population keeps its size and stays all
   tours; `terms` holds the predicate's state at each call, each call but
   the last said to go on, and a run that stops before the draws run out
   stops because the last call said so. With `term_iterations` exactly
   min(1000, |draws|) rounds run; with `term_no_improvement` the calls are
   those Watch makes over the trace, so a watch starting at iteration 0 or
   later runs at least 100 rounds.
   */
  method Ep(pop: seq<Chromosome>, n: nat, term: Term, fitness: Chromosome -> real, pc: real, pm: real,
            demes: nat, gap: int, randomReplace: bool, draws: seq<RoundDraw>)
    returns (result: seq<Chromosome>, rounds: nat, last: Term, ghost trace: seq<seq<Chromosome>>,
             ghost breds: seq<seq<seq<Chromosome>>>, ghost migrations: seq<seq<seq<Chromosome>>>,
             ghost terms: seq<Term>)
    requires EpShape(|pop|, demes, gap, randomReplace) && AllTours(pop, n)
    requires forall i :: 0 <= i < |draws| ==> RoundDrawFits(|pop| / demes, n, pm, demes, draws[i])
    ensures |result| == |pop| && AllTours(result, n)
    ensures rounds <= |draws|
    ensures EpRun(trace, breds, migrations, n, fitness, pc, pm, demes, gap, randomReplace, draws)
    ensures |breds| == rounds && trace[0] == pop && result == trace[rounds]
    ensures Asked(terms, trace, 0, fitness) && terms[0] == term
    ensures last == Continue(terms[rounds], trace[rounds], rounds, fitness).1
    ensures rounds < |draws| ==> !Continue(terms[rounds], trace[rounds], rounds, fitness).0
    ensures term.NoImprovementSince? ==>
      var w := Watch(term.progress, trace, 0, fitness);
      |w.0| == rounds + 1 && last == NoImprovementSince(w.1) &&
      (forall i :: 0 <= i < rounds ==> w.0[i]) && (rounds < |draws| ==> !w.0[rounds])
    ensures term.NoImprovementSince? && term.progress.lastImprovement >= 0 && rounds < |draws| ==> rounds >= Window
    ensures term.Iterations? ==> last == Iterations && rounds == if |draws| < IterationLimit then |draws| else IterationLimit
    ensures term.NoImprovementSince? ==>
      last.NoImprovementSince? && fitness(term.progress.bestSoFar) <= fitness(last.progress.bestSoFar)
    ensures term.NoImprovementSince? && rounds < |draws| ==> rounds - last.progress.lastImprovement >= Window
  {
    result := pop;
    rounds := 0;
    ExactSplit(|pop|, demes);
    trace, breds, migrations, terms := [pop], [], [], [term];
    var step := Continue(term, result, 0, fitness);
    PolledStart(term, pop, fitness);
    while step.0 && rounds < |draws|
      invariant rounds <= |draws| && |result| == |pop| && AllTours(result, n)
      invariant EpRun(trace, breds, migrations, n, fitness, pc, pm, demes, gap, randomReplace, draws)
      invariant |breds| == rounds && trace[0] == pop && result == trace[rounds]
      invariant Polled(term, terms, trace, rounds, step, fitness)
      decreases |draws| - rounds
    {
      result, step, trace, breds, migrations, terms :=
        EpRound(n, fitness, pc, pm, demes, gap, randomReplace, draws, result, rounds, step, term,
                trace, breds, migrations, terms);
      rounds := rounds + 1;
    }
    last := step.1;
    PolledEnd(term, terms, trace, rounds, step, fitness, |draws|);
  }
}
