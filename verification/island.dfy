/**
 The island-model evolutionary program `ep`: the population is cut into
 demes, each deme runs one GA generation (`ga_iteration`), and every
 `migration_gap` generations the best individual of each deme migrates to
 both ring neighbours, either appended after dropping the two worst
 (ranked mode) or written over a random member (random replace).
 */
module Island {
  import opened Seqs
  import opened Errors
  import opened Selection
  import opened PermOperators

  /** The draws for one pair of children of `ga_iteration`, in draw order. */
  datatype PairDraw = PairDraw(parent1: TournamentDraw, parent2: TournamentDraw, cuts: CutDraw,
                               mutate1: SwapDraw, mutate2: SwapDraw)

  /** The draws fit a population of `size` permutations of [0, n). */
  predicate PairDrawFits(size: int, n: int, pm: real, d: PairDraw) {
    TournamentDrawFits(size, d.parent1) && TournamentDrawFits(size, d.parent2) &&
    0 <= d.cuts.first < n && 0 <= d.cuts.second < n &&
    SwapDrawFits(n, pm, d.mutate1) && SwapDrawFits(n, pm, d.mutate2)
  }

  /** Every member is a tour of n cities. */
  predicate AllTours(pop: seq<Chromosome>, n: nat) {
    forall k :: 0 <= k < |pop| ==> IsPermutation(pop[k], n)
  }

  /**
   One body of the `ga_iteration` loop: two tournaments, OX, and a swap
   mutation of each child. Tours in give tours out.
   */
  function Breed(pop: seq<Chromosome>, n: nat, fitness: Chromosome -> real, pc: real, pm: real, d: PairDraw)
    : (r: (Chromosome, Chromosome))
    requires AllTours(pop, n) && PairDrawFits(|pop|, n, pm, d)
    ensures IsPermutation(r.0, n) && IsPermutation(r.1, n)
  {
    var p1 := SelectChromosome(pop, fitness, d.parent1);
    var p2 := SelectChromosome(pop, fitness, d.parent2);
    OxPermutes(p1, p2, n, d.cuts, pc);
    var children := Ox(p1, p2, d.cuts, pc);
    PermutationFacts(children.0, n);
    PermutationFacts(children.1, n);
    (MutationSwap(children.0, pm, d.mutate1), MutationSwap(children.1, pm, d.mutate2))
  }

  /** The draws of one generation of a deme: one per pair of children. */
  predicate GenerationDrawsFit(size: int, n: int, pm: real, draws: seq<PairDraw>) {
    |draws| >= size / 2 && forall c :: 0 <= c < size / 2 ==> PairDrawFits(size, n, pm, draws[c])
  }

  /** The pairs of children of one generation, pair c made with draws[c]. */
  function Offspring(pop: seq<Chromosome>, n: nat, fitness: Chromosome -> real, pc: real, pm: real,
                     draws: seq<PairDraw>): (kids: seq<(Chromosome, Chromosome)>)
    requires AllTours(pop, n) && GenerationDrawsFit(|pop|, n, pm, draws)
    ensures |kids| == |pop| / 2
    ensures forall c :: 0 <= c < |pop| / 2 ==> kids[c] == Breed(pop, n, fitness, pc, pm, draws[c])
    ensures forall c :: 0 <= c < |pop| / 2 ==> IsPermutation(kids[c].0, n) && IsPermutation(kids[c].1, n)
  {
    seq(|pop| / 2, c requires 0 <= c < |pop| / 2 => Breed(pop, n, fitness, pc, pm, draws[c]))
  }

  /**
   `ga_iteration`: a new population of the same size whose slots 2c and
   2c+1 hold the c-th pair of children (the body of its loop is `Breed`).
   With an odd size the last slot keeps the default-constructed (empty)
   chromosome.
   */
  method GaIteration(pop: seq<Chromosome>, n: nat, fitness: Chromosome -> real, pc: real, pm: real,
                     draws: seq<PairDraw>) returns (next: seq<Chromosome>)
    requires AllTours(pop, n) && GenerationDrawsFit(|pop|, n, pm, draws)
    ensures |next| == |pop|
    ensures forall c :: 0 <= c < |pop| / 2 ==>
      (next[2 * c], next[2 * c + 1]) == Breed(pop, n, fitness, pc, pm, draws[c])
    ensures |pop| % 2 == 1 ==> next[|pop| - 1] == []
    ensures forall k :: 0 <= k < 2 * (|pop| / 2) ==> IsPermutation(next[k], n)
  {
    var kids := Offspring(pop, n, fitness, pc, pm, draws);
    next := PlacePairs(|pop|, kids);
    ChildrenAreTours(n, kids, next);
  }

  /**
   The vector `new_pop(size)` of default (empty) chromosomes, with pair c
   written to slots 2c and 2c+1.
   */
  method PlacePairs(size: nat, kids: seq<(Chromosome, Chromosome)>) returns (next: seq<Chromosome>)
    requires |kids| == size / 2
    ensures |next| == size
    ensures forall c :: 0 <= c < |kids| ==> (next[2 * c], next[2 * c + 1]) == kids[c]
    ensures forall k :: 2 * |kids| <= k < size ==> next[k] == []
  {
    next := seq(size, _ => []);
    var c := 0;
    while c < size / 2
      invariant 0 <= c <= size / 2
      invariant |next| == size
      invariant forall c' :: 0 <= c' < c ==> (next[2 * c'], next[2 * c' + 1]) == kids[c']
      invariant forall k :: 2 * c <= k < size ==> next[k] == []
    {
      ghost var prev := next;
      next := next[2 * c := kids[c].0][2 * c + 1 := kids[c].1];
      assert forall c' :: 0 <= c' < c ==> next[2 * c'] == prev[2 * c'] && next[2 * c' + 1] == prev[2 * c' + 1];
      c := c + 1;
    }
  }

  /** Every filled slot of the new population holds a child, hence a tour. */
  lemma ChildrenAreTours(n: nat, kids: seq<(Chromosome, Chromosome)>, next: seq<Chromosome>)
    requires |next| >= 2 * |kids|
    requires forall c :: 0 <= c < |kids| ==> IsPermutation(kids[c].0, n) && IsPermutation(kids[c].1, n)
    requires forall c :: 0 <= c < |kids| ==> (next[2 * c], next[2 * c + 1]) == kids[c]
    ensures forall k :: 0 <= k < 2 * |kids| ==> IsPermutation(next[k], n)
  {
    forall k | 0 <= k < 2 * |kids| ensures IsPermutation(next[k], n) {
      var c := k / 2;
      assert (next[2 * c], next[2 * c + 1]) == kids[c];
      if k % 2 == 0 {
        assert k == 2 * c;
      } else {
        assert k == 2 * c + 1;
      }
    }
  }

  /** Deme d of D: the slice [d*N/D, (d+1)*N/D) of the population. */
  function Deme(pop: seq<Chromosome>, demes: nat, d: nat): (r: seq<Chromosome>)
    requires d < demes
    ensures |r| == (d + 1) * |pop| / demes - d * |pop| / demes
  {
    SliceBoundsMonotone(|pop|, demes, d);
    pop[d * |pop| / demes..(d + 1) * |pop| / demes]
  }

  /** The slice bounds grow with d and the last one is N. */
  lemma SliceBoundsMonotone(size: nat, demes: nat, d: nat)
    requires d < demes
    ensures 0 <= d * size / demes <= (d + 1) * size / demes <= size
  {
    assert d * size <= (d + 1) * size;
    DivMonotone(d * size, (d + 1) * size, demes);
    MulMonotone(size, d + 1, demes);
    assert (d + 1) * size <= demes * size;
    DivMonotone((d + 1) * size, demes * size, demes);
    MulDiv(size, demes);
  }

  lemma DivMonotone(a: nat, b: nat, m: nat)
    requires a <= b && m > 0
    ensures a / m <= b / m
  {
    var qa, qb := a / m, b / m;
    if qa > qb {
      MulMonotone(m, qb + 1, qa);
    }
  }

  lemma {:induction false} MulMonotone(m: nat, x: nat, y: nat)
    requires x <= y
    ensures m * x <= m * y
  {
    if x < y {
      MulMonotone(m, x, y - 1);
      assert m * y == m * (y - 1) + m;
    }
  }

  lemma MulDiv(a: nat, m: nat)
    requires m > 0
    ensures m * a / m == a
  {
    var q := m * a / m;
    if q < a {
      MulMonotone(m, q + 1, a);
    } else if q > a {
      MulMonotone(m, a + 1, q);
    }
  }

  /** All demes of the population, in order. */
  function Demes(pop: seq<Chromosome>, demes: nat): (r: seq<seq<Chromosome>>)
    ensures |r| == demes
    ensures forall d :: 0 <= d < demes ==> r[d] == Deme(pop, demes, d)
  {
    seq(demes, d requires 0 <= d < demes => Deme(pop, demes, d))
  }

  /** Flattening the first k demes gives the population's first k*N/D members. */
  lemma {:induction false} FlattenDemesPrefix(pop: seq<Chromosome>, demes: nat, k: nat)
    requires 0 < demes && k <= demes
    ensures Flatten(Demes(pop, demes)[..k]) == pop[..k * |pop| / demes]
  {
    if k > 0 {
      FlattenDemesPrefix(pop, demes, k - 1);
      var ss := Demes(pop, demes)[..k];
      assert ss[..k - 1] == Demes(pop, demes)[..k - 1];
      SliceBoundsMonotone(|pop|, demes, k - 1);
      var lo := (k - 1) * |pop| / demes;
      var hi := k * |pop| / demes;
      assert pop[..hi] == pop[..lo] + pop[lo..hi];
    }
  }

  /** Cutting into demes and concatenating them back loses and reorders nothing. */
  lemma FlattenDemes(pop: seq<Chromosome>, demes: nat)
    requires demes > 0
    ensures Flatten(Demes(pop, demes)) == pop
  {
    FlattenDemesPrefix(pop, demes, demes);
    assert Demes(pop, demes)[..demes] == Demes(pop, demes);
    MulDiv(|pop|, demes);
  }

  /** The ring neighbours of deme i: `(i + 1) % D` and `(i + D - 1) % D`. */
  function Right(i: int, demes: int): int
    requires demes > 0
  {
    (i + 1) % demes
  }

  function Left(i: int, demes: int): int
    requires demes > 0
  {
    (i + demes - 1) % demes
  }

  /** Within the ring, Right and Left undo each other. */
  lemma RingInverse(t: int, j: int, demes: int)
    requires 0 <= t < demes && 0 <= j < demes
    ensures 0 <= Right(t, demes) < demes && 0 <= Left(t, demes) < demes
    ensures Right(t, demes) == j <==> t == Left(j, demes)
    ensures Left(t, demes) == j <==> t == Right(j, demes)
  {
    RingSteps(t, demes);
    RingSteps(j, demes);
  }

  /** The neighbours without `%`. */
  lemma RingSteps(t: int, demes: int)
    requires 0 <= t < demes
    ensures Right(t, demes) == if t + 1 == demes then 0 else t + 1
    ensures Left(t, demes) == if t == 0 then demes - 1 else t - 1
  {
    if t + 1 == demes {
      DivModUnique(t + 1, demes, 1, 0);
    } else {
      DivModUnique(t + 1, demes, 0, t + 1);
    }
    if t == 0 {
      DivModUnique(demes - 1, demes, 0, demes - 1);
    } else {
      DivModUnique(t + demes - 1, demes, 1, t - 1);
    }
  }

  /** A multiple of m strictly between -m and m is zero. */
  lemma MulBetween(m: int, x: int)
    requires m > 0 && -m < m * x < m
    ensures x == 0
  {
    if x >= 1 {
      MulMonotone(m, 1, x);
    }
  }

  /** Quotient and remainder are determined by a = m*q + r with 0 <= r < m. */
  lemma DivModUnique(a: int, m: int, q: int, r: int)
    requires m > 0 && a == m * q + r && 0 <= r < m
    ensures a / m == q && a % m == r
  {
    var q', r' := a / m, a % m;
    assert m * q' + r' == m * q + r;
    assert m * (q - q') == m * q - m * q';
    MulBetween(m, q - q');
  }

  /**
   Migration happens after generation `iteration` when iteration % gap is
   gap - 1. For the non-negative iteration counter C++'s `%` and Dafny's
   agree, also for a negative gap (which never migrates).
   */
  predicate MigrationDue(iteration: nat, gap: int)
    requires gap != 0
  {
    iteration % gap == gap - 1
  }

  /** With a positive gap, migration happens exactly after every gap-th generation. */
  lemma MigrationEveryGap(iteration: nat, gap: int)
    requires gap != 0
    ensures gap > 0 ==> (MigrationDue(iteration, gap) <==> (iteration + 1) % gap == 0)
    ensures gap < 0 ==> !MigrationDue(iteration, gap)
    ensures gap == 1 ==> MigrationDue(iteration, gap)
  {
    if gap > 0 {
      var q, r := iteration / gap, iteration % gap;
      if r + 1 == gap {
        assert gap * (q + 1) == gap * q + gap;
        DivModUnique(iteration + 1, gap, q + 1, 0);
      } else {
        DivModUnique(iteration + 1, gap, q, r + 1);
      }
    }
    if gap == 1 {
      DivModUnique(iteration, 1, iteration, 0);
    }
  }

  /** The deme's fittest member, the one `max_element` finds first. */
  function BestOf(deme: seq<Chromosome>, fitness: Chromosome -> real): (b: Chromosome)
    requires |deme| > 0
    ensures b in deme
    ensures forall k :: 0 <= k < |deme| ==> fitness(deme[k]) <= fitness(b)
    ensures exists i :: 0 <= i < |deme| && deme[i] == b && forall j :: 0 <= j < i ==> fitness(deme[j]) < fitness(b)
  {
    deme[FirstMax(deme, fitness)]
  }

  /**
   Ranked migration first sorts a deme by ascending fitness and drops its
   first two members.
   */
  function Trim(deme: seq<Chromosome>, fitness: Chromosome -> real): (r: seq<Chromosome>)
    requires |deme| >= 2
    ensures |r| == |deme| - 2
    ensures multiset(r) <= multiset(deme)
    ensures SortedBy(r, fitness)
  {
    var s := SortBy(deme, fitness);
    assert |multiset(s)| == |multiset(deme)|;
    assert s == s[..2] + s[2..];
    s[2..]
  }

  /** The two members Trim drops are no fitter than any member it keeps. */
  lemma TrimDropsLeastFit(deme: seq<Chromosome>, fitness: Chromosome -> real)
    requires |deme| >= 2
    ensures exists a, b ::
              multiset(deme) == multiset{a, b} + multiset(Trim(deme, fitness)) &&
              forall k :: 0 <= k < |Trim(deme, fitness)| ==>
                fitness(a) <= fitness(Trim(deme, fitness)[k]) && fitness(b) <= fitness(Trim(deme, fitness)[k])
  {
    var s := SortBy(deme, fitness);
    var r := Trim(deme, fitness);
    assert r == s[2..];
    TwoHeads(s);
    forall k | 0 <= k < |r| ensures fitness(s[0]) <= fitness(r[k]) && fitness(s[1]) <= fitness(r[k]) {
      assert r[k] == s[k + 2];
    }
    assert multiset(deme) == multiset{s[0], s[1]} + multiset(r);
  }

  /** The values of s are its first two members and those of the rest. */
  lemma TwoHeads<T>(s: seq<T>)
    requires |s| >= 2
    ensures multiset(s) == multiset{s[0], s[1]} + multiset(s[2..])
  {
    assert s == [s[0], s[1]] + s[2..];
  }

  /** Every deme after the sort-and-trim pass of ranked migration. */
  function TrimAll(np: seq<seq<Chromosome>>, fitness: Chromosome -> real): (t: seq<seq<Chromosome>>)
    requires forall i :: 0 <= i < |np| ==> |np[i]| >= 2
    ensures |t| == |np|
    ensures forall i :: 0 <= i < |np| ==> t[i] == Trim(np[i], fitness)
  {
    seq(|np|, i requires 0 <= i < |np| => Trim(np[i], fitness))
  }

  /** The best member of every deme, in deme order. */
  function Bests(demes: seq<seq<Chromosome>>, fitness: Chromosome -> real): (b: seq<Chromosome>)
    requires forall i :: 0 <= i < |demes| ==> |demes[i]| > 0
    ensures |b| == |demes|
    ensures forall i :: 0 <= i < |demes| ==> b[i] == BestOf(demes[i], fitness)
  {
    seq(|demes|, i requires 0 <= i < |demes| => BestOf(demes[i], fitness))
  }

  /** The migrants that demes 0..i-1 have sent to deme j so far, in arrival order. */
  function Incoming(best: seq<Chromosome>, j: int, i: nat): seq<Chromosome>
    requires i <= |best|
  {
    if i == 0 then []
    else
      Incoming(best, j, i - 1)
      + (if Right(i - 1, |best|) == j then [best[i - 1]] else [])
      + (if Left(i - 1, |best|) == j then [best[i - 1]] else [])
  }

  /**
   What deme j holds from senders below i when its left neighbour l sends
   x and its right neighbour r sends y: the push loop runs up the deme
   indices, so the lower-numbered sender comes first.
   */
  function Heard(x: Chromosome, y: Chromosome, l: int, r: int, i: int): seq<Chromosome> {
    if l <= r then (if l < i then [x] else []) + (if r < i then [y] else [])
    else (if r < i then [y] else []) + (if l < i then [x] else [])
  }

  /**
   The two migrants of deme j in arrival order: the best of its left and
   of its right neighbour, the lower-numbered neighbour's first.
   */
  function ArrivalOrder(left: Chromosome, right: Chromosome, j: int, demes: int): seq<Chromosome>
    requires demes > 0
  {
    if Left(j, demes) <= Right(j, demes) then [left, right] else [right, left]
  }

  /**
   Inside the ring deme j hears its left neighbour first; the wrap puts
   the right neighbour first at both ends of a ring of three or more.
   */
  lemma ArrivalOrderCases(left: Chromosome, right: Chromosome, j: int, demes: int)
    requires 0 <= j < demes
    ensures 0 < j < demes - 1 ==> ArrivalOrder(left, right, j, demes) == [left, right]
    ensures demes >= 3 && (j == 0 || j == demes - 1) ==> ArrivalOrder(left, right, j, demes) == [right, left]
    ensures demes <= 2 ==> ArrivalOrder(left, right, j, demes) == [left, right]
  {
    RingSteps(j, demes);
  }

  /** Deme j hears only from its left neighbour (sending right) and its right neighbour (sending left). */
  lemma {:induction false} IncomingPrefix(best: seq<Chromosome>, j: int, i: nat)
    requires 0 <= j < |best| && i <= |best|
    ensures Incoming(best, j, i) == Heard(best[Left(j, |best|)], best[Right(j, |best|)], Left(j, |best|), Right(j, |best|), i)
  {
    var D := |best|;
    RingInverse(j, j, D);
    if i > 0 {
      var t := i - 1;
      IncomingPrefix(best, j, t);
      RingInverse(t, j, D);
      var L, R := Left(j, D), Right(j, D);
      var A := if Right(t, D) == j then [best[t]] else [];
      var B := if Left(t, D) == j then [best[t]] else [];
      assert Incoming(best, j, i) == Incoming(best, j, t) + A + B;
      assert A == if L == t then [best[L]] else [];
      assert B == if R == t then [best[R]] else [];
      PrefixStep(Incoming(best, j, t), A, B, L, R, t, best[L], best[R]);
    }
  }

  lemma PrefixStep(prev: seq<Chromosome>, a: seq<Chromosome>, b: seq<Chromosome>, l: int, r: int, t: int,
                   x: Chromosome, y: Chromosome)
    requires prev == Heard(x, y, l, r, t)
    requires a == (if l == t then [x] else [])
    requires b == (if r == t then [y] else [])
    ensures prev + a + b == Heard(x, y, l, r, t + 1)
  {
  }

  /** After all demes have sent, deme j holds one migrant from each neighbour, in arrival order. */
  lemma IncomingAll(best: seq<Chromosome>, j: int)
    requires 0 <= j < |best|
    ensures Incoming(best, j, |best|) == ArrivalOrder(best[Left(j, |best|)], best[Right(j, |best|)], j, |best|)
    ensures multiset(Incoming(best, j, |best|)) == multiset{best[Left(j, |best|)], best[Right(j, |best|)]}
  {
    IncomingPrefix(best, j, |best|);
    RingInverse(j, j, |best|);
  }

  /** Deme j is its trimmed self followed by the migrants demes 0..i-1 sent it. */
  predicate Arrived(w: seq<seq<Chromosome>>, trimmed: seq<seq<Chromosome>>, best: seq<Chromosome>, i: nat) {
    |w| == |trimmed| == |best| && i <= |best| &&
    forall j :: 0 <= j < |w| ==>
      |w[j]| >= |trimmed[j]| && w[j][..|trimmed[j]|] == trimmed[j] &&
      w[j][|trimmed[j]|..] == Incoming(best, j, i)
  }

  /** Before any deme has sent, every deme is just its trimmed self. */
  lemma NothingArrivedYet(trimmed: seq<seq<Chromosome>>, best: seq<Chromosome>)
    requires |trimmed| == |best|
    ensures Arrived(trimmed, trimmed, best, 0)
  {
    forall j | 0 <= j < |trimmed| ensures trimmed[j][..|trimmed[j]|] == trimmed[j] {
    }
  }

  /** `push_back` of x onto deme j. */
  function Push(w: seq<seq<Chromosome>>, j: int, x: Chromosome): (r: seq<seq<Chromosome>>)
    requires 0 <= j < |w|
    ensures |r| == |w| && r[j] == w[j] + [x]
    ensures forall k :: 0 <= k < |w| && k != j ==> r[k] == w[k]
  {
    w[j := w[j] + [x]]
  }

  /** Deme i sending its best to the right and then to the left neighbour. */
  lemma SendStep(w: seq<seq<Chromosome>>, trimmed: seq<seq<Chromosome>>, best: seq<Chromosome>, i: nat)
    requires Arrived(w, trimmed, best, i) && i < |best|
    ensures 0 <= Right(i, |best|) < |w| && 0 <= Left(i, |best|) < |w|
    ensures Arrived(Push(Push(w, Right(i, |best|), best[i]), Left(i, |best|), best[i]), trimmed, best, i + 1)
  {
    var D := |best|;
    RingInverse(i, i, D);
    var R, L := Right(i, D), Left(i, D);
    var w' := Push(Push(w, R, best[i]), L, best[i]);
    forall j | 0 <= j < |w'|
      ensures |w'[j]| >= |trimmed[j]| && w'[j][..|trimmed[j]|] == trimmed[j]
      ensures w'[j][|trimmed[j]|..] == Incoming(best, j, i + 1)
    {
      var extra := (if R == j then [best[i]] else []) + (if L == j then [best[i]] else []);
      assert w'[j] == w[j] + extra;
      SendStepAt(w[j], w'[j], trimmed[j], best, i, j, extra);
    }
  }

  /** Deme j after deme i has sent: whatever i sent it is appended to its migrants. */
  lemma SendStepAt(d: seq<Chromosome>, d': seq<Chromosome>, prefix: seq<Chromosome>, best: seq<Chromosome>,
                   i: nat, j: int, extra: seq<Chromosome>)
    requires i < |best| && |d| >= |prefix| && d[..|prefix|] == prefix
    requires d[|prefix|..] == Incoming(best, j, i)
    requires extra == (if Right(i, |best|) == j then [best[i]] else []) + (if Left(i, |best|) == j then [best[i]] else [])
    requires d' == d + extra
    ensures |d'| >= |prefix| && d'[..|prefix|] == prefix && d'[|prefix|..] == Incoming(best, j, i + 1)
  {
    var A := if Right(i, |best|) == j then [best[i]] else [];
    var B := if Left(i, |best|) == j then [best[i]] else [];
    var m := Incoming(best, j, i);
    Appended(d, d', prefix, extra);
    IncomingNext(best, j, i);
    assert m + (A + B) == m + A + B;
  }

  /** What deme i sends to deme j follows what j had heard from demes 0..i-1. */
  lemma IncomingNext(best: seq<Chromosome>, j: int, i: nat)
    requires i < |best|
    ensures Incoming(best, j, i + 1) == Incoming(best, j, i)
      + (if Right(i, |best|) == j then [best[i]] else [])
      + (if Left(i, |best|) == j then [best[i]] else [])
  {
  }

  /** Appending to a deme keeps its trimmed prefix and extends the migrants after it. */
  lemma Appended<T>(d: seq<T>, d': seq<T>, prefix: seq<T>, extra: seq<T>)
    requires |d| >= |prefix| && d[..|prefix|] == prefix && d' == d + extra
    ensures |d'| >= |prefix| && d'[..|prefix|] == prefix && d'[|prefix|..] == d[|prefix|..] + extra
  {
    var t := |prefix|;
    assert d'[..t] == d[..t];
    assert d'[t..] == d[t..] + extra;
  }

  /**
   Ranked migration: each deme is sorted by fitness and its two least fit
   members dropped; then the best of every trimmed deme is appended to both
   ring neighbours, deme by deme in index order. Every deme keeps its size,
   holds its trimmed self first and ends with the best of its left and of
   its right neighbour, in the order they were sent.
   */
  method MigrateRanked(np: seq<seq<Chromosome>>, fitness: Chromosome -> real) returns (r: seq<seq<Chromosome>>)
    requires |np| > 0 && forall i :: 0 <= i < |np| ==> |np[i]| >= 3
    ensures |r| == |np|
    ensures forall j :: 0 <= j < |np| ==> |r[j]| == |np[j]| && r[j][..|np[j]| - 2] == Trim(np[j], fitness)
    ensures forall j :: 0 <= j < |np| ==>
      r[j][|np[j]| - 2..] == ArrivalOrder(BestOf(Trim(np[Left(j, |np|)], fitness), fitness),
                                          BestOf(Trim(np[Right(j, |np|)], fitness), fitness), j, |np|)
    ensures MembersFrom(np, r)
  {
    var D := |np|;
    var trimmed := TrimAll(np, fitness);
    var best := Bests(trimmed, fitness);
    r := SendToNeighbours(trimmed, best);
    AllArrived(np, fitness, trimmed, best, r);
    forall i | 0 <= i < D ensures multiset(trimmed[i]) <= multiset(np[i]) && best[i] in trimmed[i] {
    }
    RankedMembers(np, trimmed, best, r);
  }

  /** Every member of every deme of `w` is a member of some deme of `np`: migration moves, never invents. */
  predicate MembersFrom(np: seq<seq<Chromosome>>, w: seq<seq<Chromosome>>) {
    forall j, k :: 0 <= j < |w| && 0 <= k < |w[j]| ==> exists d :: 0 <= d < |np| && w[j][k] in np[d]
  }

  /** A deme that is a trimmed self plus two neighbours' bests holds only members of the old demes. */
  lemma RankedMembers(np: seq<seq<Chromosome>>, trimmed: seq<seq<Chromosome>>, best: seq<Chromosome>,
                      r: seq<seq<Chromosome>>)
    requires |np| == |trimmed| == |best| > 0 && Arrived(r, trimmed, best, |best|)
    requires forall i :: 0 <= i < |np| ==> multiset(trimmed[i]) <= multiset(np[i]) && best[i] in trimmed[i]
    ensures MembersFrom(np, r)
  {
    var D := |np|;
    forall j, k | 0 <= j < |r| && 0 <= k < |r[j]| ensures exists d :: 0 <= d < D && r[j][k] in np[d] {
      IncomingAll(best, j);
      RingInverse(j, j, D);
      var L, R := Left(j, D), Right(j, D);
      SlotMember(trimmed[j], np[j], r[j], trimmed[L], np[L], best[L], trimmed[R], np[R], best[R], k);
      if r[j][k] in np[j] {
        assert 0 <= j < D && r[j][k] in np[j];
      } else if r[j][k] in np[L] {
        assert 0 <= L < D && r[j][k] in np[L];
      } else {
        assert 0 <= R < D && r[j][k] in np[R];
      }
    }
  }

  /** Slot k of a deme after ranked migration comes from the deme itself or one of its neighbours. */
  lemma SlotMember<T>(own: seq<T>, ownOld: seq<T>, w: seq<T>, left: seq<T>, leftOld: seq<T>, leftBest: T,
                      right: seq<T>, rightOld: seq<T>, rightBest: T, k: nat)
    requires multiset(own) <= multiset(ownOld)
    requires multiset(left) <= multiset(leftOld) && leftBest in left
    requires multiset(right) <= multiset(rightOld) && rightBest in right
    requires |w| >= |own| && w[..|own|] == own && multiset(w[|own|..]) == multiset{leftBest, rightBest}
    requires k < |w|
    ensures w[k] in ownOld || w[k] in leftOld || w[k] in rightOld
  {
    var t := |own|;
    if k < t {
      assert w[k] == w[..t][k];
      SubMember(own, ownOld, w[k]);
    } else {
      assert w[k] == w[t..][k - t];
      assert w[k] in multiset(w[t..]);
      if w[k] == leftBest {
        SubMember(left, leftOld, leftBest);
      } else {
        SubMember(right, rightOld, rightBest);
      }
    }
  }

  lemma SubMember<T>(sub: seq<T>, s: seq<T>, x: T)
    requires multiset(sub) <= multiset(s) && x in sub
    ensures x in s
  {
    assert x in multiset(sub);
  }

  /** The push loop: deme i appends best[i] to its right, then to its left neighbour. */
  method SendToNeighbours(trimmed: seq<seq<Chromosome>>, best: seq<Chromosome>) returns (r: seq<seq<Chromosome>>)
    requires |trimmed| == |best| > 0
    ensures Arrived(r, trimmed, best, |best|)
  {
    var D := |best|;
    r := trimmed;
    NothingArrivedYet(trimmed, best);
    var i := 0;
    while i < D
      invariant 0 <= i <= D
      invariant Arrived(r, trimmed, best, i)
    {
      SendStep(r, trimmed, best, i);
      r := Push(r, Right(i, D), best[i]);
      r := Push(r, Left(i, D), best[i]);
      i := i + 1;
    }
  }

  /** Once every deme has sent, each deme ends with exactly its two neighbours' bests. */
  lemma AllArrived(np: seq<seq<Chromosome>>, fitness: Chromosome -> real, trimmed: seq<seq<Chromosome>>,
                   best: seq<Chromosome>, r: seq<seq<Chromosome>>)
    requires |np| > 0 && forall i :: 0 <= i < |np| ==> |np[i]| >= 3
    requires trimmed == TrimAll(np, fitness) && best == Bests(trimmed, fitness)
    requires Arrived(r, trimmed, best, |np|)
    ensures |r| == |np|
    ensures forall j :: 0 <= j < |np| ==> |r[j]| == |np[j]| && r[j][..|np[j]| - 2] == Trim(np[j], fitness)
    ensures forall j :: 0 <= j < |np| ==>
      r[j][|np[j]| - 2..] == ArrivalOrder(BestOf(Trim(np[Left(j, |np|)], fitness), fitness),
                                          BestOf(Trim(np[Right(j, |np|)], fitness), fitness), j, |np|)
  {
    var D := |np|;
    forall j | 0 <= j < D
      ensures |r[j]| == |np[j]| && r[j][..|np[j]| - 2] == Trim(np[j], fitness)
      ensures r[j][|np[j]| - 2..] == ArrivalOrder(BestOf(Trim(np[Left(j, D)], fitness), fitness),
                                                  BestOf(Trim(np[Right(j, D)], fitness), fitness), j, D)
    {
      ArrivedAt(np, fitness, trimmed, best, r, j);
    }
  }

  /** Deme j once every deme has sent: its trimmed self, then its neighbours' bests in arrival order. */
  lemma ArrivedAt(np: seq<seq<Chromosome>>, fitness: Chromosome -> real, trimmed: seq<seq<Chromosome>>,
                  best: seq<Chromosome>, r: seq<seq<Chromosome>>, j: int)
    requires 0 <= j < |np| && forall i :: 0 <= i < |np| ==> |np[i]| >= 3
    requires |trimmed| == |best| == |np| && trimmed[j] == Trim(np[j], fitness)
    requires forall i :: 0 <= i < |np| ==> best[i] == BestOf(Trim(np[i], fitness), fitness)
    requires Arrived(r, trimmed, best, |np|)
    ensures |r[j]| == |np[j]| && r[j][..|np[j]| - 2] == Trim(np[j], fitness)
    ensures r[j][|np[j]| - 2..] == ArrivalOrder(BestOf(Trim(np[Left(j, |np|)], fitness), fitness),
                                                BestOf(Trim(np[Right(j, |np|)], fitness), fitness), j, |np|)
  {
    IncomingAll(best, j);
    RingInverse(j, j, |np|);
    assert |r[j][|trimmed[j]|..]| == 2;
  }

  /** The two uniform index draws of random replace for deme i, in draw order. */
  datatype ReplaceDraw = ReplaceDraw(first: int, second: int)

  /** Every deme is non-empty and there is one draw pair per deme. */
  predicate ReplaceShape(np: seq<seq<Chromosome>>, draws: seq<ReplaceDraw>) {
    |np| > 0 && |draws| == |np| && forall i :: 0 <= i < |np| ==> |np[i]| > 0
  }

  /**
   The ranges the source draws from: `first` comes from `left_gen`, sized
   by the left neighbour, and `second` from `right_gen`, sized by the right
   neighbour.
   */
  predicate AsWrittenDrawsFit(np: seq<seq<Chromosome>>, draws: seq<ReplaceDraw>)
    requires ReplaceShape(np, draws)
  {
    forall i :: 0 <= i < |np| ==>
      0 <= draws[i].first < |np[Left(i, |np|)]| && 0 <= draws[i].second < |np[Right(i, |np|)]|
  }

  /** The intended ranges: each index is drawn over the deme it is written into. */
  predicate ReplaceDrawsFit(np: seq<seq<Chromosome>>, draws: seq<ReplaceDraw>)
    requires ReplaceShape(np, draws)
  {
    forall i :: 0 <= i < |np| ==>
      0 <= draws[i].first < |np[Right(i, |np|)]| && 0 <= draws[i].second < |np[Left(i, |np|)]|
  }

  /**
   The replace loop from deme i on: `.at(first) = best[i]` on the right
   neighbour, then `.at(second) = best[i]` on the left one; `at` throws
   `out_of_range` for an index past the end, which ends `ep`.
   */
  function ReplaceFrom(best: seq<Chromosome>, draws: seq<ReplaceDraw>, i: nat, w: seq<seq<Chromosome>>)
    : (r: Result<seq<seq<Chromosome>>>)
    requires |best| == |draws| == |w| > 0 && i <= |w|
    ensures r.Ok? ==> |r.value| == |w| && forall j :: 0 <= j < |w| ==> |r.value[j]| == |w[j]|
    decreases |w| - i
  {
    if i == |w| then Ok(w)
    else
      var R, L := Right(i, |w|), Left(i, |w|);
      RingInverse(i, i, |w|);
      if !(0 <= draws[i].first < |w[R]|) then Throws(OutOfRange)
      else
        var w1 := w[R := w[R][draws[i].first := best[i]]];
        if !(0 <= draws[i].second < |w1[L]|) then Throws(OutOfRange)
        else ReplaceFrom(best, draws, i + 1, w1[L := w1[L][draws[i].second := best[i]]])
  }

  /** Some deme i >= from draws an index past the end of the deme it writes into. */
  predicate EscapesFrom(np: seq<seq<Chromosome>>, draws: seq<ReplaceDraw>, from: nat)
    requires ReplaceShape(np, draws)
  {
    exists i :: from <= i < |np| &&
      !(0 <= draws[i].first < |np[Right(i, |np|)]| && 0 <= draws[i].second < |np[Left(i, |np|)]|)
  }

  /** Writing never changes a deme's size, so the loop throws exactly when some index escapes. */
  lemma {:induction false} ReplaceFromThrows(np: seq<seq<Chromosome>>, best: seq<Chromosome>, draws: seq<ReplaceDraw>,
                                             i: nat, w: seq<seq<Chromosome>>)
    requires ReplaceShape(np, draws) && |best| == |np| && i <= |np|
    requires |w| == |np| && forall j :: 0 <= j < |np| ==> |w[j]| == |np[j]|
    requires forall i' :: 0 <= i' < |np| ==> 0 <= draws[i'].first && 0 <= draws[i'].second
    ensures ReplaceFrom(best, draws, i, w).Throws? <==> EscapesFrom(np, draws, i)
    ensures ReplaceFrom(best, draws, i, w).Throws? ==> ReplaceFrom(best, draws, i, w).exception == OutOfRange
    decreases |np| - i
  {
    if i < |np| {
      var D := |np|;
      RingInverse(i, i, D);
      var R, L := Right(i, D), Left(i, D);
      if 0 <= draws[i].first < |w[R]| {
        var w1 := w[R := w[R][draws[i].first := best[i]]];
        if 0 <= draws[i].second < |w1[L]| {
          var w2 := w1[L := w1[L][draws[i].second := best[i]]];
          ReplaceFromThrows(np, best, draws, i + 1, w2);
          if EscapesFrom(np, draws, i) {
            var e :| i <= e < D &&
              !(0 <= draws[e].first < |np[Right(e, D)]| && 0 <= draws[e].second < |np[Left(e, D)]|);
            assert e != i;
          }
        }
      }
    }
  }

  /** The best of every deme, taken before any replacement. */
  function DemeBests(np: seq<seq<Chromosome>>, fitness: Chromosome -> real, draws: seq<ReplaceDraw>)
    : (best: seq<Chromosome>)
    requires ReplaceShape(np, draws)
    ensures |best| == |np| && forall i :: 0 <= i < |np| ==> best[i] == BestOf(np[i], fitness)
  {
    Bests(np, fitness)
  }

  /**
   Random replace as the source writes it: with the index ranges of the two
   neighbours swapped, it throws `out_of_range` exactly when some deme's
   draw runs past the end of the deme it is written into.
   */
  function MigrateRandomAsWritten(np: seq<seq<Chromosome>>, fitness: Chromosome -> real, draws: seq<ReplaceDraw>)
    : (r: Result<seq<seq<Chromosome>>>)
    requires ReplaceShape(np, draws) && AsWrittenDrawsFit(np, draws)
    ensures r.Throws? <==> EscapesFrom(np, draws, 0)
    ensures r.Throws? ==> r.exception == OutOfRange
  {
    ReplaceFromThrows(np, DemeBests(np, fitness, draws), draws, 0, np);
    ReplaceFrom(DemeBests(np, fitness, draws), draws, 0, np)
  }

  /**
   Demes of sizes 3, 3 and 4 (a population of 10 cut into 3): the first
   draw of deme 0 is 3, inside the range of its left neighbour (deme 2), but
   it is written into its right neighbour (deme 1), which has only 3 members.
   */
  lemma AsWrittenThrows(fitness: Chromosome -> real)
    ensures var np := [[[0], [1], [2]], [[0], [1], [2]], [[0], [1], [2], [3]]];
            var draws := [ReplaceDraw(3, 0), ReplaceDraw(0, 0), ReplaceDraw(0, 0)];
            ReplaceShape(np, draws) && AsWrittenDrawsFit(np, draws) &&
            MigrateRandomAsWritten(np, fitness, draws) == Throws(OutOfRange)
  {
    var np: seq<seq<Chromosome>> := [[[0], [1], [2]], [[0], [1], [2]], [[0], [1], [2], [3]]];
    var draws := [ReplaceDraw(3, 0), ReplaceDraw(0, 0), ReplaceDraw(0, 0)];
    RingSteps(0, 3);
    RingSteps(1, 3);
    RingSteps(2, 3);
    assert ReplaceShape(np, draws);
    forall i | 0 <= i < 3
      ensures 0 <= draws[i].first < |np[Left(i, 3)]| && 0 <= draws[i].second < |np[Right(i, 3)]|
    {
    }
    assert !(0 <= draws[0].first < |np[Right(0, 3)]|);
    assert EscapesFrom(np, draws, 0);
    var r := MigrateRandomAsWritten(np, fitness, draws);
    assert r.Throws? && r.exception == OutOfRange;
  }

  /** No deme among 0..i-1 writes to slot k of deme j. */
  predicate Untouched(draws: seq<ReplaceDraw>, demes: int, j: int, k: int, i: nat)
    requires demes > 0 && i <= |draws|
  {
    forall i' :: 0 <= i' < i ==>
      !(Right(i', demes) == j && draws[i'].first == k) && !(Left(i', demes) == j && draws[i'].second == k)
  }

  /**
   After demes 0..i-1 have written: sizes are kept, every slot holds its
   old member or some deme's best, and untouched slots hold their old member.
   */
  predicate Replaced(np: seq<seq<Chromosome>>, best: seq<Chromosome>, draws: seq<ReplaceDraw>, i: nat,
                     w: seq<seq<Chromosome>>)
    requires ReplaceShape(np, draws) && i <= |np|
  {
    |w| == |np| && (forall j :: 0 <= j < |np| ==> |w[j]| == |np[j]|) &&
    (forall j, k :: 0 <= j < |np| && 0 <= k < |np[j]| ==> w[j][k] == np[j][k] || w[j][k] in best) &&
    (forall j, k :: 0 <= j < |np| && 0 <= k < |np[j]| && Untouched(draws, |np|, j, k, i) ==> w[j][k] == np[j][k])
  }

  /** One deme's two writes, with the intended ranges, keep `Replaced` and follow `ReplaceFrom`. */
  lemma ReplaceStep(np: seq<seq<Chromosome>>, best: seq<Chromosome>, draws: seq<ReplaceDraw>, i: nat,
                    prev: seq<seq<Chromosome>>, w: seq<seq<Chromosome>>)
    requires ReplaceShape(np, draws) && ReplaceDrawsFit(np, draws) && |best| == |np| && i < |np|
    requires Replaced(np, best, draws, i, prev)
    requires 0 <= Right(i, |np|) < |np| && 0 <= Left(i, |np|) < |np|
    requires w == (var R, L := Right(i, |np|), Left(i, |np|);
                   var w1 := prev[R := prev[R][draws[i].first := best[i]]];
                   w1[L := w1[L][draws[i].second := best[i]]])
    ensures Replaced(np, best, draws, i + 1, w)
    ensures ReplaceFrom(best, draws, i, prev) == ReplaceFrom(best, draws, i + 1, w)
    ensures w[Left(i, |np|)][draws[i].second] == best[i]
  {
    var D := |np|;
    var R, L := Right(i, D), Left(i, D);
    var w1 := prev[R := prev[R][draws[i].first := best[i]]];
    assert best[i] in best;
    forall j, k | 0 <= j < D && 0 <= k < |np[j]|
      ensures w[j][k] == np[j][k] || w[j][k] in best
      ensures Untouched(draws, D, j, k, i + 1) ==> w[j][k] == np[j][k]
    {
      if (j == L && k == draws[i].second) || (j == R && k == draws[i].first) {
        assert w[j][k] == best[i];
      } else {
        assert w[j][k] == prev[j][k];
      }
    }
  }

  /**
   Random replace with each index drawn over the deme it is written into:
   the loop never throws, keeps every deme's size, writes only the drawn
   slots and writes only deme bests; the last write, deme D-1's into its
   left neighbour, survives.
   */
  method MigrateRandom(np: seq<seq<Chromosome>>, fitness: Chromosome -> real, draws: seq<ReplaceDraw>)
    returns (r: seq<seq<Chromosome>>)
    requires ReplaceShape(np, draws) && ReplaceDrawsFit(np, draws)
    ensures ReplaceFrom(DemeBests(np, fitness, draws), draws, 0, np) == Ok(r)
    ensures Replaced(np, DemeBests(np, fitness, draws), draws, |np|, r)
    ensures r[Left(|np| - 1, |np|)][draws[|np| - 1].second] == BestOf(np[|np| - 1], fitness)
    ensures MembersFrom(np, r)
  {
    r := ReplaceLoop(np, DemeBests(np, fitness, draws), draws);
    ReplacedMembers(np, DemeBests(np, fitness, draws), draws, r);
  }

  /** Random replace writes only bests of demes over old members, so it moves and never invents. */
  lemma ReplacedMembers(np: seq<seq<Chromosome>>, best: seq<Chromosome>, draws: seq<ReplaceDraw>,
                        r: seq<seq<Chromosome>>)
    requires ReplaceShape(np, draws) && |best| == |np| && forall i :: 0 <= i < |np| ==> best[i] in np[i]
    requires Replaced(np, best, draws, |np|, r)
    ensures MembersFrom(np, r)
  {
    forall j, k | 0 <= j < |r| && 0 <= k < |r[j]| ensures exists d :: 0 <= d < |np| && r[j][k] in np[d] {
      if r[j][k] == np[j][k] {
        assert r[j][k] in np[j];
      } else {
        var i :| 0 <= i < |best| && best[i] == r[j][k];
        assert r[j][k] in np[i];
      }
    }
  }

  /** The loop of random replace over precomputed deme bests. */
  method ReplaceLoop(np: seq<seq<Chromosome>>, best: seq<Chromosome>, draws: seq<ReplaceDraw>)
    returns (r: seq<seq<Chromosome>>)
    requires ReplaceShape(np, draws) && ReplaceDrawsFit(np, draws) && |best| == |np|
    ensures ReplaceFrom(best, draws, 0, np) == Ok(r)
    ensures Replaced(np, best, draws, |np|, r)
    ensures r[Left(|np| - 1, |np|)][draws[|np| - 1].second] == best[|np| - 1]
  {
    var D := |np|;
    r := np;
    NothingReplacedYet(np, best, draws);
    var i := 0;
    while i < D
      invariant 0 <= i <= D
      invariant Replaced(np, best, draws, i, r)
      invariant ReplaceFrom(best, draws, 0, np) == ReplaceFrom(best, draws, i, r)
      invariant i > 0 ==> 0 <= Left(i - 1, D) < D && 0 <= draws[i - 1].second < |r[Left(i - 1, D)]| &&
                          r[Left(i - 1, D)][draws[i - 1].second] == best[i - 1]
    {
      r := WriteDeme(np, best, draws, i, r);
      i := i + 1;
    }
  }

  /** Deme i's two writes: into its right neighbour, then into its left one. */
  method WriteDeme(np: seq<seq<Chromosome>>, best: seq<Chromosome>, draws: seq<ReplaceDraw>, i: nat,
                   prev: seq<seq<Chromosome>>)
    returns (w: seq<seq<Chromosome>>)
    requires ReplaceShape(np, draws) && ReplaceDrawsFit(np, draws) && |best| == |np| && i < |np|
    requires Replaced(np, best, draws, i, prev)
    ensures Replaced(np, best, draws, i + 1, w)
    ensures ReplaceFrom(best, draws, i, prev) == ReplaceFrom(best, draws, i + 1, w)
    ensures 0 <= Left(i, |np|) < |np| && 0 <= draws[i].second < |w[Left(i, |np|)]| &&
            w[Left(i, |np|)][draws[i].second] == best[i]
  {
    var D := |np|;
    RingInverse(i, i, D);
    var R, L := Right(i, D), Left(i, D);
    w := prev[R := prev[R][draws[i].first := best[i]]];
    w := w[L := w[L][draws[i].second := best[i]]];
    ReplaceStep(np, best, draws, i, prev, w);
  }

  lemma NothingReplacedYet(np: seq<seq<Chromosome>>, best: seq<Chromosome>, draws: seq<ReplaceDraw>)
    requires ReplaceShape(np, draws)
    ensures Replaced(np, best, draws, 0, np)
  {
  }

  /**
   When neighbouring demes have equal sizes (as they do when the population
   size is a multiple of the deme count) the two range choices coincide, so
   the code as written never throws and agrees with the intended version.
   */
  lemma AsWrittenAgreesOnEqualDemes(np: seq<seq<Chromosome>>, fitness: Chromosome -> real, draws: seq<ReplaceDraw>)
    requires ReplaceShape(np, draws)
    requires forall i :: 0 <= i < |np| ==> |np[i]| == |np[0]|
    ensures AsWrittenDrawsFit(np, draws) <==> ReplaceDrawsFit(np, draws)
    ensures AsWrittenDrawsFit(np, draws) ==>
      MigrateRandomAsWritten(np, fitness, draws) == ReplaceFrom(DemeBests(np, fitness, draws), draws, 0, np) &&
      MigrateRandomAsWritten(np, fitness, draws).Ok?
  {
    forall i | 0 <= i < |np| ensures 0 <= Right(i, |np|) < |np| && 0 <= Left(i, |np|) < |np| {
      RingInverse(i, i, |np|);
    }
    if AsWrittenDrawsFit(np, draws) {
      assert !EscapesFrom(np, draws, 0);
    }
  }

  /** Such demes do arise: a population of 10 cut into 3 demes gives sizes 3, 3 and 4. */
  lemma TenIntoThree(pop: seq<Chromosome>)
    requires |pop| == 10
    ensures |Deme(pop, 3, 0)| == 3 && |Deme(pop, 3, 1)| == 3 && |Deme(pop, 3, 2)| == 4
  {
  }

  /**
   The program's own population of 50 cut into 6 demes gives sizes 8, 8, 9,
   8, 8 and 9.
   */
  lemma FiftyIntoSix(pop: seq<Chromosome>)
    requires |pop| == 50
    ensures |Deme(pop, 6, 0)| == 8 && |Deme(pop, 6, 1)| == 8 && |Deme(pop, 6, 2)| == 9
    ensures |Deme(pop, 6, 3)| == 8 && |Deme(pop, 6, 4)| == 8 && |Deme(pop, 6, 5)| == 9
  {
  }

  /**
   On demes of sizes 8, 8, 9, 8, 8, 9 the first draw of deme 0 may be 8,
   inside the range of its left neighbour (deme 5), but it is written into
   its right neighbour (deme 1), which has only 8 members.
   */
  lemma SixDemesThrow(np: seq<seq<Chromosome>>, fitness: Chromosome -> real)
    requires |np| == 6 && |np[0]| == 8 && |np[1]| == 8 && |np[2]| == 9
    requires |np[3]| == 8 && |np[4]| == 8 && |np[5]| == 9
    ensures var draws := [ReplaceDraw(8, 0), ReplaceDraw(0, 0), ReplaceDraw(0, 0),
                          ReplaceDraw(0, 0), ReplaceDraw(0, 0), ReplaceDraw(0, 0)];
            ReplaceShape(np, draws) && AsWrittenDrawsFit(np, draws) &&
            MigrateRandomAsWritten(np, fitness, draws) == Throws(OutOfRange)
  {
    var draws := [ReplaceDraw(8, 0), ReplaceDraw(0, 0), ReplaceDraw(0, 0),
                  ReplaceDraw(0, 0), ReplaceDraw(0, 0), ReplaceDraw(0, 0)];
    forall t | 0 <= t < 6
      ensures Right(t, 6) == (if t + 1 == 6 then 0 else t + 1) && Left(t, 6) == (if t == 0 then 5 else t - 1)
    {
      RingSteps(t, 6);
    }
    assert ReplaceShape(np, draws);
    assert !(0 <= draws[0].first < |np[Right(0, 6)]|);
    assert EscapesFrom(np, draws, 0);
  }
}
