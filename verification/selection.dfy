/**
 Selection over a fitness vector: tournament of two, roulette walked from the
 end, and rank selection (roulette over the weights 1..N after sorting by
 fitness), plus the factory that picks one by name.
 */
module Selection {
  import opened Seqs

  /** The fitness of every individual, in population order (`fit.push_back(fitness(x))`). */
  function FitnessVector<T>(pop: seq<T>, fitness: T -> real): (f: seq<real>)
    ensures |f| == |pop|
    ensures forall k :: 0 <= k < |pop| ==> f[k] == fitness(pop[k])
  {
    seq(|pop|, k requires 0 <= k < |pop| => fitness(pop[k]))
  }

  /** The two uniformly drawn indices of a tournament, in draw order. */
  datatype TournamentDraw = TournamentDraw(first: int, second: int)

  /** Both tournament draws index the fitness vector. */
  predicate TournamentDrawFits(n: int, d: TournamentDraw) {
    0 <= d.first < n && 0 <= d.second < n
  }

  /**
   `tournament_selection`: the fitter of the two draws; the first one wins
   only when strictly fitter, so a tie goes to the second.
   */
  function Tournament(f: seq<real>, d: TournamentDraw): (r: int)
    requires TournamentDrawFits(|f|, d)
    ensures r == d.first || r == d.second
    ensures f[r] >= f[d.first] && f[r] >= f[d.second]
    ensures r == d.first <==> f[d.first] > f[d.second] || d.first == d.second
  {
    if f[d.first] > f[d.second] then d.first else d.second
  }

  /**
   The backward walk of the roulette: `running` is what is left of the total
   after subtracting the fitnesses above index i.
   */
  function RouletteWalk(f: seq<real>, u: real, i: int, running: real): (r: int)
    requires -1 <= i < |f|
    requires running == Sum(f[..i + 1])
    ensures 0 <= r && (r <= i || r == 0)
    ensures r == 0 || Sum(f[..r]) <= u
    ensures forall j :: r < j <= i ==> u < Sum(f[..j])
    decreases i + 1
  {
    if i < 0 then 0
    else
      var left := running - f[i];
      PrefixSumStep(f, i);
      if left <= u then i else RouletteWalk(f, u, i - 1, left)
  }

  /**
   `roulette_selection` for the draw `u`: the largest index whose prefix sum
   does not exceed `u`, or 0 when there is none.
   */
  function Roulette(f: seq<real>, u: real): (r: int)
    ensures 0 <= r && (|f| > 0 ==> r < |f|) && (|f| == 0 ==> r == 0)
    ensures r == 0 || Sum(f[..r]) <= u
    ensures forall j :: r < j < |f| ==> u < Sum(f[..j])
  {
    assert f[..|f|] == f;
    RouletteWalk(f, u, |f| - 1, Sum(f))
  }

  /**
   For non-negative fitnesses and a draw in [0, sum), the chosen index is
   the one whose slice [prefix, prefix + f[r]) of the wheel holds the draw;
   so it has positive fitness and is chosen with probability f[r] / sum.
   */
  lemma RouletteInterval(f: seq<real>, u: real)
    requires forall k :: 0 <= k < |f| ==> f[k] >= 0.0
    requires 0.0 <= u < Sum(f)
    ensures var r := Roulette(f, u);
      0 <= r < |f| && Sum(f[..r]) <= u < Sum(f[..r + 1]) && f[r] > 0.0
  {
    var r := Roulette(f, u);
    assert f[..|f|] == f;
    if |f| == 0 {
      assert false;
    }
    PrefixSumStep(f, r);
    if r + 1 == |f| {
      assert u < Sum(f[..r + 1]);
    }
  }

  /** The weights 1, 2, ..., n that rank selection spins the roulette with. */
  function RankWeights(n: nat): (w: seq<real>)
    ensures |w| == n
    ensures forall k :: 0 <= k < n ==> w[k] == (k + 1) as real
  {
    seq(n, k => (k + 1) as real)
  }

  /** The first k rank weights sum to k(k+1)/2. */
  lemma {:induction false} RankWeightsPrefix(n: nat, k: nat)
    requires k <= n
    ensures Sum(RankWeights(n)[..k]) == (k * (k + 1)) as real / 2.0
  {
    if k > 0 {
      RankWeightsPrefix(n, k - 1);
      PrefixSumStep(RankWeights(n), k - 1);
    }
  }

  /** The fitness of index i, and 0 outside the vector. */
  function FitnessAt(f: seq<real>, i: int): real {
    if 0 <= i < |f| then f[i] else 0.0
  }

  /**
   The indices of `f` sorted by ascending fitness, as the pairs
   (fitness, index) are sorted in `rank_selection`.
   */
  function RankOrder(f: seq<real>): (order: seq<int>)
    ensures IsPermutation(order, |f|) && |order| == |f|
    ensures forall k :: 0 <= k < |order| ==> 0 <= order[k] < |f|
    ensures forall i, j :: 0 <= i < j < |order| ==> f[order[i]] <= f[order[j]]
  {
    var key := (i: int) => FitnessAt(f, i);
    var order := SortBy(Range(|f|), key);
    PermutationFacts(order, |f|);
    assert forall i, j :: 0 <= i < j < |order| ==> key(order[i]) <= key(order[j]);
    order
  }

  /**
   `rank_selection`: the original index stored at the sorted position that
   the roulette over the weights 1..N picks.
   */
  function Rank(f: seq<real>, u: real): (r: int)
    requires |f| > 0
    ensures 0 <= r < |f|
  {
    RankOrder(f)[Roulette(RankWeights(|f|), u)]
  }

  /**
   For a draw in [0, N(N+1)/2), rank selection picks the individual of
   ascending rank pos+1 exactly when the draw lies in a slice of width pos+1.
   */
  lemma RankSelectsByRank(f: seq<real>, u: real)
    requires |f| > 0
    requires 0.0 <= u < (|f| * (|f| + 1)) as real / 2.0
    ensures var pos := Roulette(RankWeights(|f|), u);
      0 <= pos < |f| && Rank(f, u) == RankOrder(f)[pos] &&
      (pos * (pos + 1)) as real / 2.0 <= u < ((pos + 1) * (pos + 2)) as real / 2.0
  {
    var w := RankWeights(|f|);
    assert w[..|f|] == w;
    RankWeightsPrefix(|f|, |f|);
    RouletteInterval(w, u);
    var pos := Roulette(w, u);
    RankWeightsPrefix(|f|, pos);
    RankWeightsPrefix(|f|, pos + 1);
  }

  /** The selection operators `selection_factory` knows. */
  datatype SelectionKind = ByTournament | ByRoulette | ByRank

  /** `selection_factory`: unknown names fall back to tournament selection, silently. */
  function SelectionFactory(name: string): (k: SelectionKind)
    ensures k == ByRoulette <==> name == "roulette_selection"
    ensures k == ByRank <==> name == "rank_selection"
  {
    if name == "tournament_selection" then ByTournament
    else if name == "roulette_selection" then ByRoulette
    else if name == "rank_selection" then ByRank
    else ByTournament
  }

  /** The configuration name of each selection operator. */
  function SelectionName(k: SelectionKind): (name: string)
    ensures SelectionFactory(name) == k
  {
    match k
    case ByTournament => "tournament_selection"
    case ByRoulette => "roulette_selection"
    case ByRank => "rank_selection"
  }

  /** The draws any of the selection operators may consume. */
  datatype SelectionDraw = SelectionDraw(tournament: TournamentDraw, u: real)

  /** What the selected operator needs: a non-empty vector, and in-range tournament draws. */
  predicate SelectionDrawFits(k: SelectionKind, f: seq<real>, d: SelectionDraw) {
    (k != ByRoulette ==> |f| > 0) &&
    (k == ByTournament ==> TournamentDrawFits(|f|, d.tournament))
  }

  /** The selection function the factory returns, applied to one fitness vector. */
  function Select(k: SelectionKind, f: seq<real>, d: SelectionDraw): (r: int)
    requires SelectionDrawFits(k, f, d)
    ensures |f| > 0 ==> 0 <= r < |f|
  {
    match k
    case ByTournament => Tournament(f, d.tournament)
    case ByRoulette => Roulette(f, d.u)
    case ByRank => Rank(f, d.u)
  }
}
