/**
 The island GA's operators on tours written as permutations of [0, n):
 initialisation by selection without replacement, order crossover (OX),
 swap mutation, and the two-individual tournament on chromosomes.
 */
module PermOperators {
  import opened Seqs
  import opened Encoding
  import opened Selection

  /** A chromosome: the visiting order of the cities. */
  type Chromosome = seq<int>

  /** A C++ loop bound `for (i = 0; i < x; i++)` runs max(x, 0) times. */
  function Clamp(x: int): nat {
    if x > 0 then x else 0
  }

  /** The draws of `init_pop`: individual i's draws form an alternative of length n. */
  predicate InitDrawsFit(s: int, n: int, draws: seq<seq<int>>) {
    Clamp(s) <= |draws| &&
    forall i :: 0 <= i < Clamp(s) ==> |draws[i]| >= Clamp(n) && PositionalBound(draws[i][..Clamp(n)])
  }

  /**
   The inner loops of `init_pop` for one individual: `numbers` is filled
   with 0..n-1, then for j = 0..n-1 the code[j]-th remaining number is
   moved to the chromosome. The result is the decoding of `code`, and
   `numbers` is empty again afterwards, ready for the next individual.
   */
  method DrawIndividual(code: seq<int>) returns (c: Chromosome, numbers: seq<int>)
    requires PositionalBound(code)
    ensures c == DecodeTour(code)
    ensures numbers == []
  {
    var n := |code|;
    numbers := Numbers(n);
    ghost var tour := DecodeTour(code);
    c := [];
    var j := 0;
    while j < n
      invariant 0 <= j <= n
      invariant FitsPool(code[j..], numbers) && |numbers| == n - j
      invariant c + Decode(code[j..], numbers) == tour
    {
      var x := code[j];
      TakeStep(c, code, j, numbers);
      c := c + [numbers[x]];
      numbers := RemoveAt(numbers, x);
      j := j + 1;
    }
    assert code[n..] == [];
  }

  /** The `iota` fill of `numbers`: 0, 1, ..., n-1. */
  method Numbers(n: nat) returns (numbers: seq<int>)
    ensures numbers == Range(n)
  {
    numbers := [];
    var k := 0;
    while k < n
      invariant 0 <= k <= n
      invariant |numbers| == k && forall t :: 0 <= t < k ==> numbers[t] == t
    {
      numbers := numbers + [k];
      k := k + 1;
    }
  }

  /** Moving the next decoded item to the chromosome keeps the decoding invariant. */
  lemma TakeStep(c: seq<int>, code: seq<int>, j: int, numbers: seq<int>)
    requires 0 <= j < |code| && FitsPool(code[j..], numbers)
    ensures 0 <= code[j] < |numbers|
    ensures FitsPool(code[j + 1..], RemoveAt(numbers, code[j]))
    ensures c + Decode(code[j..], numbers)
         == (c + [numbers[code[j]]]) + Decode(code[j + 1..], RemoveAt(numbers, code[j]))
  {
    assert code[j..][0] == code[j] && code[j..][1..] == code[j + 1..];
    DecodeStep(code[j..], numbers);
  }

  /**
   `init_pop(s, n)`: s individuals, each drawn by selection without
   replacement from 0..n-1, so each is the decoding of its draws and a
   permutation of [0, n). Negative counts behave as zero.
   */
  method InitPop(s: int, n: int, draws: seq<seq<int>>) returns (pop: seq<Chromosome>)
    requires InitDrawsFit(s, n, draws)
    ensures |pop| == Clamp(s)
    ensures forall i :: 0 <= i < |pop| ==> pop[i] == DecodeTour(draws[i][..Clamp(n)])
    ensures forall i :: 0 <= i < |pop| ==> IsPermutation(pop[i], Clamp(n))
  {
    var m := Clamp(n);
    pop := [];
    var i := 0;
    while i < Clamp(s)
      invariant 0 <= i <= Clamp(s) && |pop| == i
      invariant DecodesDraws(pop, draws, m)
    {
      var c, _ := DrawIndividual(draws[i][..m]);
      DecodesOneMore(pop, draws, m, c);
      pop := pop + [c];
      i := i + 1;
    }
    DecodedAreTours(s, n, draws, pop);
  }

  /** Individual k of `pop` is the decoding of the first m draws of individual k. */
  predicate DecodesDraws(pop: seq<Chromosome>, draws: seq<seq<int>>, m: nat) {
    |pop| <= |draws| &&
    forall k :: 0 <= k < |pop| ==>
      |draws[k]| >= m && PositionalBound(draws[k][..m]) && pop[k] == DecodeTour(draws[k][..m])
  }

  /** Appending the decoding of the next individual's draws keeps `DecodesDraws`. */
  lemma DecodesOneMore(pop: seq<Chromosome>, draws: seq<seq<int>>, m: nat, c: Chromosome)
    requires DecodesDraws(pop, draws, m) && |pop| < |draws|
    requires |draws[|pop|]| >= m && PositionalBound(draws[|pop|][..m]) && c == DecodeTour(draws[|pop|][..m])
    ensures DecodesDraws(pop + [c], draws, m)
  {
    assert forall k :: 0 <= k < |pop| ==> (pop + [c])[k] == pop[k];
  }

  /** Every individual decoded from positionally bounded draws is a tour. */
  lemma DecodedAreTours(s: int, n: int, draws: seq<seq<int>>, pop: seq<Chromosome>)
    requires InitDrawsFit(s, n, draws) && |pop| == Clamp(s)
    requires forall i :: 0 <= i < |pop| ==> pop[i] == DecodeTour(draws[i][..Clamp(n)])
    ensures forall i :: 0 <= i < |pop| ==> IsPermutation(pop[i], Clamp(n))
  {
    forall i | 0 <= i < |pop| ensures IsPermutation(pop[i], Clamp(n)) {
      DecodeIsTour(draws[i][..Clamp(n)]);
    }
  }

  /**
   The erase loop of OX's `swap_part`: for each value of the segment in
   turn, `erase(remove(...))` drops every occurrence of it from `p`.
   */
  function EraseEach(p: seq<int>, seg: seq<int>): (r: seq<int>)
    ensures r == Without(p, seg)
    decreases |seg|
  {
    if |seg| == 0 then WithoutNothing(p); p
    else
      WithoutWithout(p, [seg[0]], seg[1..]);
      assert [seg[0]] + seg[1..] == seg;
      EraseEach(Without(p, [seg[0]]), seg[1..])
  }

  /** What `swap_part` needs: the segment lies in `p1` and its insertion point in the rest of `p2`. */
  predicate SwapPartDefined(p1: Chromosome, p2: Chromosome, lo: int, hi: int) {
    0 <= lo <= hi <= |p1| && lo <= |Without(p2, p1[lo..hi])|
  }

  /**
   `swap_part(p1, p2)`: remove the values of p1[lo..hi) from p2, then insert
   that segment at position lo. The segment lands where it was in p1.
   */
  function SwapPart(p1: Chromosome, p2: Chromosome, lo: int, hi: int): (child: Chromosome)
    requires SwapPartDefined(p1, p2, lo, hi)
    ensures |child| == |Without(p2, p1[lo..hi])| + (hi - lo)
    ensures child[lo..hi] == p1[lo..hi]
    ensures child[..lo] + child[hi..] == Without(p2, p1[lo..hi])
  {
    var rest := EraseEach(p2, p1[lo..hi]);
    Splice(rest, p1[lo..hi], lo);
    rest[..lo] + p1[lo..hi] + rest[lo..]
  }

  /** Inserting `seg` at position lo of `rest` puts it at [lo, lo+|seg|) and leaves `rest` around it. */
  lemma Splice(rest: seq<int>, seg: seq<int>, lo: int)
    requires 0 <= lo <= |rest|
    ensures var c := rest[..lo] + seg + rest[lo..];
      |c| == |rest| + |seg| && c[lo..lo + |seg|] == seg && c[..lo] + c[lo + |seg|..] == rest
  {
    var c := rest[..lo] + seg + rest[lo..];
    assert c[..lo] == rest[..lo] && c[lo..lo + |seg|] == seg && c[lo + |seg|..] == rest[lo..];
    assert rest == rest[..lo] + rest[lo..];
  }

  /** Two chromosomes are permutations of the same repetition-free values. */
  predicate SameGenes(p1: Chromosome, p2: Chromosome) {
    Distinct(p1) && multiset(p1) == multiset(p2)
  }

  /** Equal multisets carry distinctness over. */
  lemma SameGenesDistinct(p1: Chromosome, p2: Chromosome)
    requires SameGenes(p1, p2)
    ensures Distinct(p2) && |p1| == |p2|
  {
    forall x ensures multiset(p2)[x] <= 1 {
      DistinctCount(p1, x);
    }
    CountDistinct(p2);
    assert |multiset(p1)| == |multiset(p2)|;
  }

  /**
   For parents holding the same values, `swap_part` is defined for any
   cuts 0 <= lo <= hi <= |p1| and yields a rearrangement of `p2`.
   */
  lemma SwapPartPermutes(p1: Chromosome, p2: Chromosome, lo: int, hi: int)
    requires SameGenes(p1, p2) && 0 <= lo <= hi <= |p1|
    ensures SwapPartDefined(p1, p2, lo, hi)
    ensures multiset(SwapPart(p1, p2, lo, hi)) == multiset(p2)
  {
    SameGenesDistinct(p1, p2);
    var seg := p1[lo..hi];
    SliceDistinct(p1, lo, hi);
    forall x | x in seg ensures x in p2 {
      assert x in multiset(p1);
    }
    WithoutRemovesExactly(p2, seg);
    var rest := Without(p2, seg);
    assert |multiset(rest)| + |multiset(seg)| == |multiset(p2)|;
    var child := SwapPart(p1, p2, lo, hi);
    ThreeParts(child, lo, hi);
  }

  /** A slice of a repetition-free sequence is repetition-free. */
  lemma SliceDistinct(p: seq<int>, lo: int, hi: int)
    requires Distinct(p) && 0 <= lo <= hi <= |p|
    ensures Distinct(p[lo..hi])
  {
    var seg := p[lo..hi];
    forall i, j | 0 <= i < j < |seg| ensures seg[i] != seg[j] {
      assert seg[i] == p[lo + i] && seg[j] == p[lo + j];
    }
  }

  /** The values of c are those of its middle [lo, hi) and of what is around it. */
  lemma ThreeParts(c: seq<int>, lo: int, hi: int)
    requires 0 <= lo <= hi <= |c|
    ensures multiset(c) == multiset(c[..lo] + c[hi..]) + multiset(c[lo..hi])
  {
    assert c == c[..lo] + c[lo..hi] + c[hi..];
  }

  /** The two uniform cut draws of OX, in draw order. */
  datatype CutDraw = CutDraw(first: int, second: int)

  function Lo(d: CutDraw): int {
    if d.second < d.first then d.second else d.first
  }

  function Hi(d: CutDraw): int {
    if d.second < d.first then d.first else d.second
  }

  /** The cut draws index `p1` and both `swap_part` calls are defined. */
  predicate OxDefined(p1: Chromosome, p2: Chromosome, d: CutDraw) {
    0 <= d.first < |p1| && 0 <= d.second < |p1| && Hi(d) <= |p2| &&
    SwapPartDefined(p1, p2, Lo(d), Hi(d)) && SwapPartDefined(p2, p1, Lo(d), Hi(d))
  }

  /**
   `corssover_ox`: order the cuts, then child 1 is `swap_part(p1, p2)` and
   child 2 is `swap_part(p2, p1)`. The probability argument is never read.
   */
  function Ox(p1: Chromosome, p2: Chromosome, d: CutDraw, pc: real): (r: (Chromosome, Chromosome))
    requires OxDefined(p1, p2, d)
    ensures 0 <= Lo(d) <= Hi(d) <= |r.0| && r.0[Lo(d)..Hi(d)] == p1[Lo(d)..Hi(d)]
    ensures 0 <= Lo(d) <= Hi(d) <= |r.1| && r.1[Lo(d)..Hi(d)] == p2[Lo(d)..Hi(d)]
    ensures r.0[..Lo(d)] + r.0[Hi(d)..] == Without(p2, p1[Lo(d)..Hi(d)])
    ensures r.1[..Lo(d)] + r.1[Hi(d)..] == Without(p1, p2[Lo(d)..Hi(d)])
  {
    (SwapPart(p1, p2, Lo(d), Hi(d)), SwapPart(p2, p1, Lo(d), Hi(d)))
  }

  /**
   For two permutations of [0, n) and cuts in [0, n), OX is defined and
   both children are permutations of [0, n) of length n.
   */
  lemma OxPermutes(p1: Chromosome, p2: Chromosome, n: nat, d: CutDraw, pc: real)
    requires IsPermutation(p1, n) && IsPermutation(p2, n)
    requires 0 <= d.first < n && 0 <= d.second < n
    ensures OxDefined(p1, p2, d)
    ensures IsPermutation(Ox(p1, p2, d, pc).0, n) && IsPermutation(Ox(p1, p2, d, pc).1, n)
  {
    PermutationFacts(p1, n);
    PermutationFacts(p2, n);
    SwapPartPermutes(p1, p2, Lo(d), Hi(d));
    SwapPartPermutes(p2, p1, Lo(d), Hi(d));
  }

  /** Equal cuts give the parents back, swapped. */
  lemma OxEqualCuts(p1: Chromosome, p2: Chromosome, d: CutDraw, pc: real)
    requires OxDefined(p1, p2, d) && d.first == d.second
    ensures Ox(p1, p2, d, pc) == (p2, p1)
  {
    WithoutNothing(p1);
    WithoutNothing(p2);
    var r := Ox(p1, p2, d, pc);
    assert r.0 == r.0[..Lo(d)] + r.0[Hi(d)..];
    assert r.1 == r.1[..Lo(d)] + r.1[Hi(d)..];
  }

  /** The crossover probability has no influence on the children. */
  lemma OxIgnoresProbability(p1: Chromosome, p2: Chromosome, d: CutDraw, pc: real, pc': real)
    requires OxDefined(p1, p2, d)
    ensures Ox(p1, p2, d, pc) == Ox(p1, p2, d, pc')
  {
  }

  /** The draws of one swap mutation: the gate, then the two positions. */
  datatype SwapDraw = SwapDraw(u: real, i: int, j: int)

  /** Both positions index a chromosome of length `len` whenever the gate opens. */
  predicate SwapDrawFits(len: int, pm: real, d: SwapDraw) {
    d.u < pm ==> 0 <= d.i < len && 0 <= d.j < len
  }

  /**
   `mutation_swap`: below `pm` the genes at the two drawn positions are
   exchanged; the multiset of genes, and so permutation-ness, is kept.
   */
  function MutationSwap(c: Chromosome, pm: real, d: SwapDraw): (r: Chromosome)
    requires SwapDrawFits(|c|, pm, d)
    ensures |r| == |c| && multiset(r) == multiset(c)
    ensures d.u >= pm ==> r == c
    ensures d.u < pm ==> r[d.i] == c[d.j] && r[d.j] == c[d.i]
    ensures forall k :: 0 <= k < |c| && k != d.i && k != d.j ==> r[k] == c[k]
  {
    if d.u < pm then c[d.i := c[d.j]][d.j := c[d.i]] else c
  }

  /**
   The chromosome tournament `select`: the first draw wins only when its
   fitness is strictly greater; it is the index tournament over the
   population's fitness vector.
   */
  function SelectChromosome(pop: seq<Chromosome>, fitness: Chromosome -> real, d: TournamentDraw): (r: Chromosome)
    requires TournamentDrawFits(|pop|, d)
    ensures r == pop[d.first] || r == pop[d.second]
    ensures fitness(r) >= fitness(pop[d.first]) && fitness(r) >= fitness(pop[d.second])
    ensures fitness(pop[d.first]) <= fitness(pop[d.second]) ==> r == pop[d.second]
    ensures r == pop[Tournament(FitnessVector(pop, fitness), d)]
  {
    var s1 := pop[d.first];
    var s2 := pop[d.second];
    if fitness(s1) > fitness(s2) then s1 else s2
  }
}
