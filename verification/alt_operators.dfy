/**
 Genetic operators on the alternative encoding: one- and two-point crossover,
 the descending single-gene mutation, and the factories that pick them by
 name. Every operator copies genes position by position, so the positional
 bound survives without any repair step.
 */
module AltOperators {
  import opened Encoding

  /** Each child's gene i is one of the parents' genes i, and together they are both. */
  predicate ExchangesGenes(a: seq<int>, b: seq<int>, c: seq<int>, d: seq<int>) {
    |a| == |b| == |c| == |d| &&
    forall i :: 0 <= i < |a| ==> multiset{c[i], d[i]} == multiset{a[i], b[i]}
  }

  /** Children built gene by gene from the parents' genes at the same index keep the bound. */
  lemma ExchangeKeepsBound(a: seq<int>, b: seq<int>, c: seq<int>, d: seq<int>)
    requires ExchangesGenes(a, b, c, d)
    requires PositionalBound(a) && PositionalBound(b)
    ensures PositionalBound(c) && PositionalBound(d)
  {
    forall i | 0 <= i < |c| ensures 0 <= c[i] < |c| - i && 0 <= d[i] < |d| - i {
      assert c[i] in multiset{a[i], b[i]};
      assert d[i] in multiset{a[i], b[i]};
    }
  }

  /** `crossover_one_point` at `cut`: the genes from `cut` on are exchanged. */
  function OnePoint(a: seq<int>, b: seq<int>, cut: int): (r: (seq<int>, seq<int>))
    requires |a| == |b| && 0 <= cut < |a|
    ensures |r.0| == |a| && |r.1| == |b|
    ensures forall i :: 0 <= i < cut ==> r.0[i] == a[i] && r.1[i] == b[i]
    ensures forall i :: cut <= i < |a| ==> r.0[i] == b[i] && r.1[i] == a[i]
    ensures ExchangesGenes(a, b, r.0, r.1)
  {
    (a[..cut] + b[cut..], b[..cut] + a[cut..])
  }

  /** Cutting at 0 exchanges the parents whole. */
  lemma OnePointAtStart(a: seq<int>, b: seq<int>)
    requires |a| == |b| > 0
    ensures OnePoint(a, b, 0) == (b, a)
  {
    var r := OnePoint(a, b, 0);
    assert r.0 == b && r.1 == a;
  }

  /**
   Cutting at the last gene exchanges only that gene, which the positional
   bound pins to 0: the children are the parents.
   */
  lemma OnePointAtLast(a: seq<int>, b: seq<int>)
    requires |a| == |b| > 0
    requires PositionalBound(a) && PositionalBound(b)
    ensures OnePoint(a, b, |a| - 1) == (a, b)
  {
    var n := |a| - 1;
    assert a[n] == 0 && b[n] == 0;
    assert a[n..] == [0] == b[n..];
    assert a == a[..n] + a[n..] && b == b[..n] + b[n..];
  }

  /** Crossing the children again at the same cut restores the parents. */
  lemma OnePointInvolution(a: seq<int>, b: seq<int>, cut: int)
    requires |a| == |b| && 0 <= cut < |a|
    ensures OnePoint(OnePoint(a, b, cut).0, OnePoint(a, b, cut).1, cut) == (a, b)
  {
    var r := OnePoint(a, b, cut);
    var s := OnePoint(r.0, r.1, cut);
    assert s.0 == a && s.1 == b;
  }

  /**
   `crossover_two_point` with cut draws `p` and `q`: after ordering them,
   exactly the genes in [min, max) are exchanged.
   */
  function TwoPoint(a: seq<int>, b: seq<int>, p: int, q: int): (r: (seq<int>, seq<int>))
    requires |a| == |b| && 0 <= p < |a| && 0 <= q < |a|
    ensures |r.0| == |a| && |r.1| == |b|
    ensures forall i :: 0 <= i < |a| && (i < p || i >= q) && (i < q || i >= p) ==>
      r.0[i] == a[i] && r.1[i] == b[i]
    ensures forall i :: 0 <= i < |a| && ((p <= i < q) || (q <= i < p)) ==>
      r.0[i] == b[i] && r.1[i] == a[i]
    ensures ExchangesGenes(a, b, r.0, r.1)
  {
    var lo := if p > q then q else p;
    var hi := if p > q then p else q;
    (a[..lo] + b[lo..hi] + a[hi..], b[..lo] + a[lo..hi] + b[hi..])
  }

  /** Equal cuts exchange nothing. */
  lemma TwoPointEqualCuts(a: seq<int>, b: seq<int>, p: int)
    requires |a| == |b| && 0 <= p < |a|
    ensures TwoPoint(a, b, p, p) == (a, b)
  {
    var r := TwoPoint(a, b, p, p);
    assert r.0 == a && r.1 == b;
  }

  /** The order in which the two cuts were drawn does not matter. */
  lemma TwoPointSymmetric(a: seq<int>, b: seq<int>, p: int, q: int)
    requires |a| == |b| && 0 <= p < |a| && 0 <= q < |a|
    ensures TwoPoint(a, b, p, q) == TwoPoint(a, b, q, p)
  {
    var r := TwoPoint(a, b, p, q);
    var s := TwoPoint(a, b, q, p);
    assert r.0 == s.0 && r.1 == s.1;
  }

  /**
   The descending mutation's change: gene `pos` (never the last one)
   takes a value within its positional bound.
   */
  function ChangeOneGene(a: seq<int>, pos: int, value: int): (r: seq<int>)
    requires |a| >= 2 && 0 <= pos <= |a| - 2 && 0 <= value <= |a| - 1 - pos
    ensures |r| == |a| && r[pos] == value
    ensures forall i :: 0 <= i < |a| && i != pos ==> r[i] == a[i]
    ensures PositionalBound(a) ==> PositionalBound(r)
  {
    a[pos := value]
  }

  /** The draws of one mutation: the gate, then the position and the new value. */
  datatype MutationDraw = MutationDraw(u: real, pos: int, value: int)

  /** The draws a mutation needs are in range whenever the gate opens. */
  predicate MutationDrawFits(a: seq<int>, pm: real, d: MutationDraw) {
    d.u < pm ==> |a| >= 2 && 0 <= d.pos <= |a| - 2 && 0 <= d.value <= |a| - 1 - d.pos
  }

  /** `mutation_change_one_city_descending`: changes one gene when the draw `u` is below `pm`. */
  function MutationDescending(a: seq<int>, pm: real, d: MutationDraw): (r: seq<int>)
    requires MutationDrawFits(a, pm, d)
    ensures d.u >= pm ==> r == a
    ensures d.u < pm ==> r == ChangeOneGene(a, d.pos, d.value) && r[d.pos] == d.value
    ensures |r| == |a|
    ensures forall i :: 0 <= i < |a| && i != d.pos ==> r[i] == a[i]
    ensures |a| > 0 ==> r[|a| - 1] == a[|a| - 1]
    ensures PositionalBound(a) ==> PositionalBound(r)
  {
    if d.u < pm then ChangeOneGene(a, d.pos, d.value) else a
  }

  /** The two crossover operators the factory knows. */
  datatype CrossoverKind = OnePointCrossover | TwoPointCrossover

  /** A crossover as the factory returns it: an operator behind a probability gate. */
  datatype Crossover = Crossover(kind: CrossoverKind, probability: real)

  /** The draws of one gated crossover: the gate, then one or two cuts. */
  datatype CrossoverDraw = CrossoverDraw(u: real, cut1: int, cut2: int)

  /** The mutation as the factory returns it. */
  datatype Mutation = ChangeOneCityDescending(probability: real)

  /**
   `crossover_factory`: the two known names select their operator, every
   other name falls back to one-point crossover with a warning.
   */
  function CrossoverFactory(name: string, pc: real): (r: (Crossover, bool))
    ensures r.0.probability == pc
    ensures r.0.kind == TwoPointCrossover <==> name == "crossover_two_point"
    ensures r.1 <==> name != "crossover_one_point" && name != "crossover_two_point"
  {
    if name == "crossover_one_point" then (Crossover(OnePointCrossover, pc), false)
    else if name == "crossover_two_point" then (Crossover(TwoPointCrossover, pc), false)
    else (Crossover(OnePointCrossover, pc), true)
  }

  /** `mutation_factory`: always the descending mutation, with a warning for any other name. */
  function MutationFactory(name: string, pm: real): (r: (Mutation, bool))
    ensures r.0 == ChangeOneCityDescending(pm)
    ensures r.1 <==> name != "mutation_change_one_city_descending"
  {
    (ChangeOneCityDescending(pm), name != "mutation_change_one_city_descending")
  }

  /** The cuts a gated crossover needs are in range whenever the gate opens. */
  predicate CrossoverDrawFits(x: Crossover, a: seq<int>, d: CrossoverDraw) {
    d.u < x.probability ==>
      0 <= d.cut1 < |a| && (x.kind == TwoPointCrossover ==> 0 <= d.cut2 < |a|)
  }

  /**
   The crossover the factory returns: below the probability the chosen
   operator runs, otherwise the parents are returned as they are.
   */
  function ApplyCrossover(x: Crossover, a: seq<int>, b: seq<int>, d: CrossoverDraw): (r: (seq<int>, seq<int>))
    requires |a| == |b| && CrossoverDrawFits(x, a, d)
    ensures d.u >= x.probability ==> r == (a, b)
    ensures d.u < x.probability ==>
      r == if x.kind == OnePointCrossover then OnePoint(a, b, d.cut1) else TwoPoint(a, b, d.cut1, d.cut2)
    ensures ExchangesGenes(a, b, r.0, r.1)
    ensures PositionalBound(a) && PositionalBound(b) ==> PositionalBound(r.0) && PositionalBound(r.1)
  {
    var r := if d.u >= x.probability then (a, b)
      else if x.kind == OnePointCrossover then OnePoint(a, b, d.cut1)
      else TwoPoint(a, b, d.cut1, d.cut2);
    if PositionalBound(a) && PositionalBound(b) then
      ExchangeKeepsBound(a, b, r.0, r.1);
      r
    else r
  }

  /** The mutation the factory returns, applied to one individual. */
  function ApplyMutation(m: Mutation, a: seq<int>, d: MutationDraw): (r: seq<int>)
    requires MutationDrawFits(a, m.probability, d)
    ensures d.u >= m.probability ==> r == a
    ensures d.u < m.probability ==> r == ChangeOneGene(a, d.pos, d.value) && r[d.pos] == d.value
    ensures |r| == |a| && (PositionalBound(a) ==> PositionalBound(r))
  {
    MutationDescending(a, m.probability, d)
  }

  /** Writing the old value back at the drawn position undoes an applied mutation. */
  lemma MutationUndo(a: seq<int>, pm: real, d: MutationDraw)
    requires PositionalBound(a) && MutationDrawFits(a, pm, d) && d.u < pm
    ensures MutationDrawFits(MutationDescending(a, pm, d), pm, d.(value := a[d.pos]))
    ensures MutationDescending(MutationDescending(a, pm, d), pm, d.(value := a[d.pos])) == a
  {
    var r := MutationDescending(a, pm, d);
    var s := MutationDescending(r, pm, d.(value := a[d.pos]));
    assert forall i :: 0 <= i < |a| ==> s[i] == a[i];
  }

  /** Crossing the children again with the same draws restores the parents, whichever operator ran. */
  lemma ApplyCrossoverInvolution(x: Crossover, a: seq<int>, b: seq<int>, d: CrossoverDraw)
    requires |a| == |b| && CrossoverDrawFits(x, a, d)
    ensures ApplyCrossover(x, ApplyCrossover(x, a, b, d).0, ApplyCrossover(x, a, b, d).1, d) == (a, b)
  {
    var r := ApplyCrossover(x, a, b, d);
    if d.u < x.probability {
      if x.kind == OnePointCrossover {
        OnePointInvolution(a, b, d.cut1);
      } else {
        var s := TwoPoint(r.0, r.1, d.cut1, d.cut2);
        assert s.0 == a && s.1 == b;
      }
    }
  }
}
