/**
 The local searches of the older driver on the alternative encoding: the
 2(n-1) neighbours of a solution, the element-wise comparison used by the
 tabu list, deterministic and randomized hill climbing, tabu search, and the
 brute force walk over all solutions. The goal is the goal of the decoded
 solution, given as a function of the genes.
 */
module LocalSearch {
  import opened Seqs
  import opened Errors
  import opened Encoding

  /**
   One step of gene j around its cycle [0, |s|-j): up is `(v+1) mod m`, down
   is `(v-1+m) mod m`, with m = |s|-j. Every other gene is kept.
   */
  function Move(s: seq<int>, j: nat, up: bool): (t: seq<int>)
    requires j < |s|
    ensures |t| == |s| && forall i :: 0 <= i < |s| && i != j ==> t[i] == s[i]
    ensures 0 <= s[j] < |s| - j ==>
      t[j] == if up then (if s[j] == |s| - j - 1 then 0 else s[j] + 1)
              else (if s[j] == 0 then |s| - j - 1 else s[j] - 1)
    ensures PositionalBound(s) ==> PositionalBound(t)
  {
    var m := |s| - j;
    CycleSteps(s[j], m);
    s[j := if up then (s[j] + 1) % m else (s[j] - 1 + m) % m]
  }

  /** The two modular steps on [0, m), case by case. */
  lemma CycleSteps(v: int, m: int)
    requires m > 0
    ensures 0 <= (v + 1) % m < m && 0 <= (v - 1 + m) % m < m
    ensures 0 <= v < m ==> (v + 1) % m == (if v == m - 1 then 0 else v + 1)
    ensures 0 <= v < m ==> (v - 1 + m) % m == (if v == 0 then m - 1 else v - 1)
  {
    if 0 <= v < m {
      if v == m - 1 { ModAbove(v + 1, m); } else { ModSmall(v + 1, m); }
      if v == 0 { ModSmall(v - 1 + m, m); } else { ModAbove(v - 1 + m, m); }
    }
  }

  lemma ModSmall(x: int, m: int)
    requires 0 <= x < m
    ensures x % m == x
  {
  }

  lemma ModAbove(x: int, m: int)
    requires m <= x < 2 * m
    ensures x % m == x - m
  {
    assert x == 1 * m + (x - m);
  }

  /** Stepping a gene down undoes stepping it up, and the reverse. */
  lemma MoveBack(s: seq<int>, j: nat, up: bool)
    requires j < |s| && 0 <= s[j] < |s| - j
    ensures Move(Move(s, j, up), j, !up) == s
  {
    var t := Move(Move(s, j, up), j, !up);
    assert t[j] == s[j];
  }

  /** On any gene but the last (m >= 2), either step changes the solution. */
  lemma MoveChanges(s: seq<int>, j: nat, up: bool)
    requires j < |s| - 1 && 0 <= s[j] < |s| - j
    ensures Move(s, j, up) != s
  {
    assert Move(s, j, up)[j] != s[j];
  }

  /** t is one step of some gene but the last away from s. */
  predicate NeighbourOf(s: seq<int>, t: seq<int>) {
    exists j, up :: 0 <= j < |s| - 1 && t == Move(s, j, up)
  }

  /**
   `generate_neighbours` from gene i on: for each gene j = i .. |s|-2 the up
   step, then the down step.
   */
  function NeighboursFrom(s: seq<int>, i: nat): (ns: seq<seq<int>>)
    decreases |s| - i
    ensures |ns| == if i < |s| - 1 then 2 * (|s| - 1 - i) else 0
    ensures forall k :: 0 <= k < |ns| ==> NeighbourOf(s, ns[k])
  {
    if i + 1 >= |s| then []
    else [Move(s, i, true), Move(s, i, false)] + NeighboursFrom(s, i + 1)
  }

  /**
   `generate_neighbours`: 2(|s|-1) solutions, the up and down steps of gene
   0, then of gene 1, and so on up to gene |s|-2.
   */
  function Neighbours(s: seq<int>): (ns: seq<seq<int>>)
    requires |s| >= 1
    ensures |ns| == 2 * (|s| - 1)
    ensures forall k :: 0 <= k < |ns| ==> NeighbourOf(s, ns[k])
  {
    NeighboursFrom(s, 0)
  }

  /** Neighbour 2j is the up step of gene j and neighbour 2j+1 its down step. */
  lemma {:induction false} NeighboursFromOrder(s: seq<int>, i: nat)
    decreases |s| - i
    ensures forall j :: i <= j < |s| - 1 ==>
      NeighboursFrom(s, i)[2 * (j - i)] == Move(s, j, true) &&
      NeighboursFrom(s, i)[2 * (j - i) + 1] == Move(s, j, false)
  {
    if i + 1 < |s| {
      NeighboursFromOrder(s, i + 1);
      var rest := NeighboursFrom(s, i + 1);
      var ns := NeighboursFrom(s, i);
      assert ns == [Move(s, i, true), Move(s, i, false)] + rest;
      forall j | i < j < |s| - 1 ensures ns[2 * (j - i)] == Move(s, j, true) && ns[2 * (j - i) + 1] == Move(s, j, false) {
        var k := 2 * (j - (i + 1));
        assert 2 * (j - i) == k + 2;
        assert ns[k + 2] == rest[k] && ns[k + 3] == rest[k + 1];
      }
    }
  }

  /** A neighbour of a bounded solution is bounded and differs from it. */
  lemma NeighbourFacts(s: seq<int>, t: seq<int>)
    requires NeighbourOf(s, t) && PositionalBound(s)
    ensures |t| == |s| && PositionalBound(t) && t != s
  {
    var j, up :| 0 <= j < |s| - 1 && t == Move(s, j, up);
    MoveChanges(s, j, up);
  }

  /** Every neighbour of a bounded solution is bounded and differs from it. */
  lemma NeighboursFacts(s: seq<int>)
    requires |s| >= 1 && PositionalBound(s)
    ensures forall k :: 0 <= k < |Neighbours(s)| ==>
      |Neighbours(s)[k]| == |s| && PositionalBound(Neighbours(s)[k]) && Neighbours(s)[k] != s
  {
    var ns := Neighbours(s);
    forall k | 0 <= k < |ns| ensures |ns[k]| == |s| && PositionalBound(ns[k]) && ns[k] != s {
      NeighbourFacts(s, ns[k]);
    }
  }

  /**
   `operator==` from index i: genes are compared while i < |a|, and b's gene
   is read with `.at`, which throws once b runs out first.
   */
  function EqualsFrom(a: seq<int>, b: seq<int>, i: nat): (r: Result<bool>)
    requires i <= |a| && i <= |b|
    decreases |a| - i
    ensures r == Ok(true) <==> |a| <= |b| && a[i..] == b[i..|a|]
    ensures r == Throws(OutOfRange) <==> |b| < |a| && a[i..|b|] == b[i..]
    ensures r == Ok(true) || r == Ok(false) || r == Throws(OutOfRange)
  {
    if i == |a| then Ok(true)
    else if i >= |b| then Throws(OutOfRange)
    else if a[i] != b[i] then Ok(false)
    else EqualsFrom(a, b, i + 1)
  }

  /**
   `operator==` on two alternative solutions: true when a is a prefix of b,
   false at the first differing gene, and out_of_range when b is a proper
   prefix of a.
   */
  function AltEquals(a: seq<int>, b: seq<int>): (r: Result<bool>)
    ensures r == Ok(true) <==> |a| <= |b| && a == b[..|a|]
    ensures r == Throws(OutOfRange) <==> |b| < |a| && a[..|b|] == b
    ensures r == Ok(true) || r == Ok(false) || r == Throws(OutOfRange)
  {
    assert a[0..] == a && b[0..] == b;
    EqualsFrom(a, b, 0)
  }

  /** On solutions of one length the comparison never throws and is equality. */
  lemma AltEqualsSameLength(a: seq<int>, b: seq<int>)
    requires |a| == |b|
    ensures AltEquals(a, b) == Ok(a == b)
  {
    assert b[..|a|] == b;
  }

  /**
   The tabu filter: a neighbour is dropped when some entry compares equal to
   it. With all entries of the neighbour's length that is membership.
   */
  lemma TabuMatchIsMembership(tabu: seq<seq<int>>, t: seq<int>)
    requires forall k :: 0 <= k < |tabu| ==> |tabu[k]| == |t|
    ensures (exists k :: 0 <= k < |tabu| && AltEquals(tabu[k], t) == Ok(true)) <==> t in tabu
  {
    forall k | 0 <= k < |tabu| ensures AltEquals(tabu[k], t) == Ok(tabu[k] == t) {
      AltEqualsSameLength(tabu[k], t);
    }
  }

  /**
   The scan for the best neighbour, from `cur` over `ns` front to back,
   replacing only on a strictly smaller goal.
   */
  function Scan(ns: seq<seq<int>>, cur: seq<int>, goal: seq<int> -> real): (r: seq<int>)
    ensures r == cur || r in ns
    ensures goal(r) <= goal(cur) && forall k :: 0 <= k < |ns| ==> goal(r) <= goal(ns[k])
    ensures r == cur || exists j :: 0 <= j < |ns| && r == ns[j] && goal(r) < goal(cur) &&
                                    forall k :: 0 <= k < j ==> goal(r) < goal(ns[k])
  {
    if ns == [] then cur
    else
      var next := if goal(ns[0]) < goal(cur) then ns[0] else cur;
      var r := Scan(ns[1..], next, goal);
      ScanStep(ns, cur, next, r, goal);
      r
  }

  /** The scan's contract for `ns` from its contract for the tail, started at `next`. */
  lemma ScanStep(ns: seq<seq<int>>, cur: seq<int>, next: seq<int>, r: seq<int>, goal: seq<int> -> real)
    requires |ns| > 0 && next == if goal(ns[0]) < goal(cur) then ns[0] else cur
    requires r == next || r in ns[1..]
    requires goal(r) <= goal(next) && forall k :: 0 <= k < |ns| - 1 ==> goal(r) <= goal(ns[1..][k])
    requires r == next || exists j :: 0 <= j < |ns| - 1 && r == ns[1..][j] && goal(r) < goal(next) &&
                                      forall k :: 0 <= k < j ==> goal(r) < goal(ns[1..][k])
    ensures r == cur || r in ns
    ensures goal(r) <= goal(cur) && forall k :: 0 <= k < |ns| ==> goal(r) <= goal(ns[k])
    ensures r == cur || exists j :: 0 <= j < |ns| && r == ns[j] && goal(r) < goal(cur) &&
                                    forall k :: 0 <= k < j ==> goal(r) < goal(ns[k])
  {
    forall k | 1 <= k < |ns| ensures ns[k] == ns[1..][k - 1] { }
    if r != cur {
      if r == next {
        assert r == ns[0] && goal(r) < goal(cur);
      } else {
        var j :| 0 <= j < |ns| - 1 && r == ns[1..][j] && goal(r) < goal(next) &&
                 forall k :: 0 <= k < j ==> goal(r) < goal(ns[1..][k]);
        assert r == ns[j + 1];
        assert forall k :: 0 <= k < j + 1 ==> goal(r) < goal(ns[k]);
      }
    }
  }

  /**
   The best neighbour: the scan starts from the last neighbour, so the last
   one wins when it ties the least goal; otherwise the first with the least
   goal wins.
   */
  function BestNeighbour(ns: seq<seq<int>>, goal: seq<int> -> real): (r: seq<int>)
    requires |ns| > 0
    ensures r in ns && forall k :: 0 <= k < |ns| ==> goal(r) <= goal(ns[k])
    ensures goal(ns[|ns| - 1]) == goal(r) ==> r == ns[|ns| - 1]
    ensures r != ns[|ns| - 1] ==>
      exists j :: 0 <= j < |ns| && r == ns[j] && forall k :: 0 <= k < j ==> goal(r) < goal(ns[k])
  {
    Scan(ns, ns[|ns| - 1], goal)
  }

  /** No neighbour of s has a smaller goal: s is a local minimum. */
  predicate LocalMinimum(s: seq<int>, goal: seq<int> -> real)
    requires |s| >= 1
  {
    forall k :: 0 <= k < |Neighbours(s)| ==> goal(s) <= goal(Neighbours(s)[k])
  }

  /**
   Each step of the trace moves to the best neighbour of the current
   solution, and that neighbour is strictly better.
   */
  predicate Descent(trace: seq<seq<int>>, goal: seq<int> -> real) {
    forall i :: 0 <= i < |trace| - 1 ==>
      |trace[i]| >= 2 && trace[i + 1] == BestNeighbour(Neighbours(trace[i]), goal) && goal(trace[i + 1]) < goal(trace[i])
  }

  /**
   `hillclimb_deteriministic`: move to the best neighbour while it is
   strictly better, for at most `iterations` steps. `trace` is the solution
   after each step taken, starting from `start`; stopping early means a
   local minimum was reached.
   */
  method HillclimbDeterministic(start: seq<int>, goal: seq<int> -> real, iterations: int)
    returns (solution: seq<int>, steps: nat, trace: seq<seq<int>>)
    requires |start| >= 2 && PositionalBound(start)
    ensures |solution| == |start| && PositionalBound(solution)
    ensures steps <= if iterations < 0 then 0 else iterations
    ensures |trace| == steps + 1 && trace[0] == start && solution == trace[steps]
    ensures Descent(trace, goal)
    ensures goal(solution) <= goal(start) && (steps > 0 ==> goal(solution) < goal(start))
    ensures steps < iterations ==> LocalMinimum(solution, goal)
  {
    solution, steps, trace := start, 0, [start];
    while steps < iterations
      invariant |solution| == |start| && PositionalBound(solution)
      invariant steps <= if iterations < 0 then 0 else iterations
      invariant |trace| == steps + 1 && trace[0] == start && solution == trace[steps]
      invariant Descent(trace, goal)
      invariant goal(solution) <= goal(start) && (steps > 0 ==> goal(solution) < goal(start))
      decreases iterations - steps
    {
      var ns := Neighbours(solution);
      NeighboursFacts(solution);
      var best := BestNeighbour(ns, goal);
      if goal(best) < goal(solution) {
        DescentStep(trace, best, goal);
        solution, trace := best, trace + [best];
        steps := steps + 1;
      } else {
        return;
      }
    }
  }

  /** Along a descent the goal strictly decreases, so no solution is visited twice. */
  lemma {:induction false} DescentStrict(trace: seq<seq<int>>, goal: seq<int> -> real, i: nat, j: nat)
    requires Descent(trace, goal) && i < j < |trace|
    decreases j - i
    ensures goal(trace[j]) < goal(trace[i]) && trace[j] != trace[i]
  {
    if i + 1 < j {
      DescentStrict(trace, goal, i + 1, j);
    }
  }

  /** Moving to the strictly better best neighbour of the last solution extends a descent. */
  lemma DescentStep(trace: seq<seq<int>>, next: seq<int>, goal: seq<int> -> real)
    requires |trace| > 0 && |trace[|trace| - 1]| >= 2 && Descent(trace, goal)
    requires next == BestNeighbour(Neighbours(trace[|trace| - 1]), goal) && goal(next) < goal(trace[|trace| - 1])
    ensures Descent(trace + [next], goal)
  {
    var t := trace + [next];
    forall i | 0 <= i < |t| - 1
      ensures |t[i]| >= 2 && t[i + 1] == BestNeighbour(Neighbours(t[i]), goal) && goal(t[i + 1]) < goal(t[i])
    {
      assert t[i] == trace[i];
      if i < |trace| - 1 {
        assert t[i + 1] == trace[i + 1];
      } else {
        assert t[i + 1] == next;
      }
    }
  }

  /**
   `hillclimb`: `iterations` random neighbours are proposed, the i-th drawn
   from the current solution and draw i; one is taken only when strictly
   better. `trace` is the current solution before each iteration and after
   the last; the goal never increases along it, and the result is no worse
   than the start and than every proposal.
   */
  method Hillclimb(start: seq<int>, goal: seq<int> -> real, neighbour: (seq<int>, int) -> seq<int>,
                   iterations: int, draws: seq<int>)
    returns (solution: seq<int>, trace: seq<seq<int>>)
    requires iterations <= |draws|
    ensures |trace| == (if iterations < 0 then 0 else iterations) + 1
    ensures trace[0] == start && solution == trace[|trace| - 1]
    ensures Climb(trace, goal, neighbour, draws) && Improving(trace, goal)
    ensures NoWorse(solution, trace, goal, neighbour, draws)
  {
    solution, trace := start, [start];
    var iteration := 0;
    while iteration < iterations
      invariant |trace| == iteration + 1 && iteration <= |draws|
      invariant iteration <= if iterations < 0 then 0 else iterations
      invariant trace[0] == start && solution == trace[iteration]
      invariant Climb(trace, goal, neighbour, draws) && NoWorse(solution, trace, goal, neighbour, draws)
      decreases iterations - iteration
    {
      var proposal := neighbour(solution, draws[iteration]);
      var next := if goal(proposal) < goal(solution) then proposal else solution;
      ClimbStep(trace, next, goal, neighbour, draws);
      solution, trace := next, trace + [next];
      iteration := iteration + 1;
    }
  }

  /**
   Each step of the trace takes the proposal drawn from the current
   solution exactly when that is strictly better, and stays put otherwise.
   */
  predicate Climb(trace: seq<seq<int>>, goal: seq<int> -> real, neighbour: (seq<int>, int) -> seq<int>,
                  draws: seq<int>)
  {
    |trace| <= |draws| + 1 &&
    forall i :: 0 <= i < |trace| - 1 ==>
      trace[i + 1] == if goal(neighbour(trace[i], draws[i])) < goal(trace[i]) then neighbour(trace[i], draws[i]) else trace[i]
  }

  /** `s` is no worse than any solution on the trace or any proposal made along it. */
  predicate NoWorse(s: seq<int>, trace: seq<seq<int>>, goal: seq<int> -> real,
                    neighbour: (seq<int>, int) -> seq<int>, draws: seq<int>)
  {
    |trace| <= |draws| + 1 &&
    (forall i :: 0 <= i < |trace| ==> goal(s) <= goal(trace[i])) &&
    forall i :: 0 <= i < |trace| - 1 ==> goal(s) <= goal(neighbour(trace[i], draws[i]))
  }

  /** One iteration of `hillclimb` extends the trace and keeps both facts. */
  lemma ClimbStep(trace: seq<seq<int>>, next: seq<int>, goal: seq<int> -> real,
                  neighbour: (seq<int>, int) -> seq<int>, draws: seq<int>)
    requires 0 < |trace| <= |draws|
    requires Climb(trace, goal, neighbour, draws) && NoWorse(trace[|trace| - 1], trace, goal, neighbour, draws)
    requires var last := trace[|trace| - 1]; var proposal := neighbour(last, draws[|trace| - 1]);
      next == if goal(proposal) < goal(last) then proposal else last
    ensures Climb(trace + [next], goal, neighbour, draws) && Improving(trace + [next], goal)
    ensures NoWorse(next, trace + [next], goal, neighbour, draws)
  {
    var t := trace + [next];
    assert forall i :: 0 <= i < |trace| ==> t[i] == trace[i];
  }

  /** Each step of a trace stays put or strictly improves. */
  predicate Improving(trace: seq<seq<int>>, goal: seq<int> -> real) {
    forall i :: 0 <= i < |trace| - 1 ==> trace[i + 1] == trace[i] || goal(trace[i + 1]) < goal(trace[i])
  }

  /** Along an improving trace the goal never increases. */
  lemma {:induction false} ImprovingMonotone(trace: seq<seq<int>>, goal: seq<int> -> real, i: nat, j: nat)
    requires Improving(trace, goal) && i <= j < |trace|
    decreases j - i
    ensures goal(trace[j]) <= goal(trace[i])
  {
    if i < j {
      ImprovingMonotone(trace, goal, i + 1, j);
    }
  }

  /** Every tabu entry is a bounded solution of length n. */
  predicate Entries(tabu: seq<seq<int>>, n: nat) {
    forall k :: 0 <= k < |tabu| ==> |tabu[k]| == n && PositionalBound(tabu[k])
  }

  /**
   The most entries the tabu list holds after an iteration when
   `max_tabu_size` is non-negative: `max_tabu_size - 1`, and never fewer
   than the one entry the search starts with.
   */
  function TabuCapacity(maxTabu: int): (c: nat)
    ensures c >= 1 && (maxTabu >= 2 ==> c == maxTabu - 1)
  {
    if maxTabu >= 2 then maxTabu - 1 else 1
  }

  /**
   The eviction test `tabu_list.size() >= max_tabu_size` compares a size_t
   with an int: a negative bound converts to the largest size_t, which no
   list reaches, so a negative bound never evicts.
   */
  predicate Evicts(size: nat, maxTabu: int) {
    maxTabu >= 0 && size >= maxTabu
  }

  /**
   A tabu list: at least one entry, pairwise distinct, each a bounded
   solution of the same non-zero length.
   */
  predicate TabuList(tabu: seq<seq<int>>) {
    |tabu| >= 1 && |tabu[0]| >= 1 && Distinct(tabu) && Entries(tabu, |tabu[0]|)
  }

  /** The candidates of an iteration: the newest entry's neighbours that are not in the list. */
  function Candidates(tabu: seq<seq<int>>): seq<seq<int>>
    requires TabuList(tabu)
  {
    Without(Neighbours(tabu[|tabu| - 1]), tabu)
  }

  /** What one tabu iteration leaves: the list, the global best, what it pushed, and whether it stopped. */
  datatype TabuOutcome = TabuOutcome(tabu: seq<seq<int>>, best: seq<int>, pushed: seq<seq<int>>, stop: bool)

  /**
   One tabu iteration. With no candidate the oldest entry is dropped, or
   the search stops when it is the only one. Otherwise the best candidate
   is pushed, becomes the global best if strictly better, and the oldest
   entry is evicted once the list has reached `maxTabu`. TabuStepOutcome
   states what it leaves.
   */
  function TabuStep(tabu: seq<seq<int>>, best: seq<int>, goal: seq<int> -> real, maxTabu: int): (r: TabuOutcome)
    requires TabuList(tabu)
    ensures TabuList(r.tabu) && Entries(r.tabu, |tabu[0]|)
  {
    var last := tabu[|tabu| - 1];
    var candidates := Candidates(tabu);
    if |candidates| == 0 then
      if |tabu| > 1 then
        DropOldest(tabu, |tabu[0]|);
        TabuOutcome(tabu[1..], best, [], false)
      else
        TabuOutcome(tabu, best, [], true)
    else
      var candidate := BestNeighbour(candidates, goal);
      Candidate(last, tabu, candidate);
      PushNewest(tabu, candidate, |tabu[0]|);
      var best' := if goal(candidate) < goal(best) then candidate else best;
      if Evicts(|tabu| + 1, maxTabu) then
        DropOldest(tabu + [candidate], |tabu[0]|);
        TabuOutcome((tabu + [candidate])[1..], best', [candidate], false)
      else
        TabuOutcome(tabu + [candidate], best', [candidate], false)
  }

  /**
   What a tabu iteration leaves. It stops exactly when the list has one
   entry and no candidate, and then changes nothing. Without a candidate
   it otherwise drops the oldest entry. With one it pushes the best
   candidate, a non-tabu neighbour of the newest entry, evicts the oldest
   entry first-in first-out when the list has reached `maxTabu`, and takes
   the pushed solution as global best only when strictly better.
   */
  lemma TabuStepOutcome(tabu: seq<seq<int>>, best: seq<int>, goal: seq<int> -> real, maxTabu: int)
    requires TabuList(tabu)
    ensures var r := TabuStep(tabu, best, goal, maxTabu);
      && (r.stop <==> |tabu| == 1 && Candidates(tabu) == [])
      && (r.stop ==> r.tabu == tabu)
      && (r.pushed == [] <==> Candidates(tabu) == [])
      && (r.pushed == [] ==> r.best == best && (r.stop || r.tabu == tabu[1..]))
      && (r.pushed != [] ==> r.pushed == [BestNeighbour(Candidates(tabu), goal)])
      && (r.pushed != [] ==>
            r.tabu == (if Evicts(|tabu| + 1, maxTabu) then (tabu + r.pushed)[1..] else tabu + r.pushed))
      && (r.pushed != [] ==> r.best == (if goal(r.pushed[0]) < goal(best) then r.pushed[0] else best))
      && (forall k :: 0 <= k < |r.pushed| ==>
            r.pushed[k] !in tabu && NeighbourOf(tabu[|tabu| - 1], r.pushed[k]) && |r.pushed[k]| == |tabu[0]| &&
            PositionalBound(r.pushed[k]) && goal(r.best) <= goal(r.pushed[k]))
      && goal(r.best) <= goal(best)
      && (maxTabu >= 0 && |tabu| <= TabuCapacity(maxTabu) ==> |r.tabu| <= TabuCapacity(maxTabu))
      && |r.tabu| <= |tabu| + 1
  {
    var candidates := Candidates(tabu);
    if |candidates| > 0 {
      Candidate(tabu[|tabu| - 1], tabu, BestNeighbour(candidates, goal));
    }
  }

  /** A candidate is a bounded neighbour of the newest entry that is not in the list. */
  lemma Candidate(last: seq<int>, tabu: seq<seq<int>>, c: seq<int>)
    requires |last| >= 1 && PositionalBound(last) && c in Without(Neighbours(last), tabu)
    ensures c !in tabu && NeighbourOf(last, c) && |c| == |last| && PositionalBound(c)
  {
    var k :| 0 <= k < |Without(Neighbours(last), tabu)| && Without(Neighbours(last), tabu)[k] == c;
    NeighbourFacts(last, c);
  }

  /** Pushing a solution not in the list keeps the entries distinct. */
  lemma PushNewest(tabu: seq<seq<int>>, c: seq<int>, n: nat)
    requires Distinct(tabu) && Entries(tabu, n) && c !in tabu && |c| == n && PositionalBound(c)
    ensures Distinct(tabu + [c]) && Entries(tabu + [c], n)
  {
  }

  /** Dropping the oldest entry keeps the rest distinct. */
  lemma DropOldest(tabu: seq<seq<int>>, n: nat)
    requires |tabu| >= 1 && Distinct(tabu) && Entries(tabu, n)
    ensures Distinct(tabu[1..]) && Entries(tabu[1..], n)
  {
  }

  /** Everything pushed along a sequence of iterations, in order. */
  function Pushes(states: seq<TabuOutcome>): seq<seq<int>> {
    if |states| == 0 then [] else Pushes(states[..|states| - 1]) + states[|states| - 1].pushed
  }

  /** State i+1 is the tabu iteration applied to state i, and it did not stop. */
  predicate TabuLink(states: seq<TabuOutcome>, i: int, goal: seq<int> -> real, maxTabu: int)
    requires 0 <= i < |states| - 1 && TabuList(states[i].tabu)
  {
    states[i + 1] == TabuStep(states[i].tabu, states[i].best, goal, maxTabu) && !states[i + 1].stop
  }

  /** Every state holds a tabu list of solutions of length n, and each follows from the one before. */
  predicate TabuTrace(states: seq<TabuOutcome>, n: nat, goal: seq<int> -> real, maxTabu: int) {
    (forall i :: 0 <= i < |states| ==> TabuList(states[i].tabu) && Entries(states[i].tabu, n)) &&
    forall i :: 0 <= i < |states| - 1 ==> TabuLink(states, i, goal, maxTabu)
  }

  /**
   The search so far: the trace starts from the list holding only the
   start, `visited` is everything pushed along it, and the newest list is
   no longer than `visited` and, for a non-negative `maxTabu`, within
   TabuCapacity.
   */
  predicate Searched(start: seq<int>, goal: seq<int> -> real, maxTabu: int,
                     states: seq<TabuOutcome>, visited: seq<seq<int>>)
  {
    |start| >= 1 && |states| >= 1 && states[0] == TabuOutcome([start], start, [start], false) &&
    TabuTrace(states, |start|, goal, maxTabu) &&
    |visited| >= 1 && visited == Pushes(states) && visited[0] == start && Entries(visited, |start|) &&
    |states[|states| - 1].tabu| <= |visited| &&
    (maxTabu >= 0 ==> |states[|states| - 1].tabu| <= TabuCapacity(maxTabu))
  }

  /**
   `tabusearch` for `iterations` iterations from `start`. `states[0]` is
   the list holding only the start, pushed as the first global best, and
   every later state is the tabu iteration applied to the one before.
   `visited` is everything pushed, the start first, and the result is the
   first of them with the least goal. A non-negative `maxTabu` bounds the
   list by TabuCapacity; a negative one never evicts. A one-gene start has
   no neighbour, so the first iteration takes the early return with the
   start as result.
   */
  method TabuSearch(start: seq<int>, goal: seq<int> -> real, iterations: int, maxTabu: int)
    returns (result: seq<int>, rounds: nat, tabu: seq<seq<int>>, visited: seq<seq<int>>, ghost states: seq<TabuOutcome>)
    requires |start| >= 1 && PositionalBound(start)
    ensures rounds <= if iterations < 0 then 0 else iterations
    ensures |start| == 1 ==> rounds == 0 && result == start && tabu == [start] && visited == [start]
    ensures |states| == rounds + 1 && states[0] == TabuOutcome([start], start, [start], false)
    ensures TabuTrace(states, |start|, goal, maxTabu)
    ensures tabu == states[rounds].tabu && result == states[rounds].best
    ensures rounds < iterations ==> TabuStep(tabu, result, goal, maxTabu).stop
    ensures |visited| >= 1 && visited == Pushes(states) && visited[0] == start && Entries(visited, |start|)
    ensures Distinct(tabu) && Entries(tabu, |start|) && 1 <= |tabu| <= |visited|
    ensures maxTabu >= 0 ==> |tabu| <= TabuCapacity(maxTabu)
    ensures rounds < iterations ==> |tabu| == 1 && Candidates(tabu) == []
    ensures exists j :: 0 <= j < |visited| && result == visited[j] &&
                        forall k :: 0 <= k < j ==> goal(result) < goal(visited[k])
    ensures forall k :: 0 <= k < |visited| ==> goal(result) <= goal(visited[k])
  {
    tabu, result, visited, rounds := [start], start, [start], 0;
    states := [TabuOutcome([start], start, [start], false)];
    assert Pushes(states) == Pushes([]) + [start];
    ghost var j := 0;
    var stopped := false;
    while !stopped && rounds < iterations
      invariant rounds <= if iterations < 0 then 0 else iterations
      invariant |states| == rounds + 1 && Searched(start, goal, maxTabu, states, visited)
      invariant tabu == states[rounds].tabu && result == states[rounds].best
      invariant stopped ==> |tabu| == 1 && Candidates(tabu) == []
      invariant FirstLeastAt(result, visited, j, goal)
      invariant |start| == 1 ==> rounds == 0
      decreases iterations - rounds, if stopped then 0 else 1
    {
      var o;
      o, j := TabuRound(start, goal, maxTabu, tabu, result, visited, states, j);
      if |start| == 1 {
        TabuOneGene(start, goal, maxTabu);
      }
      if o.stop {
        stopped := true;
      } else {
        states := states + [o];
        visited := visited + o.pushed;
        tabu, result := o.tabu, o.best;
        rounds := rounds + 1;
      }
    }
    if rounds < iterations {
      TabuStops(tabu, result, goal, maxTabu);
    }
  }

  /** `result` is visited[j], strictly better than everything before it and no worse than anything. */
  predicate FirstLeastAt(result: seq<int>, visited: seq<seq<int>>, j: nat, goal: seq<int> -> real) {
    j < |visited| && result == visited[j] &&
    (forall k :: 0 <= k < j ==> goal(result) < goal(visited[k])) &&
    forall k :: 0 <= k < |visited| ==> goal(result) <= goal(visited[k])
  }

  /**
   One iteration of `tabusearch`'s loop: it stops on a single entry with no
   candidate, and otherwise extends the search by the iteration's outcome,
   whose global best is the first least-goal solution visited.
   */
  method TabuRound(start: seq<int>, goal: seq<int> -> real, maxTabu: int, tabu: seq<seq<int>>, result: seq<int>,
                   visited: seq<seq<int>>, ghost states: seq<TabuOutcome>, ghost j: nat)
    returns (o: TabuOutcome, ghost j': nat)
    requires Searched(start, goal, maxTabu, states, visited)
    requires tabu == states[|states| - 1].tabu && result == states[|states| - 1].best
    requires FirstLeastAt(result, visited, j, goal)
    ensures o == TabuStep(tabu, result, goal, maxTabu)
    ensures o.stop ==> |tabu| == 1 && Candidates(tabu) == [] && j' == j
    ensures !o.stop ==> o.tabu == (states + [o])[|states|].tabu && o.best == (states + [o])[|states|].best
    ensures !o.stop ==> Searched(start, goal, maxTabu, states + [o], visited + o.pushed)
    ensures !o.stop ==> FirstLeastAt(o.best, visited + o.pushed, j', goal)
  {
    o := TabuStep(tabu, result, goal, maxTabu);
    j' := j;
    if o.stop {
      TabuStops(tabu, result, goal, maxTabu);
    } else {
      j' := FirstLeastAdvance(tabu, result, visited, j, goal, maxTabu);
      SearchAdvance(start, goal, maxTabu, states, visited, o);
    }
  }

  /**
   If `result` is the first least-goal member of `visited`, the next global
   best is the first least-goal member of `visited` and what was pushed.
   */
  lemma FirstLeastAdvance(tabu: seq<seq<int>>, result: seq<int>, visited: seq<seq<int>>, j: nat,
                           goal: seq<int> -> real, maxTabu: int)
    returns (j': nat)
    requires TabuList(tabu) && FirstLeastAt(result, visited, j, goal)
    ensures FirstLeastAt(TabuStep(tabu, result, goal, maxTabu).best, visited + TabuStep(tabu, result, goal, maxTabu).pushed, j', goal)
  {
    var o := TabuStep(tabu, result, goal, maxTabu);
    TabuStepOutcome(tabu, result, goal, maxTabu);
    j' := if o.best != result then |visited| else j;
  }

  /** A tabu iteration stops exactly on a single entry with no candidate. */
  lemma TabuStops(tabu: seq<seq<int>>, best: seq<int>, goal: seq<int> -> real, maxTabu: int)
    requires TabuList(tabu)
    ensures TabuStep(tabu, best, goal, maxTabu).stop <==> |tabu| == 1 && Candidates(tabu) == []
  {
    TabuStepOutcome(tabu, best, goal, maxTabu);
  }

  /** One more iteration that does not stop keeps the search's facts. */
  lemma SearchAdvance(start: seq<int>, goal: seq<int> -> real, maxTabu: int,
                      states: seq<TabuOutcome>, visited: seq<seq<int>>, o: TabuOutcome)
    requires Searched(start, goal, maxTabu, states, visited)
    requires o == TabuStep(states[|states| - 1].tabu, states[|states| - 1].best, goal, maxTabu) && !o.stop
    ensures Searched(start, goal, maxTabu, states + [o], visited + o.pushed)
  {
    var last := states[|states| - 1];
    TabuStepOutcome(last.tabu, last.best, goal, maxTabu);
    TabuSearchStep(states, o, goal, maxTabu, |start|);
    assert (states + [o])[0] == states[0];
    var visited' := visited + o.pushed;
    assert |o.tabu| <= |visited'| by {
      if o.pushed == [] {
        assert |o.tabu| <= |last.tabu|;
      }
    }
    forall k | 0 <= k < |visited'| ensures |visited'[k]| == |start| && PositionalBound(visited'[k]) {
      if k >= |visited| {
        assert visited'[k] == o.pushed[k - |visited|];
      }
    }
  }

  /** Appending the next iteration's outcome extends the trace and its pushes. */
  lemma TabuSearchStep(states: seq<TabuOutcome>, o: TabuOutcome, goal: seq<int> -> real, maxTabu: int, n: nat)
    requires |states| >= 1 && TabuTrace(states, n, goal, maxTabu)
    requires o == TabuStep(states[|states| - 1].tabu, states[|states| - 1].best, goal, maxTabu) && !o.stop
    ensures TabuTrace(states + [o], n, goal, maxTabu)
    ensures Pushes(states + [o]) == Pushes(states) + o.pushed
  {
    var t := states + [o];
    assert t[..|states|] == states;
    TraceListsGrow(states, o, n);
    forall i | 0 <= i < |t| - 1 ensures TabuLink(t, i, goal, maxTabu) {
      TraceLinkGrows(states, o, i, goal, maxTabu);
    }
  }

  /** The lists of a trace extended by an outcome are all tabu lists of length-n solutions. */
  lemma TraceListsGrow(states: seq<TabuOutcome>, o: TabuOutcome, n: nat)
    requires forall i :: 0 <= i < |states| ==> TabuList(states[i].tabu) && Entries(states[i].tabu, n)
    requires TabuList(o.tabu) && Entries(o.tabu, n)
    ensures forall i :: 0 <= i < |states + [o]| ==> TabuList((states + [o])[i].tabu) && Entries((states + [o])[i].tabu, n)
  {
    var t := states + [o];
    forall i | 0 <= i < |t| ensures TabuList(t[i].tabu) && Entries(t[i].tabu, n) {
      if i < |states| {
        assert t[i] == states[i];
      }
    }
  }

  /** Link i of a trace extended by its next outcome is an old link or the new one. */
  lemma TraceLinkGrows(states: seq<TabuOutcome>, o: TabuOutcome, i: int, goal: seq<int> -> real, maxTabu: int)
    requires 0 <= i < |states| && TabuList(states[i].tabu) && TabuList(states[|states| - 1].tabu)
    requires i < |states| - 1 ==> TabuLink(states, i, goal, maxTabu)
    requires o == TabuStep(states[|states| - 1].tabu, states[|states| - 1].best, goal, maxTabu) && !o.stop
    ensures TabuLink(states + [o], i, goal, maxTabu)
  {
    var t := states + [o];
    assert t[i] == states[i];
    if i < |states| - 1 {
      assert t[i + 1] == states[i + 1];
    } else {
      assert t[i + 1] == o;
    }
  }

  /**
   From two genes on, the early return of `tabusearch` cannot happen: a
   lone entry is the source of the neighbours, none of which equals it.
   TabuOneGene is the one case where it does.
   */
  lemma TabuNeverStuck(s: seq<int>)
    requires |s| >= 2 && PositionalBound(s)
    ensures Without(Neighbours(s), [s]) != []
  {
    NeighboursFacts(s);
    var ns := Neighbours(s);
    assert ns[0] !in [s];
    assert ns[0] in Without(ns, [s]);
  }

  /**
   A one-gene solution has no neighbour, so the first tabu iteration from
   the list holding only it takes the early return and changes nothing.
   */
  lemma TabuOneGene(s: seq<int>, goal: seq<int> -> real, maxTabu: int)
    requires |s| == 1 && PositionalBound(s)
    ensures Neighbours(s) == [] && TabuList([s])
    ensures TabuStep([s], s, goal, maxTabu) == TabuOutcome([s], s, [], true)
  {
  }

  /** The solution reached from s after j calls of `next`. */
  function Iterate(next: seq<int> -> seq<int>, s: seq<int>, j: nat): seq<int> {
    if j == 0 then s else next(Iterate(next, s, j - 1))
  }

  /**
   `brute_force_find_solution`: step with `next` until the walk is back at
   the start, `period` steps later, keeping a solution only when strictly
   better. The result is the first solution of the cycle with the least goal.
   */
  method BruteForce(start: seq<int>, goal: seq<int> -> real, next: seq<int> -> seq<int>, ghost period: nat)
    returns (best: seq<int>)
    requires period >= 1 && Iterate(next, start, period) == start
    requires forall j :: 0 < j < period ==> Iterate(next, start, j) != start
    ensures forall j :: 0 <= j <= period ==> goal(best) <= goal(Iterate(next, start, j))
    ensures exists j :: 0 <= j < period && best == Iterate(next, start, j) &&
                        forall k :: 0 <= k < j ==> goal(best) < goal(Iterate(next, start, k))
  {
    var current := start;
    best := start;
    ghost var steps: nat := 0;
    ghost var at: nat := 0;
    var entered := false;
    while !entered || current != start
      invariant entered <==> steps > 0
      invariant steps <= period && current == Iterate(next, start, steps)
      invariant steps < period || current == start
      invariant 0 <= at < period && at <= steps && best == Iterate(next, start, at)
      invariant forall k :: 0 <= k < at ==> goal(best) < goal(Iterate(next, start, k))
      invariant forall k :: 0 <= k <= steps ==> goal(best) <= goal(Iterate(next, start, k))
      decreases period - steps
    {
      current := next(current);
      steps, entered := steps + 1, true;
      if goal(best) > goal(current) {
        best := current;
        at := steps;
      }
    }
  }
}
