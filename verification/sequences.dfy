/**
 Sequence vocabulary shared by every operator of the metaheuristics: index
 ranges, permutations, order-preserving removal, real sums, `max_element`,
 a sort by a real-valued key, and flattening of a population of demes.
 */
module Seqs {

  /** The integers 0, 1, ..., n-1 in increasing order. */
  function Range(n: nat): (r: seq<int>)
    ensures |r| == n
    ensures forall i :: 0 <= i < n ==> r[i] == i
  {
    seq(n, i => i)
  }

  /** No value occurs twice. */
  predicate Distinct<T(==)>(s: seq<T>) {
    forall i, j :: 0 <= i < j < |s| ==> s[i] != s[j]
  }

  /** `c` visits every index of [0, n) exactly once (a tour of n cities). */
  predicate IsPermutation(c: seq<int>, n: nat) {
    multiset(c) == multiset(Range(n))
  }

  /** In a sequence without repetitions every value occurs at most once. */
  lemma {:induction false} DistinctCount<T>(s: seq<T>, x: T)
    requires Distinct(s)
    ensures multiset(s)[x] == if x in s then 1 else 0
  {
    if |s| > 0 {
      var t := s[1..];
      assert s == [s[0]] + t;
      assert Distinct(t) by {
        forall i, j | 0 <= i < j < |t| ensures t[i] != t[j] {
          assert t[i] == s[i + 1] && t[j] == s[j + 1];
        }
      }
      DistinctCount(t, x);
      if x == s[0] {
        assert x !in t by {
          forall k | 0 <= k < |t| ensures t[k] != x {
            assert t[k] == s[k + 1];
          }
        }
      }
    }
  }

  /** A value occurring twice gives a multiplicity of at least two. */
  lemma RepeatCount<T>(s: seq<T>, i: int, j: int)
    requires 0 <= i < j < |s| && s[i] == s[j]
    ensures multiset(s)[s[i]] >= 2
  {
    assert s == s[..i] + [s[i]] + s[i + 1..j] + [s[j]] + s[j + 1..];
  }

  /** Multiplicities of at most one mean no repetitions. */
  lemma CountDistinct<T>(s: seq<T>)
    requires forall x :: multiset(s)[x] <= 1
    ensures Distinct(s)
  {
    forall i, j | 0 <= i < j < |s| ensures s[i] != s[j] {
      if s[i] == s[j] {
        RepeatCount(s, i, j);
      }
    }
  }

  /** A permutation of [0, n) has length n, stays in [0, n) and repeats nothing. */
  lemma PermutationFacts(c: seq<int>, n: nat)
    requires IsPermutation(c, n)
    ensures |c| == n
    ensures forall i :: 0 <= i < |c| ==> 0 <= c[i] < n
    ensures Distinct(c)
  {
    assert |multiset(c)| == |multiset(Range(n))|;
    assert Distinct(Range(n));
    forall i | 0 <= i < |c| ensures 0 <= c[i] < n {
      assert c[i] in multiset(c);
      assert c[i] in Range(n);
    }
    forall x ensures multiset(c)[x] <= 1 {
      DistinctCount(Range(n), x);
    }
    CountDistinct(c);
  }

  /** The elements of `s` that do not occur in `xs`, in their original order. */
  function Without<T(==)>(s: seq<T>, xs: seq<T>): (r: seq<T>)
    ensures |r| <= |s|
    ensures forall k :: 0 <= k < |r| ==> r[k] in s && r[k] !in xs
    ensures forall k :: 0 <= k < |s| && s[k] !in xs ==> s[k] in r
  {
    if |s| == 0 then []
    else (if s[0] in xs then [] else [s[0]]) + Without(s[1..], xs)
  }

  /** Removing nothing keeps everything. */
  lemma {:induction false} WithoutNothing<T>(s: seq<T>)
    ensures Without(s, []) == s
  {
    if |s| > 0 {
      WithoutNothing(s[1..]);
      assert s == [s[0]] + s[1..];
    }
  }

  /** Removing the values of `a` and then those of `b` removes the values of `a + b`. */
  lemma {:induction false} WithoutWithout<T>(s: seq<T>, a: seq<T>, b: seq<T>)
    ensures Without(Without(s, a), b) == Without(s, a + b)
  {
    if |s| > 0 {
      WithoutWithout(s[1..], a, b);
      assert s[0] in a + b <==> s[0] in a || s[0] in b;
      assert Without(s, a + b) == (if s[0] in a + b then [] else [s[0]]) + Without(s[1..], a + b);
      if s[0] !in a {
        var t := [s[0]] + Without(s[1..], a);
        assert Without(s, a) == t;
        assert t[0] == s[0] && t[1..] == Without(s[1..], a);
        assert Without(t, b) == (if s[0] in b then [] else [s[0]]) + Without(Without(s[1..], a), b);
      } else {
        assert Without(s, a) == [] + Without(s[1..], a);
        assert [] + Without(s[1..], a) == Without(s[1..], a);
      }
    }
  }

  /** The elements of `s` that do occur in `xs`, in their original order. */
  function Within<T(==)>(s: seq<T>, xs: seq<T>): seq<T> {
    if |s| == 0 then []
    else (if s[0] in xs then [s[0]] else []) + Within(s[1..], xs)
  }

  /** Splitting `s` by membership in `xs` loses and invents nothing. */
  lemma {:induction false} SplitMultiset<T>(s: seq<T>, xs: seq<T>)
    ensures multiset(Without(s, xs)) + multiset(Within(s, xs)) == multiset(s)
  {
    if |s| > 0 {
      SplitMultiset(s[1..], xs);
      assert s == [s[0]] + s[1..];
    }
  }

  /** `Within` keeps a subsequence, so membership and distinctness carry over. */
  lemma {:induction false} WithinFacts<T>(s: seq<T>, xs: seq<T>)
    requires Distinct(s)
    ensures forall k :: 0 <= k < |Within(s, xs)| ==> Within(s, xs)[k] in s && Within(s, xs)[k] in xs
    ensures forall k :: 0 <= k < |s| && s[k] in xs ==> s[k] in Within(s, xs)
    ensures Distinct(Within(s, xs))
  {
    if |s| > 0 {
      var t := s[1..];
      assert Distinct(t) by {
        forall i, j | 0 <= i < j < |t| ensures t[i] != t[j] {
          assert t[i] == s[i + 1] && t[j] == s[j + 1];
        }
      }
      WithinFacts(t, xs);
      assert s[0] !in t by {
        forall k | 0 <= k < |t| ensures t[k] != s[0] {
          assert t[k] == s[k + 1];
        }
      }
      var w := Within(t, xs);
      if s[0] in xs {
        assert Within(s, xs) == [s[0]] + w;
        forall i, j | 0 <= i < j < |[s[0]] + w| ensures ([s[0]] + w)[i] != ([s[0]] + w)[j] {
          if i == 0 {
            assert ([s[0]] + w)[j] == w[j - 1];
            assert w[j - 1] in w;
          } else {
            assert ([s[0]] + w)[i] == w[i - 1] && ([s[0]] + w)[j] == w[j - 1];
          }
        }
      } else {
        assert Within(s, xs) == w;
      }
    }
  }

  /**
   Removing from a repetition-free `s` the values of a repetition-free `xs`
   that all occur in `s` removes exactly the multiset of `xs`.
   */
  lemma WithoutRemovesExactly<T>(s: seq<T>, xs: seq<T>)
    requires Distinct(s) && Distinct(xs)
    requires forall x :: x in xs ==> x in s
    ensures multiset(Without(s, xs)) + multiset(xs) == multiset(s)
  {
    SplitMultiset(s, xs);
    WithinFacts(s, xs);
    var w := Within(s, xs);
    forall x ensures multiset(w)[x] == multiset(xs)[x] {
      DistinctCount(w, x);
      DistinctCount(xs, x);
      if x in xs {
        var k :| 0 <= k < |s| && s[k] == x;
        assert x in w;
      }
      if x in w {
        var k :| 0 <= k < |w| && w[k] == x;
        assert x in xs;
      }
    }
    assert multiset(w) == multiset(xs);
  }

  /** Sum of a sequence of reals, accumulated from the front. */
  function Sum(s: seq<real>): real {
    if |s| == 0 then 0.0 else Sum(s[..|s| - 1]) + s[|s| - 1]
  }

  /** Extending a prefix by one element adds that element to the prefix sum. */
  lemma PrefixSumStep(s: seq<real>, i: int)
    requires 0 <= i < |s|
    ensures Sum(s[..i + 1]) == Sum(s[..i]) + s[i]
  {
    assert s[..i + 1][..i] == s[..i];
  }

  /** Prefix sums of non-negative values are monotone in the prefix length. */
  lemma {:induction false} PrefixSumMonotone(s: seq<real>, i: int, j: int)
    requires forall k :: 0 <= k < |s| ==> s[k] >= 0.0
    requires 0 <= i <= j <= |s|
    ensures Sum(s[..i]) <= Sum(s[..j])
  {
    if i < j {
      PrefixSumMonotone(s, i, j - 1);
      PrefixSumStep(s, j - 1);
    }
  }

  /**
   The index `std::max_element` returns for the comparator
   `key(a) < key(b)`: a maximum of `key`, and the first one.
   */
  function FirstMax<T>(s: seq<T>, key: T -> real): (r: nat)
    requires |s| > 0
    ensures r < |s|
    ensures forall j :: 0 <= j < |s| ==> key(s[j]) <= key(s[r])
    ensures forall j :: 0 <= j < r ==> key(s[j]) < key(s[r])
  {
    if |s| == 1 then 0
    else
      var k := FirstMax(s[..|s| - 1], key);
      if key(s[k]) < key(s[|s| - 1]) then |s| - 1 else k
  }

  /** `key` never decreases along `s`. */
  predicate SortedBy<T>(s: seq<T>, key: T -> real) {
    forall i, j :: 0 <= i < j < |s| ==> key(s[i]) <= key(s[j])
  }

  /** Inserts `x` after every element whose key is not greater than its own. */
  function InsertBy<T>(x: T, s: seq<T>, key: T -> real): (r: seq<T>)
    requires SortedBy(s, key)
    ensures multiset(r) == multiset(s) + multiset{x}
    ensures SortedBy(r, key)
  {
    if |s| == 0 then [x]
    else if key(x) < key(s[0]) then [x] + s
    else
      var t := InsertBy(x, s[1..], key);
      InsertBehind(x, s, t, key);
      [s[0]] + t
  }

  /** The head of `s` goes in front of `x` inserted into the tail. */
  lemma InsertBehind<T>(x: T, s: seq<T>, t: seq<T>, key: T -> real)
    requires |s| > 0 && SortedBy(s, key) && key(s[0]) <= key(x)
    requires multiset(t) == multiset(s[1..]) + multiset{x} && SortedBy(t, key)
    ensures multiset([s[0]] + t) == multiset(s) + multiset{x}
    ensures SortedBy([s[0]] + t, key)
  {
    assert s == [s[0]] + s[1..];
    forall k | 0 <= k < |t| ensures key(s[0]) <= key(t[k]) {
      assert t[k] in multiset(t);
      assert t[k] == x || t[k] in s[1..];
    }
    ConsSorted(s[0], t, key);
  }

  /** A head no greater than every element of a sorted tail keeps it sorted. */
  lemma ConsSorted<T>(h: T, t: seq<T>, key: T -> real)
    requires SortedBy(t, key) && forall k :: 0 <= k < |t| ==> key(h) <= key(t[k])
    ensures SortedBy([h] + t, key)
  {
    var r := [h] + t;
    forall i, j | 0 <= i < j < |r| ensures key(r[i]) <= key(r[j]) {
      assert r[j] == t[j - 1];
      if i > 0 {
        assert r[i] == t[i - 1];
      }
    }
  }

  /**
   Insertion sort by `key`; it stands for `std::sort` with the comparator
   `key(a) < key(b)`, whose order among equal keys is unspecified.
   */
  function SortBy<T>(s: seq<T>, key: T -> real): (r: seq<T>)
    ensures multiset(r) == multiset(s)
    ensures SortedBy(r, key)
  {
    if |s| == 0 then []
    else
      assert s == s[..|s| - 1] + [s[|s| - 1]];
      InsertBy(s[|s| - 1], SortBy(s[..|s| - 1], key), key)
  }

  /** Concatenation of the demes in order. */
  function Flatten<T>(ss: seq<seq<T>>): seq<T> {
    if |ss| == 0 then [] else Flatten(ss[..|ss| - 1]) + ss[|ss| - 1]
  }

  /** Every element of the flattened population comes from some deme. */
  lemma {:induction false} FlattenMembers<T>(ss: seq<seq<T>>, x: T)
    requires x in Flatten(ss)
    ensures exists d :: 0 <= d < |ss| && x in ss[d]
  {
    if |ss| > 0 {
      var init := ss[..|ss| - 1];
      if x in Flatten(init) {
        FlattenMembers(init, x);
        var d :| 0 <= d < |init| && x in init[d];
        assert ss[d] == init[d];
      } else {
        assert x in ss[|ss| - 1];
      }
    }
  }

  /** Flattening demes of size m each gives |ss| * m individuals. */
  lemma {:induction false} FlattenLength<T>(ss: seq<seq<T>>, m: nat)
    requires forall d :: 0 <= d < |ss| ==> |ss[d]| == m
    ensures |Flatten(ss)| == |ss| * m
  {
    if |ss| > 0 {
      FlattenLength(ss[..|ss| - 1], m);
    }
  }
}
