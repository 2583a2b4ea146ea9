/**
 The alternative (factoradic) encoding of a tour: gene j picks, by position,
 one of the items that genes 0..j-1 have not yet taken. Decoding it is the
 selection without replacement that builds the island GA's initial tours.
 */
module Encoding {
  import opened Seqs

  /** Gene i of an alternative lies in [0, |s| - i); the last gene is always 0. */
  predicate PositionalBound(s: seq<int>) {
    forall i :: 0 <= i < |s| ==> 0 <= s[i] < |s| - i
  }

  /** Gene j of `code` chooses among the |pool| - j items still remaining. */
  predicate FitsPool(code: seq<int>, pool: seq<int>) {
    |code| <= |pool| && forall j :: 0 <= j < |code| ==> 0 <= code[j] < |pool| - j
  }

  /** `s` without its k-th element (`vector::erase(begin() + k)`). */
  function RemoveAt(s: seq<int>, k: int): (r: seq<int>)
    requires 0 <= k < |s|
    ensures |r| == |s| - 1
    ensures multiset(r) + multiset{s[k]} == multiset(s)
  {
    assert s == s[..k] + [s[k]] + s[k + 1..];
    s[..k] + s[k + 1..]
  }

  /**
   Successively take (and remove) the code[j]-th remaining item of `pool`;
   a full-length code uses up the pool exactly.
   */
  function Decode(code: seq<int>, pool: seq<int>): (t: seq<int>)
    requires FitsPool(code, pool)
    ensures |t| == |code|
    ensures |code| == |pool| ==> multiset(t) == multiset(pool)
  {
    if |code| == 0 then []
    else
      var rest := RemoveAt(pool, code[0]);
      TailFits(code, pool, rest);
      [pool[code[0]]] + Decode(code[1..], rest)
  }

  /** The tail of a fitting code fits a pool one item shorter. */
  lemma TailFits(code: seq<int>, pool: seq<int>, rest: seq<int>)
    requires FitsPool(code, pool) && |code| > 0 && |rest| == |pool| - 1
    ensures FitsPool(code[1..], rest)
  {
    forall j | 0 <= j < |code[1..]| ensures 0 <= code[1..][j] < |rest| - j {
      assert code[1..][j] == code[j + 1];
    }
  }

  /** A code fits when its head picks within the pool and its tail fits a pool one item shorter. */
  lemma ConsFits(k: int, tail: seq<int>, pool: seq<int>, rest: seq<int>)
    requires 0 <= k < |pool| && |rest| == |pool| - 1 && FitsPool(tail, rest)
    ensures FitsPool([k] + tail, pool)
  {
    var code := [k] + tail;
    forall j | 1 <= j < |code| ensures 0 <= code[j] < |pool| - j {
      assert code[j] == tail[j - 1];
    }
  }

  /** One step of decoding: the first gene takes its item, the rest decode what remains. */
  lemma DecodeStep(code: seq<int>, pool: seq<int>)
    requires FitsPool(code, pool) && |code| > 0
    ensures FitsPool(code[1..], RemoveAt(pool, code[0]))
    ensures Decode(code, pool) == [pool[code[0]]] + Decode(code[1..], RemoveAt(pool, code[0]))
  {
  }

  /** The tour of cities 0..|code|-1 that an alternative stands for. */
  function DecodeTour(code: seq<int>): seq<int>
    requires PositionalBound(code)
  {
    Decode(code, Range(|code|))
  }

  /** Totality of the encoding: every positionally bounded alternative is a tour. */
  lemma DecodeIsTour(code: seq<int>)
    requires PositionalBound(code)
    ensures IsPermutation(DecodeTour(code), |code|)
  {
  }

  /** The position of the first occurrence of `x`. */
  function IndexOf(s: seq<int>, x: int): (k: int)
    requires x in s
    ensures 0 <= k < |s| && s[k] == x
    ensures forall j :: 0 <= j < k ==> s[j] != x
  {
    if s[0] == x then 0 else 1 + IndexOf(s[1..], x)
  }

  /** Removing one element of a repetition-free sequence removes that value entirely. */
  lemma RemoveAtDistinct(s: seq<int>, k: int)
    requires Distinct(s) && 0 <= k < |s|
    ensures Distinct(RemoveAt(s, k))
    ensures s[k] !in RemoveAt(s, k)
  {
    var r := RemoveAt(s, k);
    forall i, j | 0 <= i < j < |r| ensures r[i] != r[j] {
      var i' := if i < k then i else i + 1;
      var j' := if j < k then j else j + 1;
      assert r[i] == s[i'] && r[j] == s[j'];
    }
    forall i | 0 <= i < |r| ensures r[i] != s[k] {
      assert r[i] == s[if i < k then i else i + 1];
    }
  }

  /** The code of a tour: the inverse of `Decode` over a repetition-free pool. */
  function Encode(t: seq<int>, pool: seq<int>): (code: seq<int>)
    requires Distinct(pool) && multiset(t) == multiset(pool)
    ensures |code| == |t| && FitsPool(code, pool)
  {
    if |t| == 0 then []
    else
      assert t[0] in multiset(pool);
      var k := IndexOf(pool, t[0]);
      var rest := RemoveAt(pool, k);
      RemoveAtDistinct(pool, k);
      TailMultiset(t, pool, k);
      var tail := Encode(t[1..], rest);
      ConsFits(k, tail, pool, rest);
      [k] + tail
  }

  /** Taking the head of `t` out of `pool` leaves the tail's multiset. */
  lemma TailMultiset(t: seq<int>, pool: seq<int>, k: int)
    requires |t| > 0 && multiset(t) == multiset(pool)
    requires 0 <= k < |pool| && pool[k] == t[0]
    ensures multiset(t[1..]) == multiset(RemoveAt(pool, k))
    ensures |t| == |pool|
  {
    assert t == [t[0]] + t[1..];
    assert multiset(t) == multiset{t[0]} + multiset(t[1..]);
    assert multiset(t[1..]) == multiset(t) - multiset{t[0]};
    assert multiset(RemoveAt(pool, k)) == multiset(pool) - multiset{t[0]};
    assert |multiset(t)| == |multiset(pool)|;
  }

  /** Decoding the code of a tour gives the tour back. */
  lemma {:induction false} DecodeEncode(t: seq<int>, pool: seq<int>)
    requires Distinct(pool) && multiset(t) == multiset(pool)
    ensures Decode(Encode(t, pool), pool) == t
  {
    if |t| > 0 {
      assert t[0] in multiset(pool);
      var k := IndexOf(pool, t[0]);
      var rest := RemoveAt(pool, k);
      RemoveAtDistinct(pool, k);
      TailMultiset(t, pool, k);
      DecodeEncode(t[1..], rest);
      var code := Encode(t, pool);
      assert code == [k] + Encode(t[1..], rest);
      assert code[1..] == Encode(t[1..], rest);
    }
  }

  /** Encoding a decoded code gives the code back: the encoding is a bijection. */
  lemma {:induction false} EncodeDecode(code: seq<int>, pool: seq<int>)
    requires Distinct(pool) && FitsPool(code, pool) && |code| == |pool|
    ensures Encode(Decode(code, pool), pool) == code
  {
    if |code| > 0 {
      var t := Decode(code, pool);
      var rest := RemoveAt(pool, code[0]);
      DecodeStep(code, pool);
      RemoveAtDistinct(pool, code[0]);
      IndexOfDistinct(pool, code[0]);
      EncodeStep(t, pool);
      assert t[1..] == Decode(code[1..], rest);
      EncodeDecode(code[1..], rest);
      assert code == [code[0]] + code[1..];
    }
  }

  /** In a repetition-free sequence the first index of s[k] is k. */
  lemma IndexOfDistinct(s: seq<int>, k: int)
    requires Distinct(s) && 0 <= k < |s|
    ensures IndexOf(s, s[k]) == k
  {
  }

  /** One step of encoding: the head's index in the pool, then the tail in what remains. */
  lemma EncodeStep(t: seq<int>, pool: seq<int>)
    requires Distinct(pool) && multiset(t) == multiset(pool) && |t| > 0
    ensures t[0] in pool
    ensures var k := IndexOf(pool, t[0]);
      Distinct(RemoveAt(pool, k)) && multiset(t[1..]) == multiset(RemoveAt(pool, k)) &&
      Encode(t, pool) == [k] + Encode(t[1..], RemoveAt(pool, k))
  {
    assert t[0] in multiset(pool);
    var k := IndexOf(pool, t[0]);
    RemoveAtDistinct(pool, k);
    TailMultiset(t, pool, k);
  }
}
