/**
 The termination conditions of the GA drivers: the iteration-count predicate
 built by `term_condition_factory` (count read with `std::stoi`, default 10)
 and the countdown `(*iteration_count)--` of the older driver.
 */
module Config {
  import opened Errors

  /** The range of a 32-bit `int`. */
  const IntMin: int := -0x8000_0000
  const IntMax: int := 0x7fff_ffff

  /** `isspace` in the C locale: space, tab, newline, vertical tab, form feed, carriage return. */
  predicate IsSpace(c: char) {
    c == ' ' || 9 <= c as int <= 13
  }

  predicate IsDigit(c: char) {
    '0' as int <= c as int <= '9' as int
  }

  /** `s` without its leading white space. */
  function SkipSpace(s: string): (r: string)
    ensures |r| <= |s| && r == s[|s| - |r|..]
    ensures |r| > 0 ==> !IsSpace(r[0])
  {
    if |s| > 0 && IsSpace(s[0]) then SkipSpace(s[1..]) else s
  }

  /** The longest prefix of `s` made of decimal digits. */
  function DigitRun(s: string): (r: string)
    ensures |r| <= |s| && r == s[..|r|]
    ensures forall k :: 0 <= k < |r| ==> IsDigit(r[k])
    ensures |r| < |s| ==> !IsDigit(s[|r|])
  {
    if |s| > 0 && IsDigit(s[0]) then [s[0]] + DigitRun(s[1..]) else []
  }

  /** The value of a string of decimal digits, most significant first. */
  function DigitsValue(ds: string): nat
    requires forall k :: 0 <= k < |ds| ==> IsDigit(ds[k])
  {
    if |ds| == 0 then 0
    else
      assert IsDigit(ds[|ds| - 1]);
      10 * DigitsValue(ds[..|ds| - 1]) + (ds[|ds| - 1] as int - '0' as int)
  }

  /**
   `std::stoi` in base 10: leading white space, an optional sign, then the
   longest run of digits; trailing characters are ignored. No digits throws
   `invalid_argument`, a value outside `int` throws `out_of_range`.
   */
  function StoI(s: string): (r: Result<int>)
    ensures r.Ok? ==> IntMin <= r.value <= IntMax
    ensures r == Throws(InvalidArgument) <==>
      var t := SkipSpace(s);
      DigitRun(if |t| > 0 && (t[0] == '-' || t[0] == '+') then t[1..] else t) == []
  {
    var t := SkipSpace(s);
    var body := if |t| > 0 && (t[0] == '-' || t[0] == '+') then t[1..] else t;
    var ds := DigitRun(body);
    if |ds| == 0 then Throws(InvalidArgument)
    else
      var v: int := if |t| > 0 && t[0] == '-' then -(DigitsValue(ds) as int) else DigitsValue(ds) as int;
      if v < IntMin || v > IntMax then Throws(OutOfRange) else Ok(v)
  }

  /** The decimal digits of a natural number, most significant first. */
  function NatDigits(n: nat): (ds: string)
    ensures |ds| > 0
    ensures forall k :: 0 <= k < |ds| ==> IsDigit(ds[k])
  {
    var last := (('0' as int) + n % 10) as char;
    if n < 10 then [last] else NatDigits(n / 10) + [last]
  }

  /** The decimal form of an integer, as `std::to_string` writes it. */
  function Decimal(n: int): string {
    if n < 0 then "-" + NatDigits(-n) else NatDigits(n)
  }

  /** Reading back the digits of n gives n. */
  lemma {:induction false} NatDigitsValue(n: nat)
    ensures DigitsValue(NatDigits(n)) == n
  {
    var ds := NatDigits(n);
    if n >= 10 {
      NatDigitsValue(n / 10);
      assert ds[..|ds| - 1] == NatDigits(n / 10);
    }
  }

  /** A run of digits that fills the string is the whole string. */
  lemma DigitRunOfDigits(ds: string)
    requires forall k :: 0 <= k < |ds| ==> IsDigit(ds[k])
    ensures DigitRun(ds) == ds
  {
    if |ds| > 0 {
      DigitRunOfDigits(ds[1..]);
    }
  }

  /** `std::stoi` reads back every `int` that `std::to_string` writes. */
  lemma StoIDecimal(n: int)
    requires IntMin <= n <= IntMax
    ensures StoI(Decimal(n)) == Ok(n)
  {
    var s := Decimal(n);
    var m: nat := if n < 0 then -n else n;
    var ds := NatDigits(m);
    assert !IsSpace(s[0]);
    assert SkipSpace(s) == s;
    DigitRunOfDigits(ds);
    NatDigitsValue(m);
    if n < 0 {
      assert s[1..] == ds;
    } else {
      assert s[0] != '-' && s[0] != '+';
    }
  }

  /** The configuration key and default of `term_condition_factory`. */
  const IterationCountKey: string := "iteration_count"
  const DefaultIterationCount: int := 10

  /**
   The iteration budget `term_condition_factory` reads: the parsed value of
   `iteration_count`, or 10 when the key is absent; a malformed value throws.
   */
  function IterationCount(args: map<string, string>): (r: Result<int>)
    ensures IterationCountKey !in args ==> r == Ok(DefaultIterationCount)
    ensures IterationCountKey in args ==> r == StoI(args[IterationCountKey])
  {
    if IterationCountKey in args then StoI(args[IterationCountKey]) else Ok(DefaultIterationCount)
  }

  /** A budget given in decimal is the budget the predicate uses. */
  lemma IterationCountReadsBack(args: map<string, string>, k: int)
    requires IntMin <= k <= IntMax
    requires IterationCountKey in args && args[IterationCountKey] == Decimal(k)
    ensures IterationCount(args) == Ok(k)
  {
    StoIDecimal(k);
  }

  /** The predicate `term_condition_factory` returns: continue while iteration < count. */
  function ContinuesAt(count: int, iteration: int): bool {
    iteration < count
  }

  /**
   One call of the countdown `(*iteration_count)--`: it yields the old value,
   read as "continue" when non-zero, and leaves the counter one lower.
   */
  function Countdown(count: int): (r: (bool, int))
    ensures r.1 == count - 1
    ensures r.0 <==> count != 0
  {
    (count != 0, count - 1)
  }

  /** The counter after j calls of the countdown, starting from k. */
  function CountdownAfter(k: int, j: nat): (c: int)
    ensures c == k - j
  {
    if j == 0 then k else Countdown(CountdownAfter(k, j - 1)).1
  }

  /**
   The number of generations a loop guarded by the countdown runs from
   `count`, when at most `fuel` generations can be paid for.
   */
  function CountdownRuns(count: int, fuel: nat): (runs: nat)
    ensures runs <= fuel
    decreases fuel
  {
    var step := Countdown(count);
    if fuel == 0 || !step.0 then 0 else 1 + CountdownRuns(step.1, fuel - 1)
  }

  /**
   From k >= 0 the countdown says "continue" exactly k times and then
   "stop": the loop body runs k times, as with `iteration < k`.
   */
  lemma {:induction false} CountdownMatchesBudget(k: nat, fuel: nat)
    requires k <= fuel
    ensures CountdownRuns(k, fuel) == k
    ensures forall j :: 0 <= j <= k ==> (Countdown(CountdownAfter(k, j)).0 <==> ContinuesAt(k, j))
  {
    if k > 0 {
      CountdownMatchesBudget(k - 1, fuel - 1);
    }
  }

  /** With an unbounded counter, a negative count never reaches 0: the loop runs as long as it is paid for. */
  lemma {:induction false} CountdownNegative(k: int, fuel: nat)
    requires k < 0
    ensures CountdownRuns(k, fuel) == fuel
    decreases fuel
  {
    if fuel > 0 {
      CountdownNegative(k - 1, fuel - 1);
    }
  }
}
