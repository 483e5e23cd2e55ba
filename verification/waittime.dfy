/**
  The wait chosen after a rate-limited (429) response in `get_groq_response`:
  the number captured by `re.search(r"try again in ([0-9.]+)s", msg)`, converted
  with `float` and increased by one second, or 20 seconds when there is no match
  or the capture does not convert. Numbers are exact decimals, not floats.
 */
module WaitTime {
  import opened Wrappers
  import opened Strings

  /** The literal part of the pattern that precedes the captured group. */
  const TryAgainIn: string := "try again in "

  predicate IsDigit(c: char) { '0' <= c <= '9' }

  /** A member of the character class `[0-9.]`. */
  predicate IsRunChar(c: char) { IsDigit(c) || c == '.' }

  predicate AllDigits(s: string) { forall t :: 0 <= t < |s| ==> IsDigit(s[t]) }

  predicate AllRunChars(s: string) { forall t :: 0 <= t < |s| ==> IsRunChar(s[t]) }

  // ---------------------------------------------------------------------------
  // Matching the pattern

  /** The length of the longest run of `[0-9.]` characters of `s` starting at `k`. */
  function RunLength(s: string, k: nat): (n: nat)
    requires k <= |s|
    ensures k + n <= |s|
    ensures forall t :: k <= t < k + n ==> IsRunChar(s[t])
    ensures k + n < |s| ==> !IsRunChar(s[k + n])
    decreases |s| - k
  {
    if k < |s| && IsRunChar(s[k]) then 1 + RunLength(s, k + 1) else 0
  }

  /** The pattern matches `msg` starting at index `k` with `g` as its group,
      for some choice of how many characters `[0-9.]+` consumes. */
  ghost predicate RegexMatchAt(msg: string, k: int, g: string)
  {
    var p := |TryAgainIn|;
    && 0 <= k && k + p + |g| < |msg|
    && msg[k..k + p] == TryAgainIn
    && |g| > 0 && AllRunChars(g)
    && msg[k + p..k + p + |g|] == g
    && msg[k + p + |g|] == 's'
  }

  /** `k` is the leftmost index where the pattern matches, and `g` its group. */
  ghost predicate LeftmostMatch(msg: string, k: int, g: string)
  {
    && RegexMatchAt(msg, k, g)
    && forall j, h :: 0 <= j < k ==> !RegexMatchAt(msg, j, h)
  }

  /** The greedy attempt at `k`: the literal prefix, then the longest run of
      `[0-9.]`, which must be non-empty and followed by `s`. */
  predicate MatchesAt(msg: string, k: nat)
  {
    var p := |TryAgainIn|;
    && k + p <= |msg|
    && msg[k..k + p] == TryAgainIn
    && var n := RunLength(msg, k + p);
       n > 0 && k + p + n < |msg| && msg[k + p + n] == 's'
  }

  /** The group captured by the greedy attempt at `k`. */
  function GroupAt(msg: string, k: nat): (g: string)
    requires MatchesAt(msg, k)
  {
    var p := |TryAgainIn|;
    msg[k + p..k + p + RunLength(msg, k + p)]
  }

  /** Since `s` is neither a digit nor a dot, backtracking never helps: the
      pattern matches at `k` with group `g` exactly when the greedy attempt
      succeeds there and `g` is the whole run it consumed. */
  lemma RegexMatchIsMaximalRun(msg: string, k: nat, g: string)
    ensures RegexMatchAt(msg, k, g) <==> MatchesAt(msg, k) && g == GroupAt(msg, k)
  {
    var p := |TryAgainIn|;
    if RegexMatchAt(msg, k, g) {
      forall t | k + p <= t < k + p + |g|
        ensures IsRunChar(msg[t])
      {
        assert msg[t] == msg[k + p..k + p + |g|][t - k - p];
      }
      assert !IsRunChar(msg[k + p + |g|]);
    }
  }

  /** The leftmost index at or after `from` where the greedy attempt succeeds. */
  function SearchFrom(msg: string, from: nat): (r: Option<nat>)
    ensures r.Some? ==> from <= r.value && MatchesAt(msg, r.value)
    ensures r.Some? ==> forall j :: from <= j < r.value ==> !MatchesAt(msg, j)
    ensures r.None? ==> forall j :: from <= j ==> !MatchesAt(msg, j)
    decreases |msg| - from
  {
    if from + |TryAgainIn| > |msg| then None
    else if MatchesAt(msg, from) then Some(from)
    else SearchFrom(msg, from + 1)
  }

  /** `re.search(r"try again in ([0-9.]+)s", msg).group(1)`, or `None` when
      the search finds nothing. */
  function WaitGroup(msg: string): (r: Option<string>)
    ensures r.Some? ==> |r.value| > 0 && AllRunChars(r.value)
  {
    match SearchFrom(msg, 0)
    case None => None
    case Some(k) =>
      assert GroupAt(msg, k) == msg[k + |TryAgainIn|..k + |TryAgainIn| + RunLength(msg, k + |TryAgainIn|)];
      Some(GroupAt(msg, k))
  }

  /** The captured group is the group of the leftmost match of the pattern,
      and there is none exactly when the pattern matches nowhere. */
  lemma WaitGroupIsLeftmostMatch(msg: string)
    ensures WaitGroup(msg).None? <==> forall k, g :: !RegexMatchAt(msg, k, g)
    ensures WaitGroup(msg).Some? ==> exists k :: LeftmostMatch(msg, k, WaitGroup(msg).value)
  {
    var r := SearchFrom(msg, 0);
    forall k, g | RegexMatchAt(msg, k, g)
      ensures r.Some? && r.value <= k
    {
      RegexMatchIsMaximalRun(msg, k, g);
    }
    if r.Some? {
      var k := r.value;
      RegexMatchIsMaximalRun(msg, k, GroupAt(msg, k));
      forall j, h | 0 <= j < k
        ensures !RegexMatchAt(msg, j, h)
      {
        RegexMatchIsMaximalRun(msg, j, h);
      }
      assert LeftmostMatch(msg, k, GroupAt(msg, k));
    }
  }

  // ---------------------------------------------------------------------------
  // Converting the group with `float`

  /** An exact decimal number: `digits` divided by ten to the power `scale`. */
  datatype Decimal = Decimal(digits: nat, scale: nat)

  function Pow10(n: nat): (r: nat)
    ensures r >= 1
  {
    if n == 0 then 1 else 10 * Pow10(n - 1)
  }

  /** The number a decimal denotes. */
  function Value(d: Decimal): (v: real)
    ensures v >= 0.0
  {
    d.digits as real / Pow10(d.scale) as real
  }

  /** The number a string of decimal digits denotes. */
  function DigitsValue(s: string): (n: nat)
    requires AllDigits(s)
  {
    if |s| == 0 then 0
    else DigitsValue(s[..|s| - 1]) * 10 + (s[|s| - 1] as int - '0' as int)
  }

  /** `float` accepts a string of digits and dots when it holds at most one
      dot and at least one digit (`"3"`, `"3."`, `".5"`, but not `"."` or `"1.2.3"`). */
  ghost predicate Converts(g: string)
  {
    && (forall i, j :: 0 <= i < j < |g| ==> !(g[i] == '.' && g[j] == '.'))
    && exists i :: 0 <= i < |g| && IsDigit(g[i])
  }

  /** `float(g)` for a string `g` of digits and dots, or `None` where `float` raises. */
  function ParseFloat(g: string): (r: Option<Decimal>)
    requires AllRunChars(g)
    ensures r.Some? <==> Converts(g)
  {
    var dot := Find(g, '.');
    if dot == -1 then
      if |g| == 0 then None
      else
        assert IsDigit(g[0]);
        Some(Decimal(DigitsValue(g), 0))
    else
      var whole, frac := g[..dot], g[dot + 1..];
      ConvertsAtDot(g, dot);
      if '.' in frac || |whole| + |frac| == 0 then None
      else Some(Decimal(DigitsValue(whole + frac), |frac|))
  }

  /** How `Converts` reads once the first dot of `g` is known. */
  lemma ConvertsAtDot(g: string, dot: nat)
    requires AllRunChars(g)
    requires dot < |g| && g[dot] == '.' && '.' !in g[..dot]
    ensures Converts(g) <==> '.' !in g[dot + 1..] && |g| > 1
    ensures '.' !in g[dot + 1..] ==> AllDigits(g[..dot] + g[dot + 1..])
  {
    var whole, frac := g[..dot], g[dot + 1..];
    if '.' in frac {
      var j :| 0 <= j < |frac| && frac[j] == '.';
      assert g[dot + 1 + j] == '.';
    } else {
      forall t | 0 <= t < |g| && t != dot
        ensures IsDigit(g[t])
      {
        if t < dot {
          assert g[t] == whole[t];
        } else {
          assert g[t] == frac[t - dot - 1];
        }
      }
      if |g| > 1 {
        var t := if dot == 0 then 1 else 0;
        assert IsDigit(g[t]);
      }
      forall i, j | 0 <= i < j < |g|
        ensures !(g[i] == '.' && g[j] == '.')
      {
        if i < dot {
          assert g[i] == whole[i];
        }
      }
      var s := whole + frac;
      forall t | 0 <= t < |s|
        ensures IsDigit(s[t])
      {
        if t < |whole| {
          assert s[t] == g[t];
        } else {
          assert s[t] == g[t + 1];
        }
      }
    }
  }

  lemma AllDigitsConcat(a: string, b: string)
    requires AllDigits(a) && AllDigits(b)
    ensures AllDigits(a + b)
  {
    var s := a + b;
    forall t | 0 <= t < |s|
      ensures IsDigit(s[t])
    {
      if t < |a| { assert s[t] == a[t]; } else { assert s[t] == b[t - |a|]; }
    }
  }

  /** Reading `a` followed by `b` shifts `a` left by the length of `b`. */
  lemma {:induction false} DigitsValueConcat(a: string, b: string)
    requires AllDigits(a) && AllDigits(b)
    ensures AllDigits(a + b)
    ensures DigitsValue(a + b) == DigitsValue(a) * Pow10(|b|) + DigitsValue(b)
    decreases |b|
  {
    AllDigitsConcat(a, b);
    var s := a + b;
    if |b| == 0 {
      assert s == a;
    } else {
      var b' := b[..|b| - 1];
      var d := b[|b| - 1] as int - '0' as int;
      assert AllDigits(b');
      assert DigitsValue(s) == DigitsValue(a + b') * 10 + d by {
        assert s[..|s| - 1] == a + b';
        assert s[|s| - 1] == b[|b| - 1];
      }
      assert DigitsValue(b) == DigitsValue(b') * 10 + d;
      assert DigitsValue(a + b') == DigitsValue(a) * Pow10(|b'|) + DigitsValue(b') by {
        DigitsValueConcat(a, b');
      }
      assert Pow10(|b|) == 10 * Pow10(|b'|);
      ShiftByOneDigit(DigitsValue(a), DigitsValue(b'), Pow10(|b'|), d);
    }
  }

  lemma ShiftByOneDigit(x: int, y: int, p: int, d: int)
    ensures (x * p + y) * 10 + d == x * (10 * p) + (y * 10 + d)
  {
  }

  /** `"W.F"` is all digits and dots, and its first dot follows W. */
  lemma PointSplit(whole: string, frac: string)
    requires AllDigits(whole) && AllDigits(frac)
    ensures var g := whole + "." + frac;
      && AllRunChars(g)
      && Find(g, '.') == |whole|
      && g[..|whole|] == whole && g[|whole| + 1..] == frac
      && '.' !in frac
  {
    var g := whole + "." + frac;
    forall t | 0 <= t < |g|
      ensures IsRunChar(g[t])
    {
      if t < |whole| { assert g[t] == whole[t]; }
      else if t > |whole| { assert g[t] == frac[t - |whole| - 1]; }
    }
    assert g[..|whole|] == whole && g[|whole| + 1..] == frac;
    assert forall t :: 0 <= t < |whole| ==> whole[t] != '.';
    assert forall t :: 0 <= t < |frac| ==> frac[t] != '.';
  }

  lemma ParseFloatAtPoint(whole: string, frac: string)
    requires AllDigits(whole) && AllDigits(frac) && |whole| + |frac| > 0
    ensures AllRunChars(whole + "." + frac) && AllDigits(whole + frac)
    ensures ParseFloat(whole + "." + frac) == Some(Decimal(DigitsValue(whole + frac), |frac|))
  {
    PointSplit(whole, frac);
    AllDigitsConcat(whole, frac);
  }

  lemma PointValue(whole: string, frac: string)
    requires AllDigits(whole) && AllDigits(frac)
    ensures AllDigits(whole + frac)
    ensures Value(Decimal(DigitsValue(whole + frac), |frac|))
         == DigitsValue(whole) as real + DigitsValue(frac) as real / Pow10(|frac|) as real
  {
    DigitsValueConcat(whole, frac);
    ShiftedValue(DigitsValue(whole), DigitsValue(frac), |frac|);
  }

  /** `float("W.F")` denotes W plus F tenths-to-the-length-of-F. */
  lemma ParseFloatPointValue(whole: string, frac: string)
    requires AllDigits(whole) && AllDigits(frac) && |whole| + |frac| > 0
    ensures var g := whole + "." + frac;
      && AllRunChars(g)
      && ParseFloat(g).Some?
      && Value(ParseFloat(g).value)
         == DigitsValue(whole) as real + DigitsValue(frac) as real / Pow10(|frac|) as real
  {
    ParseFloatAtPoint(whole, frac);
    PointValue(whole, frac);
  }

  /** `float("D")` for digits alone denotes their integer value. */
  lemma ParseFloatIntegerValue(g: string)
    requires AllDigits(g) && |g| > 0
    ensures AllRunChars(g)
    ensures ParseFloat(g).Some? && Value(ParseFloat(g).value) == DigitsValue(g) as real
  {
    assert Find(g, '.') == -1 by {
      assert forall t :: 0 <= t < |g| ==> g[t] != '.';
    }
    assert ParseFloat(g) == Some(Decimal(DigitsValue(g), 0)) by {
      assert IsDigit(g[0]);
    }
    assert Pow10(0) == 1;
  }

  lemma DivAdd(x: real, y: real, p: real)
    requires p > 0.0
    ensures (x + y) / p == x / p + y / p
  {
    var q1, q2 := x / p, y / p;
    assert q1 * p == x;
    assert q2 * p == y;
    assert (q1 + q2) * p == x + y;
  }

  lemma RealOfProduct(a: nat, b: nat)
    ensures (a * b) as real == a as real * b as real
  {
  }

  /** A decimal `a * 10^n + b` at scale `n` denotes `a + b / 10^n`. */
  lemma ShiftedValue(a: nat, b: nat, n: nat)
    ensures Value(Decimal(a * Pow10(n) + b, n)) == a as real + b as real / Pow10(n) as real
  {
    RealOfProduct(a, Pow10(n));
    MulDiv(a as real, b as real, Pow10(n) as real);
  }

  lemma MulDiv(w: real, f: real, p: real)
    requires p > 0.0
    ensures (w * p + f) / p == w + f / p
  {
    DivAdd(w * p, f, p);
    assert (w * p) / p == w;
  }

  // ---------------------------------------------------------------------------
  // The wait

  /** The fallback wait, in seconds. */
  const DefaultWait := Decimal(20, 0)

  /** `d + 1`, the safety margin added to a suggested wait. */
  function PlusOne(d: Decimal): (r: Decimal)
    ensures Value(r) == Value(d) + 1.0
  {
    var x, p := d.digits as real, Pow10(d.scale) as real;
    DivAdd(x, p, p);
    assert p / p == 1.0;
    var r := Decimal(d.digits + Pow10(d.scale), d.scale);
    assert Value(r) == (x + p) / p;
    r
  }

  /** The wait after a 429 whose body yields `errorMessage` (`None` when the
      body is not JSON or its `error.message` is not a string, which the
      `except` of `get_groq_response` turns into the default). */
  function WaitFor(errorMessage: Option<string>): (w: Decimal)
    ensures Value(w) >= 1.0
  {
    assert Value(DefaultWait) == 20.0 by {
      assert Pow10(0) == 1;
    }
    match errorMessage
    case None => DefaultWait
    case Some(msg) =>
      match WaitGroup(msg)
      case None => DefaultWait
      case Some(g) =>
        match ParseFloat(g)
        case None => DefaultWait
        case Some(d) => PlusOne(d)
  }

  /** The wait for a message, in terms of the pattern's leftmost match: one
      more than the number it captures, or 20 when the pattern matches nowhere
      or its capture does not convert. */
  lemma WaitForMessage(msg: string)
    ensures (forall k, g :: !RegexMatchAt(msg, k, g)) ==> WaitFor(Some(msg)) == DefaultWait
    ensures forall k, g :: LeftmostMatch(msg, k, g) ==>
      && (Converts(g) ==> Value(WaitFor(Some(msg))) == Value(ParseFloat(g).value) + 1.0)
      && (!Converts(g) ==> WaitFor(Some(msg)) == DefaultWait)
  {
    WaitGroupIsLeftmostMatch(msg);
    forall k, g | LeftmostMatch(msg, k, g)
      ensures WaitGroup(msg) == Some(g)
    {
      LeftmostMatchIsWaitGroup(msg, k, g);
    }
  }

  /** Whatever the leftmost match captures is the group `WaitGroup` returns. */
  lemma LeftmostMatchIsWaitGroup(msg: string, k: nat, g: string)
    requires LeftmostMatch(msg, k, g)
    ensures WaitGroup(msg) == Some(g)
  {
    WaitGroupIsLeftmostMatch(msg);
    var k' :| LeftmostMatch(msg, k', WaitGroup(msg).value);
    RegexMatchIsMaximalRun(msg, k, g);
    RegexMatchIsMaximalRun(msg, k', WaitGroup(msg).value);
  }

  /** Without a usable message the wait is the default 20 seconds. */
  lemma WaitForNoMessage()
    ensures Value(WaitFor(None)) == 20.0
  {
  }
}
