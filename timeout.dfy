/** The `--timeout` option: every trailing 's' is stripped, the rest is read as
    an unsigned 64-bit number of seconds, and anything unreadable means the
    default of 10 seconds. */
module TimeoutOption {
  import opened Io

  /** The largest value of Rust's `u64`. */
  const U64Max: nat := 0xFFFF_FFFF_FFFF_FFFF

  /** The seconds used when the option does not parse. */
  const FallbackSeconds: nat := 10

  /** The option's value when the user gives none. */
  const DefaultOption: string := "10s"

  predicate IsDigit(c: char)
  {
    '0' <= c <= '9'
  }

  predicate AllDigits(d: string)
  {
    forall i :: 0 <= i < |d| ==> IsDigit(d[i])
  }

  function DigitValue(c: char): (v: nat)
    requires IsDigit(c)
    ensures v < 10
  {
    c as int - '0' as int
  }

  function Pow10(n: nat): (p: nat)
    ensures p >= 1
  {
    if n == 0 then 1 else 10 * Pow10(n - 1)
  }

  /** The number a string of decimal digits denotes, in positional notation. */
  function Value(d: string): nat
    requires AllDigits(d)
  {
    if d == [] then 0 else DigitValue(d[0]) * Pow10(|d| - 1) + Value(d[1..])
  }

  /** `k` copies of the unit letter. */
  function Esses(k: nat): (r: string)
    ensures |r| == k
  {
    if k == 0 then [] else Esses(k - 1) + "s"
  }

  /** Rust's `trim_end_matches('s')`: the longest prefix that does not end in
      's' and leaves only 's' behind it. */
  function TrimTrailingS(s: string): (r: string)
    ensures r <= s
    ensures forall i :: |r| <= i < |s| ==> s[i] == 's'
    ensures r == [] || r[|r| - 1] != 's'
    decreases |s|
  {
    if |s| > 0 && s[|s| - 1] == 's' then TrimTrailingS(s[..|s| - 1]) else s
  }

  /** What a `u64` parse reads as digits: one leading '+' is skipped. A '-' is
      not a sign for an unsigned type and stays, where it is an invalid digit. */
  function Unsigned(s: string): string
  {
    if |s| > 0 && s[0] == '+' then s[1..] else s
  }

  /** The strings `str::parse::<u64>` accepts, before the range check. */
  predicate WellFormed(s: string)
  {
    |Unsigned(s)| > 0 && AllDigits(Unsigned(s))
  }

  /** The parse's digit loop: multiply by ten and add, failing on a non-digit
      or as soon as the running value leaves the range of `u64`. */
  function Accumulate(acc: nat, digits: string): (r: Option<nat>)
    requires acc <= U64Max
    ensures r.Some? ==> acc <= r.value <= U64Max
    decreases |digits|
  {
    if digits == [] then Some(acc)
    else if !IsDigit(digits[0]) then None
    else
      var next := acc * 10 + DigitValue(digits[0]);
      if next > U64Max then None else Accumulate(next, digits[1..])
  }

  /** `str::parse::<u64>`: `None` for the empty string, a lone sign, any
      non-digit and any value above `U64Max`. */
  function ParseU64(s: string): (r: Option<nat>)
    ensures r.Some? ==> r.value <= U64Max
    ensures Unsigned(s) == [] ==> r == None
  {
    var d := Unsigned(s);
    if d == [] then None else Accumulate(0, d)
  }

  /** The connect timeout in seconds: strip the trailing 's', parse as `u64`,
      and fall back to 10 on failure. */
  function ParseTimeout(opt: string): (seconds: nat)
    ensures seconds <= U64Max
  {
    match ParseU64(TrimTrailingS(opt))
    case Some(v) => v
    case None => FallbackSeconds
  }

  // ---------------------------------------------------------------------------
  // The digit loop computes the positional value, within range.

  lemma {:induction false} AccumulateDigits(acc: nat, d: string)
    requires acc <= U64Max && AllDigits(d)
    ensures var total := acc * Pow10(|d|) + Value(d);
            Accumulate(acc, d) == if total <= U64Max then Some(total) else None
    decreases |d|
  {
    if d != [] {
      var dv := DigitValue(d[0]);
      var next := acc * 10 + dv;
      var p := Pow10(|d| - 1);
      var rest := Value(d[1..]);
      assert Pow10(|d|) == 10 * p;
      assert Value(d) == dv * p + rest;
      assert acc * Pow10(|d|) + Value(d) == next * p + rest;
      if next <= U64Max {
        AccumulateDigits(next, d[1..]);
      }
    }
  }

  lemma {:induction false} AccumulateRejects(acc: nat, d: string)
    requires acc <= U64Max && !AllDigits(d)
    ensures Accumulate(acc, d) == None
    decreases |d|
  {
    if IsDigit(d[0]) {
      var next := acc * 10 + DigitValue(d[0]);
      if next <= U64Max {
        assert !AllDigits(d[1..]) by {
          var i :| 0 <= i < |d| && !IsDigit(d[i]);
          assert d[1..][i - 1] == d[i];
        }
        AccumulateRejects(next, d[1..]);
      }
    }
  }

  /** The parse succeeds exactly on a well-formed string whose value fits in
      a `u64`, and then yields that value. */
  lemma ParseU64Correct(s: string)
    ensures ParseU64(s).Some? <==> WellFormed(s) && Value(Unsigned(s)) <= U64Max
    ensures ParseU64(s).Some? ==> ParseU64(s).value == Value(Unsigned(s))
  {
    var d := Unsigned(s);
    if d != [] {
      if AllDigits(d) {
        AccumulateDigits(0, d);
      } else {
        AccumulateRejects(0, d);
      }
    }
  }

  // ---------------------------------------------------------------------------
  // Properties of the option as the client reads it.

  /** The timeout is the value of what is left once the trailing 's' are
      gone, or 10 when that remainder is empty, holds a character other than a
      digit or one leading '+', or exceeds `U64Max`. */
  lemma ParseTimeoutCorrect(opt: string)
    ensures var rest := TrimTrailingS(opt);
            ParseTimeout(opt) ==
              if WellFormed(rest) && Value(Unsigned(rest)) <= U64Max
              then Value(Unsigned(rest)) else FallbackSeconds
  {
    ParseU64Correct(TrimTrailingS(opt));
  }

  /** An unreadable remainder silently means 10 seconds; parsing never fails. */
  lemma ParseTimeoutFallback(opt: string)
    requires var rest := TrimTrailingS(opt);
             !WellFormed(rest) || Value(Unsigned(rest)) > U64Max
    ensures ParseTimeout(opt) == FallbackSeconds
  {
    ParseTimeoutCorrect(opt);
  }

  lemma {:induction false} TrimAppendS(t: string)
    ensures TrimTrailingS(t + "s") == TrimTrailingS(t)
  {
    assert (t + "s")[..|t|] == t;
  }

  /** A further 's' never changes the timeout, because all of them are
      stripped. */
  lemma ParseTimeoutAppendS(t: string)
    ensures ParseTimeout(t + "s") == ParseTimeout(t)
  {
    TrimAppendS(t);
  }

  lemma {:induction false} TrimDigitsEsses(d: string, k: nat)
    requires |d| > 0 && IsDigit(d[|d| - 1])
    ensures TrimTrailingS(d + Esses(k)) == d
  {
    if k > 0 {
      assert d + Esses(k) == (d + Esses(k - 1)) + "s";
      TrimAppendS(d + Esses(k - 1));
      TrimDigitsEsses(d, k - 1);
    }
  }

  /** Decimal digits followed by any number of 's' give the digits' value,
      whenever that value fits in a `u64`. */
  lemma ParseTimeoutDigits(d: string, k: nat)
    requires |d| > 0 && AllDigits(d) && Value(d) <= U64Max
    ensures ParseTimeout(d + Esses(k)) == Value(d)
  {
    TrimDigitsEsses(d, k);
    assert Unsigned(d) == d;
    ParseTimeoutCorrect(d + Esses(k));
  }

  /** The default option `"10s"` means ten seconds. */
  lemma DefaultIsTenSeconds()
    ensures ParseTimeout(DefaultOption) == 10
  {
    var d := "10";
    assert DefaultOption == d + Esses(1);
    assert AllDigits(d);
    assert Value(d) == 10 by {
      assert d[1..] == "0";
      assert Value(d[1..]) == 0;
    }
    ParseTimeoutDigits(d, 1);
  }

  /** A sign of '-' is never accepted: such an option means ten seconds. */
  lemma NegativeFallsBack(d: string)
    ensures ParseTimeout("-" + d) == FallbackSeconds
  {
    var s := "-" + d;
    var rest := TrimTrailingS(s);
    assert s[0] == '-';
    assert |rest| > 0;
    assert rest[0] == '-';
    assert !WellFormed(rest) by {
      assert Unsigned(rest) == rest;
    }
    ParseTimeoutFallback(s);
  }

  /** One leading '+' is accepted and does not change the value. */
  lemma PlusSignAccepted(d: string, k: nat)
    requires |d| > 0 && AllDigits(d) && Value(d) <= U64Max
    ensures ParseTimeout("+" + d + Esses(k)) == Value(d)
  {
    var p := "+" + d;
    assert p[|p| - 1] == d[|d| - 1];
    TrimDigitsEsses(p, k);
    assert Unsigned(p) == d;
    ParseTimeoutCorrect(p + Esses(k));
  }
}
