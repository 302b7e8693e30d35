/**
 * The pieces of Java's text handling the year resolver relies on: ASCII
 * digits, the line terminators of java.util.regex, `Integer.parseInt`.
 */
module JavaText {
  import opened Wrappers

  /** Range of a Java `int`. */
  const MaxInt: int := 0x7fff_ffff
  const MinInt: int := -0x8000_0000

  predicate IsDigit(c: char) { '0' <= c <= '9' }

  predicate IsSign(c: char) { c == '-' || c == '+' }

  /** The line terminators of java.util.regex: `.` does not match them. */
  predicate IsLineTerminator(c: char) {
    c == '\n' || c == '\r' || c == '\U{85}' || c == '\U{2028}' || c == '\U{2029}'
  }

  predicate AllDigits(s: string) {
    forall i :: 0 <= i < |s| ==> IsDigit(s[i])
  }

  predicate NoLineTerminator(s: string) {
    forall i :: 0 <= i < |s| ==> !IsLineTerminator(s[i])
  }

  /** The decimal value of the first `n` characters of a string of ASCII digits, leading zeros included. */
  function PrefixValue(s: string, n: nat): nat
    requires n <= |s| && AllDigits(s)
  {
    if n == 0 then 0 else 10 * PrefixValue(s, n - 1) + (s[n - 1] as int - '0' as int)
  }

  /** The decimal value of a string of ASCII digits. */
  function DigitsValue(s: string): nat
    requires AllDigits(s)
  {
    PrefixValue(s, |s|)
  }

  /** The position of the last line terminator among the first `n` characters, or -1. */
  function LastTerminatorBefore(s: string, n: nat): (r: int)
    requires n <= |s|
    ensures -1 <= r < n
  {
    if n == 0 then -1
    else if IsLineTerminator(s[n - 1]) then n - 1
    else LastTerminatorBefore(s, n - 1)
  }

  /** The position of the last '/' among the first `n` characters, or -1. */
  function LastSlashBefore(s: string, n: nat): (r: int)
    requires n <= |s|
    ensures -1 <= r < n
  {
    if n == 0 then -1
    else if s[n - 1] == '/' then n - 1
    else LastSlashBefore(s, n - 1)
  }

  /** The length of the run of digits starting at position `i` (what a greedy `\d+` consumes there). */
  function DigitRunFrom(s: string, i: nat): (n: nat)
    requires i <= |s|
    ensures i + n <= |s|
    decreases |s| - i
  {
    if i == |s| || !IsDigit(s[i]) then 0 else 1 + DigitRunFrom(s, i + 1)
  }

  /** The scan finds a line terminator, and none lies between it and `n`. */
  lemma {:induction false} LastTerminatorFacts(s: string, n: nat)
    requires n <= |s|
    ensures var r := LastTerminatorBefore(s, n);
            && (r >= 0 ==> IsLineTerminator(s[r]))
            && forall k :: r < k < n ==> !IsLineTerminator(s[k])
  {
    if n > 0 && !IsLineTerminator(s[n - 1]) {
      LastTerminatorFacts(s, n - 1);
    }
  }

  /** The scan finds a '/', and none lies between it and `n`. */
  lemma {:induction false} LastSlashFacts(s: string, n: nat)
    requires n <= |s|
    ensures var r := LastSlashBefore(s, n);
            && (r >= 0 ==> s[r] == '/')
            && forall k :: r < k < n ==> s[k] != '/'
  {
    if n > 0 && s[n - 1] != '/' {
      LastSlashFacts(s, n - 1);
    }
  }

  /** The run holds only digits and is not followed by one. */
  lemma {:induction false} DigitRunFacts(s: string, i: nat)
    requires i <= |s|
    ensures var n := DigitRunFrom(s, i);
            && (forall k :: i <= k < i + n ==> IsDigit(s[k]))
            && (i + n < |s| ==> !IsDigit(s[i + n]))
    decreases |s| - i
  {
    if i < |s| && IsDigit(s[i]) {
      DigitRunFacts(s, i + 1);
    }
  }

  /**
   * `Integer.parseInt(s)` with radix 10: an optional sign, then one or more
   * digits, whose value must lie in the range of `int`; None stands for
   * NumberFormatException.
   */
  function ParseInt(s: string): (r: Option<int>)
    ensures r.Some? ==> MinInt <= r.value <= MaxInt
  {
    if s != [] && IsSign(s[0]) then
      var digits := s[1..];
      if digits != [] && AllDigits(digits) then
        var v: int := if s[0] == '-' then -(DigitsValue(digits) as int) else DigitsValue(digits);
        if MinInt <= v <= MaxInt then Some(v) else None
      else None
    else if s != [] && AllDigits(s) && DigitsValue(s) <= MaxInt then Some(DigitsValue(s))
    else None
  }

  /** Leading zeros do not change the value read from the digits. */
  lemma {:induction false} LeadingZeroIgnored(d: string, n: nat)
    requires n <= |d| && AllDigits(d)
    ensures AllDigits("0" + d) && PrefixValue("0" + d, n + 1) == PrefixValue(d, n)
  {
    var z := "0" + d;
    assert AllDigits(z) by {
      forall i | 0 <= i < |z| ensures IsDigit(z[i]) {
        if i > 0 { assert z[i] == d[i - 1]; }
      }
    }
    if n > 0 {
      LeadingZeroIgnored(d, n - 1);
      assert z[n] == d[n - 1];
    }
  }
}
