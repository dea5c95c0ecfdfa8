/**
 * String helpers the test window relies on: Python's `str` of a
 * non-negative integer, the forward substring search of the log widget,
 * and a character count used to state the shape of the summary label.
 */
module Text {

  datatype Option<+T> = None | Some(value: T)

  predicate IsDigit(c: char) { '0' <= c <= '9' }

  predicate AllDigits(s: string) { forall i :: 0 <= i < |s| ==> IsDigit(s[i]) }

  function DigitChar(d: nat): (c: char)
    requires d < 10
    ensures IsDigit(c) && (c - '0') as nat == d
  {
    "0123456789"[d]
  }

  /** Decimal rendering of `n` without sign or leading zeros, as `str(n)` does. */
  function NatToString(n: nat): (s: string)
    ensures |s| > 0 && AllDigits(s)
    ensures s[0] == '0' ==> n == 0
    decreases n
  {
    if n < 10 then [DigitChar(n)] else NatToString(n / 10) + [DigitChar(n % 10)]
  }

  /** The value a string of decimal digits denotes (Python's `int` on such a string). */
  function DecimalValue(s: string): nat
    requires AllDigits(s)
  {
    if s == [] then 0 else 10 * DecimalValue(s[..|s| - 1]) + (s[|s| - 1] - '0') as nat
  }

  /** `int(str(n)) == n`: the decimal rendering loses nothing. */
  lemma {:induction false} DecimalRoundTrip(n: nat)
    ensures DecimalValue(NatToString(n)) == n
  {
    var s := NatToString(n);
    if n >= 10 {
      DecimalRoundTrip(n / 10);
      assert s[..|s| - 1] == NatToString(n / 10);
    }
  }

  /** Distinct numbers have distinct renderings, so row names never collide. */
  lemma NatToStringInjective(m: nat, n: nat)
    requires NatToString(m) == NatToString(n)
    ensures m == n
  {
    DecimalRoundTrip(m);
    DecimalRoundTrip(n);
  }

  /** `pattern` occurs in `text` starting at offset `at`. */
  predicate OccursAt(pattern: string, text: string, at: int)
  {
    0 <= at && at + |pattern| <= |text| && text[at..at + |pattern|] == pattern
  }

  /**
   * Forward search of `text` for `pattern` from offset `from` to the end:
   * the earliest offset at or after `from` where it occurs.
   */
  function FindFrom(pattern: string, text: string, from: nat): (r: Option<nat>)
    ensures r.Some? ==> from <= r.value && OccursAt(pattern, text, r.value)
    ensures r.Some? ==> forall j :: from <= j < r.value ==> !OccursAt(pattern, text, j)
    ensures r.None? ==> forall j :: from <= j ==> !OccursAt(pattern, text, j)
    decreases |text| - from
  {
    if from + |pattern| > |text| then None
    else if text[from..from + |pattern|] == pattern then Some(from)
    else FindFrom(pattern, text, from + 1)
  }

  /** Search of the whole text: the earliest occurrence, or None when there is none. */
  function FirstIndexOf(pattern: string, text: string): (r: Option<nat>)
    ensures r.Some? ==> OccursAt(pattern, text, r.value)
    ensures r.Some? ==> forall j :: 0 <= j < r.value ==> !OccursAt(pattern, text, j)
    ensures r.None? <==> forall j :: 0 <= j ==> !OccursAt(pattern, text, j)
  {
    FindFrom(pattern, text, 0)
  }

  /** An occurrence anywhere means the search succeeds no later than it. */
  lemma FoundNoLaterThan(pattern: string, text: string, at: nat)
    requires OccursAt(pattern, text, at)
    ensures FirstIndexOf(pattern, text).Some?
    ensures FirstIndexOf(pattern, text).value <= at
  {
  }

  /** An occurrence survives appending text on either side. */
  lemma OccursInContext(pattern: string, before: string, text: string, after: string, at: nat)
    requires OccursAt(pattern, text, at)
    ensures OccursAt(pattern, before + text + after, |before| + at)
  {
    var whole := before + text + after;
    assert whole[|before| + at..|before| + at + |pattern|] == text[at..at + |pattern|];
  }

  /** Number of occurrences of character `c` in `s`. */
  function Count(c: char, s: string): nat
  {
    if s == [] then 0 else Count(c, s[..|s| - 1]) + (if s[|s| - 1] == c then 1 else 0)
  }

  lemma {:induction false} CountConcat(c: char, s: string, t: string)
    ensures Count(c, s + t) == Count(c, s) + Count(c, t)
  {
    if t != [] {
      assert (s + t)[..|s + t| - 1] == s + t[..|t| - 1];
      CountConcat(c, s, t[..|t| - 1]);
    } else {
      assert s + t == s;
    }
  }

  lemma {:induction false} CountAbsent(c: char, s: string)
    requires forall i :: 0 <= i < |s| ==> s[i] != c
    ensures Count(c, s) == 0
  {
    if s != [] {
      CountAbsent(c, s[..|s| - 1]);
    }
  }
}
