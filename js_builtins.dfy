/**
 The JavaScript built-ins the tag logic relies on, restricted to the inputs it
 gives them: `String(n)` of a non-negative integer, `parseInt(s, 10)` of a run
 of decimal digits, `padStart` with a one-character fill, `String.replace` with
 a string pattern, the global dot escape `replace(/\./g, "\\.")` and `Math.max`.
 */
module JsBuiltins {
  import opened Wrappers

  /** `\d` in a JavaScript regular expression: an ASCII decimal digit. */
  predicate IsDigit(c: char) {
    '0' <= c <= '9'
  }

  predicate AllDigits(s: string) {
    forall i | 0 <= i < |s| :: IsDigit(s[i])
  }

  function DigitValue(c: char): (d: nat)
    requires IsDigit(c)
    ensures d <= 9
  {
    c as int - '0' as int
  }

  function DigitChar(d: nat): (c: char)
    requires d <= 9
    ensures IsDigit(c) && DigitValue(c) == d
  {
    ('0' as int + d) as char
  }

  /** `Math.max` on the non-negative numbers the source compares. */
  function Max(a: nat, b: nat): (m: nat)
    ensures a <= m && b <= m
    ensures m == a || m == b
  {
    if a < b then b else a
  }

  /**
   `String(n)`, which is also what a template literal or `replace` makes of a
   number: plain decimal digits, no padding, and a leading zero only for 0.
   */
  function DecimalString(n: nat): (s: string)
    ensures |s| >= 1 && AllDigits(s)
    ensures (s[0] == '0') == (n == 0)
    decreases n
  {
    if n < 10 then [DigitChar(n)] else DecimalString(n / 10) + [DigitChar(n % 10)]
  }

  /** `parseInt(s, 10)` for a string of decimal digits; leading zeros count as zeros. */
  function ParseDecimal(s: string): (n: nat)
    requires AllDigits(s)
    decreases |s|
  {
    if |s| == 0 then 0 else ParseDecimal(s[..|s| - 1]) * 10 + DigitValue(s[|s| - 1])
  }

  /** `String(10 * n + d)` is `String(n)` with the digit `d` appended. */
  lemma DecimalStep(n: nat, d: nat)
    requires 1 <= n && d <= 9
    ensures DecimalString(10 * n + d) == DecimalString(n) + [DigitChar(d)]
  {
    assert (10 * n + d) / 10 == n;
    assert (10 * n + d) % 10 == d;
  }

  /** Reading back what `String(n)` wrote gives `n`. */
  lemma {:induction false} DecimalRoundTrip(n: nat)
    ensures ParseDecimal(DecimalString(n)) == n
  {
    var s := DecimalString(n);
    if n < 10 {
      assert s[..|s| - 1] == [];
    } else {
      var t := DecimalString(n / 10);
      assert s[..|s| - 1] == t;
      DecimalRoundTrip(n / 10);
    }
  }

  /** `String(n)` is one-to-one. */
  lemma DecimalStringInjective(m: nat, n: nat)
    requires DecimalString(m) == DecimalString(n)
    ensures m == n
  {
    DecimalRoundTrip(m);
    DecimalRoundTrip(n);
  }

  /** A leading zero does not change what `parseInt` reads: "01" is 1. */
  lemma {:induction false} LeadingZeroIgnored(s: string)
    requires AllDigits(s)
    ensures ParseDecimal("0" + s) == ParseDecimal(s)
  {
    var z := "0" + s;
    if |s| == 0 {
      assert z[..|z| - 1] == [];
    } else {
      var init := s[..|s| - 1];
      assert z[..|z| - 1] == "0" + init;
      LeadingZeroIgnored(init);
    }
  }

  function Repeat(c: char, k: nat): (r: string)
    ensures |r| == k
    ensures forall i | 0 <= i < k :: r[i] == c
  {
    if k == 0 then [] else [c] + Repeat(c, k - 1)
  }

  /** `s.padStart(width, fill)` for a one-character `fill`. */
  function PadStart(s: string, width: nat, fill: char): (r: string)
    ensures |r| == if |s| < width then width else |s|
    ensures r[|r| - |s|..] == s
    ensures forall i | 0 <= i < |r| - |s| :: r[i] == fill
  {
    if |s| < width then Repeat(fill, width - |s|) + s else s
  }

  /** `pat` occurs in `s` at index `i`. */
  predicate OccursAt(s: string, pat: string, i: nat) {
    i + |pat| <= |s| && s[i..i + |pat|] == pat
  }

  predicate Contains(s: string, pat: string) {
    exists i: nat | i <= |s| :: OccursAt(s, pat, i)
  }

  /** `i` is where `s.indexOf(pat)` finds `pat`. */
  predicate IsFirstOccurrence(s: string, pat: string, i: nat) {
    OccursAt(s, pat, i) && forall j: nat | j < i :: !OccursAt(s, pat, j)
  }

  /** `s.indexOf(pat, from)`, with `None` for -1. */
  function IndexOfFrom(s: string, pat: string, from: nat): (r: Option<nat>)
    ensures r.Some? ==> from <= r.value && OccursAt(s, pat, r.value)
    ensures r.Some? ==> forall j: nat | from <= j < r.value :: !OccursAt(s, pat, j)
    ensures r.None? ==> forall j: nat | from <= j :: !OccursAt(s, pat, j)
    decreases |s| - from
  {
    if |s| < from + |pat| then None
    else if s[from..from + |pat|] == pat then Some(from)
    else IndexOfFrom(s, pat, from + 1)
  }

  function IndexOf(s: string, pat: string): (r: Option<nat>)
    ensures r.Some? ==> IsFirstOccurrence(s, pat, r.value)
    ensures r.None? <==> !Contains(s, pat)
  {
    IndexOfFrom(s, pat, 0)
  }

  /** No `$` in a replacement: JavaScript's `$&`, `$1`, `$$` substitutions do not arise. */
  predicate HasNoDollar(rep: string) {
    forall i | 0 <= i < |rep| :: rep[i] != '$'
  }

  /**
   `s.replace(pat, rep)` with a string pattern: only the first occurrence of
   `pat` is replaced, and a string without `pat` comes back as it was.
   */
  function ReplaceFirst(s: string, pat: string, rep: string): (r: string)
    requires HasNoDollar(rep)
    ensures !Contains(s, pat) ==> r == s
    ensures forall i: nat {:trigger IsFirstOccurrence(s, pat, i)} ::
              IsFirstOccurrence(s, pat, i) ==> r == s[..i] + rep + s[i + |pat|..]
  {
    match IndexOf(s, pat)
    case None => s
    case Some(i) => s[..i] + rep + s[i + |pat|..]
  }

  /** `s.replace(/\./g, "\\.")`: a backslash goes in front of every dot. */
  function EscapeDots(s: string): (r: string)
    ensures |r| >= |s|
    ensures |r| > 0 ==> r[0] != '.'
    decreases |s|
  {
    if |s| == 0 then []
    else (if s[0] == '.' then "\\." else [s[0]]) + EscapeDots(s[1..])
  }

  /** Reading an escaped text back: `\.` is a dot, anything else stands for itself. */
  function UnescapeDots(r: string): string
    decreases |r|
  {
    if |r| == 0 then []
    else if |r| >= 2 && r[0] == '\\' && r[1] == '.' then "." + UnescapeDots(r[2..])
    else [r[0]] + UnescapeDots(r[1..])
  }

  /** Escaping loses nothing: every text, backslashes included, reads back as itself. */
  lemma {:induction false} EscapeDotsRoundTrip(s: string)
    ensures UnescapeDots(EscapeDots(s)) == s
    decreases |s|
  {
    if |s| > 0 {
      var rest := EscapeDots(s[1..]);
      EscapeDotsRoundTrip(s[1..]);
      if s[0] == '.' {
        assert EscapeDots(s) == "\\." + rest;
        assert ("\\." + rest)[2..] == rest;
      } else {
        assert EscapeDots(s) == [s[0]] + rest;
        assert ([s[0]] + rest)[1..] == rest;
      }
      assert s == [s[0]] + s[1..];
    }
  }

  /** A text without dots is its own escape. */
  lemma {:induction false} EscapeDotsWithoutDots(s: string)
    requires forall i | 0 <= i < |s| :: s[i] != '.'
    ensures EscapeDots(s) == s
    decreases |s|
  {
    if |s| > 0 {
      EscapeDotsWithoutDots(s[1..]);
      assert s == [s[0]] + s[1..];
    }
  }

  lemma {:induction false} EscapeDotsAppend(a: string, b: string)
    ensures EscapeDots(a + b) == EscapeDots(a) + EscapeDots(b)
    decreases |a|
  {
    if |a| == 0 {
      assert a + b == b;
    } else {
      assert (a + b)[1..] == a[1..] + b;
      EscapeDotsAppend(a[1..], b);
    }
  }

  /** A slice that lies inside the first part of `x + y` is a slice of `x`. */
  lemma SliceInPrefix(x: string, y: string, i: nat, n: nat)
    requires i + n <= |x|
    ensures (x + y)[i..i + n] == x[i..i + n]
  {
  }

  /** A slice that lies inside the second part of `x + y` is a slice of `y`. */
  lemma SliceInSuffix(x: string, y: string, i: nat, n: nat)
    requires i + n <= |y|
    ensures (x + y)[|x| + i..|x| + i + n] == y[i..i + n]
  {
  }

  /** A pattern whose first character appears nowhere in `s` does not occur in `s`. */
  lemma FirstCharMissing(s: string, pat: string)
    requires |pat| >= 1 && forall i | 0 <= i < |s| :: s[i] != pat[0]
    ensures !Contains(s, pat)
  {
    forall i: nat | i <= |s|
      ensures !OccursAt(s, pat, i)
    {
      if i + |pat| <= |s| {
        assert s[i..i + |pat|][0] == s[i];
      }
    }
  }

  /** An occurrence inside `a` or inside `b` is an occurrence in `a + x + b`. */
  lemma ContainsInParts(a: string, x: string, b: string, pat: string)
    requires Contains(a, pat) || Contains(b, pat)
    ensures Contains(a + x + b, pat)
  {
    var s := a + x + b;
    if Contains(a, pat) {
      var i: nat :| i <= |a| && OccursAt(a, pat, i);
      assert s[i..i + |pat|] == a[i..i + |pat|];
      assert OccursAt(s, pat, i);
    } else {
      var i: nat :| i <= |b| && OccursAt(b, pat, i);
      var j := |a| + |x| + i;
      assert s[j..j + |pat|] == b[i..i + |pat|];
      assert OccursAt(s, pat, j);
    }
  }
}
