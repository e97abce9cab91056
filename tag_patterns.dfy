/**
 The two regular expressions `getNextVersion` builds, read as string
 predicates for the formats the model covers (no regex syntax other than `.`).

 - The revision regex is `P(\d+)S$`, where P and S are the format before and
   after its first `${rev}` with every dot escaped: P and S match literally,
   the match must end at the end of the tag but may start anywhere, and
   `match` takes the leftmost start, so the capture is the longest digit run.
 - The release-candidate regex is `<tag>-rc(\d+)`, not escaped and not
   anchored: every `.` of `<tag>` stands for any character but a line
   terminator, and the capture is the whole digit run after `-rc` at the
   leftmost place where the pattern fits.
 */
module TagPatterns {
  import opened Wrappers
  import opened JsBuiltins
  import opened Placeholders

  /** Characters a JavaScript regular expression reads as syntax, the dot aside. */
  predicate IsRegexSyntax(c: char) {
    c in "\\^$|?*+()[]{}"
  }

  predicate IsPlainText(s: string) {
    forall i | 0 <= i < |s| :: !IsRegexSyntax(s[i])
  }

  /** What `getNextVersion` does with the format once its first `${rev}` is cut out. */
  datatype RevisionRegex =
    | WithCapture(before: string, after: string)
    | WithoutCapture

  /** Lines 65-67: the format split at its first `${rev}`, if any. */
  function RevisionRegexOf(tagFormat: string): (rx: RevisionRegex)
    ensures rx.WithCapture? <==> Contains(tagFormat, Rev)
    ensures rx.WithCapture? ==> tagFormat == rx.before + Rev + rx.after
  {
    match IndexOf(tagFormat, Rev)
    case None => WithoutCapture
    case Some(i) => WithCapture(tagFormat[..i], tagFormat[i + |Rev|..])
  }

  /** Filling the slot: `replace("${rev}", rep)` puts `rep` between the two halves. */
  lemma FillSlot(tagFormat: string, rep: string)
    requires HasNoDollar(rep)
    ensures match RevisionRegexOf(tagFormat)
            case WithCapture(before, after) => ReplaceFirst(tagFormat, Rev, rep) == before + rep + after
            case WithoutCapture => ReplaceFirst(tagFormat, Rev, rep) == tagFormat
  {
    var rx := RevisionRegexOf(tagFormat);
    if rx.WithCapture? {
      var k := |rx.before|;
      assert IndexOf(tagFormat, Rev) == Some(k);
      assert IsFirstOccurrence(tagFormat, Rev, k);
      assert tagFormat[..k] == rx.before;
      assert tagFormat[k + |Rev|..] == rx.after;
    }
  }

  /** A format whose first `${rev}` follows `a` splits right there. */
  lemma SplitAtFirstRev(a: string, b: string)
    requires !Contains(a, Rev)
    ensures RevisionRegexOf(a + Rev + b) == WithCapture(a, b)
  {
    var tagFormat := a + Rev + b;
    PlaceholdersAreDistinct();
    FirstAfterCleanPrefix(a, Rev, b);
    var i := IndexOf(tagFormat, Rev);
    assert i == Some(|a|) by {
      assert i.Some? && IsFirstOccurrence(tagFormat, Rev, i.value);
      assert !(i.value < |a|) && !(|a| < i.value);
    }
    assert tagFormat[..|a|] == a;
    assert tagFormat[|a| + |Rev|..] == b;
  }

  /**
   A format both regexes read the way this model does: apart from one
   `${rev}`, nothing but literal text and dots.
   */
  predicate IsPlainFormat(tagFormat: string) {
    match RevisionRegexOf(tagFormat)
    case WithoutCapture => IsPlainText(tagFormat)
    case WithCapture(before, after) => IsPlainText(before) && IsPlainText(after)
  }

  /** The source text of the revision regex, as line 66 assembles it. */
  function RevisionPatternSource(tagFormat: string): string {
    EscapeDots(ReplaceFirst(tagFormat, Rev, "(\\d+)")) + "$"
  }

  /**
   The regex source is the escaped text before `${rev}`, one capture group
   of digits, the escaped text after, and the end anchor; without `${rev}`
   it is the escaped format with no group at all.
   */
  lemma RevisionPatternShape(tagFormat: string)
    ensures match RevisionRegexOf(tagFormat)
            case WithCapture(before, after) =>
              RevisionPatternSource(tagFormat) == EscapeDots(before) + "(\\d+)" + EscapeDots(after) + "$"
            case WithoutCapture =>
              RevisionPatternSource(tagFormat) == EscapeDots(tagFormat) + "$"
  {
    DigitGroupHasNoDot();
    EscapedSlot(tagFormat, "(\\d+)");
  }

  /** Filling the slot with a text the escape leaves alone, then escaping. */
  lemma EscapedSlot(tagFormat: string, group: string)
    requires HasNoDollar(group) && EscapeDots(group) == group
    ensures var rx := RevisionRegexOf(tagFormat);
            rx.WithCapture? ==>
              EscapeDots(ReplaceFirst(tagFormat, Rev, group)) == EscapeDots(rx.before) + group + EscapeDots(rx.after)
    ensures RevisionRegexOf(tagFormat).WithoutCapture? ==>
              EscapeDots(ReplaceFirst(tagFormat, Rev, group)) == EscapeDots(tagFormat)
  {
    FillSlot(tagFormat, group);
    var rx := RevisionRegexOf(tagFormat);
    if rx.WithCapture? {
      EscapeAroundDotless(rx.before, group, rx.after);
    }
  }

  /** Escaping `a + g + b` where `g` has no dot escapes `a` and `b` and keeps `g`. */
  lemma EscapeAroundDotless(a: string, g: string, b: string)
    requires EscapeDots(g) == g
    ensures EscapeDots(a + g + b) == EscapeDots(a) + g + EscapeDots(b)
  {
    EscapeDotsAppend(a + g, b);
    EscapeDotsAppend(a, g);
  }

  /** The capture group the slot becomes has no dot for the escape to touch. */
  lemma DigitGroupHasNoDot()
    ensures EscapeDots("(\\d+)") == "(\\d+)"
  {
    var group := "(\\d+)";
    assert forall i | 0 <= i < |group| :: group[i] != '.';
    EscapeDotsWithoutDots(group);
  }

  /**
   `P(\d+)S$` matches `tag` from index `k`: P at `k`, S at the very end,
   and one or more digits and nothing else in between.
   */
  predicate RevisionMatchAt(tag: string, before: string, after: string, k: nat) {
    && k + |before| + |after| < |tag|
    && tag[k..k + |before|] == before
    && tag[|tag| - |after|..] == after
    && AllDigits(tag[k + |before|..|tag| - |after|])
  }

  /** The leftmost index from `from` on where the revision regex matches. */
  function FirstRevisionMatch(tag: string, before: string, after: string, from: nat): (k: Option<nat>)
    ensures k.Some? ==> from <= k.value && RevisionMatchAt(tag, before, after, k.value)
    ensures k.Some? ==> forall j: nat | from <= j < k.value :: !RevisionMatchAt(tag, before, after, j)
    ensures k.None? ==> forall j: nat | from <= j :: !RevisionMatchAt(tag, before, after, j)
    decreases |tag| - from
  {
    if |tag| <= from + |before| + |after| then None
    else if RevisionMatchAt(tag, before, after, from) then Some(from)
    else FirstRevisionMatch(tag, before, after, from + 1)
  }

  /**
   The first capture group of a revision-regex match: the digits captured at the leftmost match.
   A format without `${rev}` yields a regex with no group; the model captures
   nothing there (the source reads `NaN`, which never reaches the output).
   */
  function RevisionCapture(tag: string, rx: RevisionRegex): (digits: Option<string>)
    ensures digits.Some? ==> rx.WithCapture? && |digits.value| >= 1 && AllDigits(digits.value)
  {
    match rx
    case WithoutCapture => None
    case WithCapture(before, after) =>
      match FirstRevisionMatch(tag, before, after, 0)
      case None => None
      case Some(k) => Some(tag[k + |before|..|tag| - |after|])
  }

  /** The captured revision read in base 10, for a tag the revision regex matches. */
  function RevisionOf(tag: string, rx: RevisionRegex): (revision: Option<nat>)
    ensures revision.Some? <==> RevisionCapture(tag, rx).Some?
  {
    match RevisionCapture(tag, rx)
    case None => None
    case Some(digits) => Some(ParseDecimal(digits))
  }

  /** The revision regex captures exactly when it matches somewhere in the tag. */
  lemma RevisionCaptureIff(tag: string, rx: RevisionRegex)
    ensures RevisionCapture(tag, rx).Some?
            <==> rx.WithCapture? && exists k: nat | k <= |tag| :: RevisionMatchAt(tag, rx.before, rx.after, k)
  {
    if rx.WithCapture? && FirstRevisionMatch(tag, rx.before, rx.after, 0).Some? {
      var k := FirstRevisionMatch(tag, rx.before, rx.after, 0).value;
      assert k <= |tag| && RevisionMatchAt(tag, rx.before, rx.after, k);
    }
  }

  /**
   A tag counts for a format `P${rev}S` exactly when it ends with P, then a
   non-empty run of digits, then S.
   */
  lemma RevisionCountsIff(tag: string, before: string, after: string)
    ensures RevisionOf(tag, WithCapture(before, after)).Some?
            <==> exists lead: string, digits: string ::
                   |digits| >= 1 && AllDigits(digits) && tag == lead + before + digits + after
  {
    var rx := WithCapture(before, after);
    RevisionCaptureIff(tag, rx);
    if RevisionOf(tag, rx).Some? {
      var k: nat :| k <= |tag| && RevisionMatchAt(tag, before, after, k);
      MatchSplitsTag(tag, before, after, k);
    }
    if exists lead: string, digits: string ::
         |digits| >= 1 && AllDigits(digits) && tag == lead + before + digits + after {
      var lead: string, digits: string :|
        |digits| >= 1 && AllDigits(digits) && tag == lead + before + digits + after;
      SplitTagMatches(lead, before, digits, after);
    }
  }

  /**
   What the revision regex captures from a tag it matches: the longest run
   of digits the tag allows. For every way of reading the tag as a lead, P,
   digits `d` and S, the capture ends with `d`, the tag reads as a lead, P,
   the capture and S, and the revision is the capture in base 10.
   */
  lemma RevisionCaptureIsLongest(tag: string, lead: string, before: string, digits: string, after: string)
    requires |digits| >= 1 && AllDigits(digits) && tag == lead + before + digits + after
    ensures var rx := WithCapture(before, after);
            var capture := RevisionCapture(tag, rx);
            && capture.Some?
            && |digits| <= |capture.value|
            && capture.value[|capture.value| - |digits|..] == digits
            && tag == tag[..|tag| - |after| - |capture.value| - |before|] + before + capture.value + after
            && RevisionOf(tag, rx) == Some(ParseDecimal(capture.value))
  {
    SplitTagMatches(lead, before, digits, after);
    var k := FirstRevisionMatch(tag, before, after, 0);
    assert k.Some? && k.value <= |lead|;
    MatchSplitsTag(tag, before, after, k.value);
    var capture := tag[k.value + |before|..|tag| - |after|];
    assert tag[|tag| - |after| - |digits|..|tag| - |after|] == digits;
    assert capture[|capture| - |digits|..] == tag[|tag| - |after| - |digits|..|tag| - |after|];
  }

  /** A match at `k` cuts the tag into a lead, P, the digits and S. */
  lemma MatchSplitsTag(tag: string, before: string, after: string, k: nat)
    requires RevisionMatchAt(tag, before, after, k)
    ensures var digits := tag[k + |before|..|tag| - |after|];
            |digits| >= 1 && AllDigits(digits) && tag == tag[..k] + before + digits + after
  {
    var lead, digits := tag[..k], tag[k + |before|..|tag| - |after|];
    assert tag == lead + before + digits + after;
  }

  /** A lead, P, a run of digits and S: the regex matches right after the lead. */
  lemma SplitTagMatches(lead: string, before: string, digits: string, after: string)
    requires |digits| >= 1 && AllDigits(digits)
    ensures RevisionMatchAt(lead + before + digits + after, before, after, |lead|)
  {
    var tag := lead + before + digits + after;
    var k := |lead|;
    assert tag[k..k + |before|] == before;
    assert tag[|tag| - |after|..] == after;
    assert tag[k + |before|..|tag| - |after|] == digits;
  }

  /** A tag that is the format with digits in the slot yields exactly those digits. */
  lemma RevisionOfFilledFormat(before: string, digits: string, after: string)
    requires |digits| >= 1 && AllDigits(digits)
    ensures RevisionCapture(before + digits + after, WithCapture(before, after)) == Some(digits)
  {
    var tag := before + digits + after;
    assert tag[0..|before|] == before;
    assert tag[|tag| - |after|..] == after;
    assert tag[|before|..|tag| - |after|] == digits;
    assert RevisionMatchAt(tag, before, after, 0);
  }

  /** A tag that is the format with the number `n` in the slot has revision `n`. */
  lemma RevisionOfNumber(before: string, after: string, n: nat)
    ensures RevisionOf(before + DecimalString(n) + after, WithCapture(before, after)) == Some(n)
  {
    RevisionOfFilledFormat(before, DecimalString(n), after);
    DecimalRoundTrip(n);
  }

  /**
   A tag with a non-digit at `p`, inside the stretch the digits would have to
   cover, and no P starting from `p + 1 - |P|` on, has no revision.
   */
  lemma NoRevisionPastNonDigit(tag: string, before: string, after: string, p: nat)
    requires |before| <= p + 1 && p + |after| < |tag| && !IsDigit(tag[p])
    requires !Contains(tag[p + 1 - |before|..], before)
    ensures RevisionOf(tag, WithCapture(before, after)).None?
  {
    var rx := WithCapture(before, after);
    RevisionCaptureIff(tag, rx);
    var from := p + 1 - |before|;
    forall k: nat | k <= |tag|
      ensures !RevisionMatchAt(tag, before, after, k)
    {
      if k + |before| <= p {
        var digits := tag[k + |before|..|tag| - |after|];
        assert digits[p - k - |before|] == tag[p];
      } else if k + |before| <= |tag| {
        assert tag[from..][k - from..k - from + |before|] == tag[k..k + |before|];
        assert !OccursAt(tag[from..], before, k - from);
      }
    }
  }

  /** JavaScript's line terminators, which `.` does not match. */
  predicate IsLineTerminator(c: char) {
    c == '\n' || c == '\r' || c == '\U{2028}' || c == '\U{2029}'
  }

  /** One character of the unescaped template against one character of the tag. */
  predicate CharFits(pattern: char, c: char) {
    if pattern == '.' then !IsLineTerminator(c) else c == pattern
  }

  /** The unescaped `template` matches `tag` at `k`, each `.` standing for one character. */
  predicate TemplateAt(tag: string, template: string, k: nat)
    decreases |template|
  {
    if |template| == 0 then k <= |tag|
    else k < |tag| && CharFits(template[0], tag[k]) && TemplateAt(tag, template[1..], k + 1)
  }

  /** A template matches wherever the tag holds a copy of it, dots included. */
  lemma {:induction false} TemplateMatchesCopy(tag: string, template: string, k: nat)
    requires k + |template| <= |tag|
    requires forall j | 0 <= j < |template| :: tag[k + j] == template[j]
    ensures TemplateAt(tag, template, k)
    decreases |template|
  {
    if |template| > 0 {
      assert tag[k + 0] == template[0];
      forall j | 0 <= j < |template| - 1
        ensures tag[k + 1 + j] == template[1..][j]
      {
        assert tag[k + (j + 1)] == template[j + 1];
      }
      TemplateMatchesCopy(tag, template[1..], k + 1);
    }
  }

  /** `<template>-rc\d` matches `tag` from index `k`. */
  predicate RcMatchAt(tag: string, template: string, k: nat) {
    && TemplateAt(tag, template, k)
    && k + |template| + 3 < |tag|
    && tag[k + |template|] == '-' && tag[k + |template| + 1] == 'r' && tag[k + |template| + 2] == 'c'
    && IsDigit(tag[k + |template| + 3])
  }

  /** The leftmost index from `from` on where the release-candidate regex matches. */
  function FirstRcMatch(tag: string, template: string, from: nat): (k: Option<nat>)
    ensures k.Some? ==> from <= k.value && RcMatchAt(tag, template, k.value)
    ensures k.Some? ==> forall j: nat | from <= j < k.value :: !RcMatchAt(tag, template, j)
    ensures k.None? ==> forall j: nat | from <= j :: !RcMatchAt(tag, template, j)
    decreases |tag| - from
  {
    if |tag| <= from + |template| + 3 then None
    else if RcMatchAt(tag, template, from) then Some(from)
    else FirstRcMatch(tag, template, from + 1)
  }

  /** The end of the run of digits in `s` that starts at `from`. */
  function DigitRunEnd(s: string, from: nat): (end: nat)
    requires from <= |s|
    ensures from <= end <= |s|
    ensures AllDigits(s[from..end])
    ensures end < |s| ==> !IsDigit(s[end])
    decreases |s| - from
  {
    if from < |s| && IsDigit(s[from]) then
      var end := DigitRunEnd(s, from + 1);
      assert s[from..end] == [s[from]] + s[from + 1..end];
      end
    else from
  }

  /** The first capture group of an RC-regex match: the greedy `\d+` after `-rc` at the leftmost match. */
  function RcCapture(tag: string, template: string): (digits: Option<string>)
    ensures digits.Some? ==> |digits.value| >= 1 && AllDigits(digits.value)
  {
    match FirstRcMatch(tag, template, 0)
    case None => None
    case Some(k) =>
      var start := k + |template| + 3;
      Some(tag[start..DigitRunEnd(tag, start)])
  }

  /** Whether the RC regex accepts the tag, and if so its captured RC number read in base 10. */
  function RcOf(tag: string, template: string): (rc: Option<nat>)
    ensures rc.Some? <==> RcCapture(tag, template).Some?
  {
    match RcCapture(tag, template)
    case None => None
    case Some(digits) => Some(ParseDecimal(digits))
  }

  /** The RC regex accepts a tag exactly when the pattern fits somewhere in it. */
  lemma RcCaptureIff(tag: string, template: string)
    ensures RcCapture(tag, template).Some? <==> exists k: nat | k <= |tag| :: RcMatchAt(tag, template, k)
  {
    if FirstRcMatch(tag, template, 0).Some? {
      var k := FirstRcMatch(tag, template, 0).value;
      assert k <= |tag| && RcMatchAt(tag, template, k);
    }
  }

  /**
   What the RC regex captures, given the leftmost place `k` where the
   pattern fits: the whole run of digits that starts right after `-rc`,
   ending at the end of the tag or before a non-digit; the RC number is that
   run in base 10.
   */
  lemma RcCaptureAt(tag: string, template: string, k: nat)
    requires RcMatchAt(tag, template, k)
    requires forall j: nat | j < k :: !RcMatchAt(tag, template, j)
    ensures var start := k + |template| + 3;
            var capture := RcCapture(tag, template);
            && capture.Some?
            && start + |capture.value| <= |tag|
            && tag[start..start + |capture.value|] == capture.value
            && (start + |capture.value| == |tag| || !IsDigit(tag[start + |capture.value|]))
            && RcOf(tag, template) == Some(ParseDecimal(capture.value))
  {
    var first := FirstRcMatch(tag, template, 0);
    assert first == Some(k);
  }

  /**
   A tag that is the template itself, `-rc` and a number yields that
   number: the template matches itself, dots included.
   */
  lemma RcOfCandidate(template: string, n: nat)
    ensures RcOf(template + "-rc" + DecimalString(n), template) == Some(n)
  {
    RcCaptureOfCandidate(template, DecimalString(n));
    DecimalRoundTrip(n);
  }

  /** The RC regex captures, from the template, `-rc` and digits, those digits. */
  lemma RcCaptureOfCandidate(template: string, digits: string)
    requires |digits| >= 1 && AllDigits(digits)
    ensures RcCapture(template + "-rc" + digits, template) == Some(digits)
  {
    var tag := template + "-rc" + digits;
    var start := |template| + 3;
    assert RcMatchAt(tag, template, 0) by {
      CandidateMatchesAtStart(template, digits);
    }
    assert FirstRcMatch(tag, template, 0) == Some(0);
    assert tag[start..] == digits;
    DigitRunToEnd(tag, start);
    assert tag[start..DigitRunEnd(tag, start)] == digits;
  }

  /** The RC regex matches the template, `-rc` and digits from the first character on. */
  lemma CandidateMatchesAtStart(template: string, digits: string)
    requires |digits| >= 1 && AllDigits(digits)
    ensures RcMatchAt(template + "-rc" + digits, template, 0)
  {
    var tag := template + "-rc" + digits;
    var k := |template|;
    assert TemplateAt(tag, template, 0) by {
      assert forall j | 0 <= j < |template| :: tag[0 + j] == template[j];
      TemplateMatchesCopy(tag, template, 0);
    }
    assert tag[k] == '-' && tag[k + 1] == 'r' && tag[k + 2] == 'c';
    assert tag[k + 3] == digits[0];
  }

  /** A run of digits that reaches the end of `s` ends there. */
  lemma {:induction false} DigitRunToEnd(s: string, from: nat)
    requires from <= |s| && AllDigits(s[from..])
    ensures DigitRunEnd(s, from) == |s|
    decreases |s| - from
  {
    if from < |s| {
      assert s[from] == s[from..][0];
      assert s[from + 1..] == s[from..][1..];
      DigitRunToEnd(s, from + 1);
    }
  }
}
