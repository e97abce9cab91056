/**
 The repository's test cases (`__tests__/main.test.js`), stated as lemmas
 about the model, and two more that show how the regexes read a tag: the
 revision regex is not anchored at the start, and the release-candidate
 regex leaves the dots unescaped. Most lemmas take the tag prefix as a
 parameter, so that they hold for every prefix of the right kind.
 */
module Scenarios {
  import opened Wrappers
  import opened JsBuiltins
  import opened Placeholders
  import opened TagFormat
  import opened TagPatterns
  import opened Bump

  /**
   The prefix of the `v1.4.5.${rev}` tests. The lemmas about it take the
   prefix as a parameter equal to this constant rather than the literal
   itself: the verifier then reasons about one symbol instead of unfolding
   every function on the literal text.
   */
  const VersionPrefix: string := "v1.4.5."

  lemma Year2023()
    ensures DecimalString(2023) == "2023"
  {
    DecimalStep(2, 0);
    DecimalStep(20, 2);
    DecimalStep(202, 3);
  }

  lemma AprilText()
    ensures MonthText(4) == "04"
  {
  }

  /** `${year}.${month}` is the year slot, a dot and the month slot. */
  lemma YearDotMonth(tail: string)
    ensures "${year}.${month}" + tail == "" + Year + "." + Month + tail
    ensures !Contains("", Year) && !Contains("", Month) && !Contains(".", Month)
  {
    PlaceholdersAreDistinct();
    DollarFreeHasNoPlaceholder(".", Month);
  }

  /**
   Overrides from the version object win over the clock: `${year}.${month}`
   with year 2023 and month 4 gives "2023.04", and whatever follows, such as
   the `-tk-config-default2.1.4.5.${rev}` of the test suite, stays as it is.
   */
  lemma ResolveFromVersionObject(tail: string, currentYear: nat, currentMonth: nat)
    ensures ResolveTagFormat("${year}.${month}" + tail, Some(VersionObject(Some(2023), Some(4))),
                             currentYear, currentMonth) == "2023.04" + tail
  {
    var versionObject := Some(VersionObject(Some(2023), Some(4)));
    YearDotMonth(tail);
    ResolveYearThenMonth("", ".", tail, versionObject, currentYear, currentMonth);
    assert OrElse(OverrideYear(versionObject), currentYear) == 2023;
    assert OrElse(OverrideMonth(versionObject), currentMonth) == 4;
    Year2023();
    AprilText();
    assert "" + "2023" + "." + "04" + tail == "2023.04" + tail;
  }

  /**
   Without a version object the clock decides, whatever the date: the year
   in decimal, a dot, and the month padded to two digits.
   */
  lemma ResolveFromClock(tail: string, currentYear: nat, currentMonth: nat)
    ensures ResolveTagFormat("${year}.${month}" + tail, None, currentYear, currentMonth)
            == DecimalString(currentYear) + "." + MonthText(currentMonth) + tail
  {
    var year, month := DecimalString(currentYear), MonthText(currentMonth);
    YearDotMonth(tail);
    ResolveYearThenMonth("", ".", tail, None, currentYear, currentMonth);
    assert OrElse(OverrideYear(None), currentYear) == currentYear;
    assert OrElse(OverrideMonth(None), currentMonth) == currentMonth;
    EmptyLead(year, ".", month, tail);
  }

  lemma EmptyLead(x: string, a: string, b: string, c: string)
    ensures "" + x + a + b + c == x + a + b + c
  {
    assert "" + x == x;
  }

  /** A format with no placeholder comes back as it is. */
  lemma ResolvePlainFormat(versionObject: Option<VersionObject>, currentYear: nat, currentMonth: nat)
    ensures ResolveTagFormat("v1.0.0", versionObject, currentYear, currentMonth) == "v1.0.0"
  {
    PlaceholdersAreDistinct();
    DollarFreeHasNoPlaceholder("v1.0.0", Year);
    DollarFreeHasNoPlaceholder("v1.0.0", Month);
    ResolveWithoutPlaceholders("v1.0.0", versionObject, currentYear, currentMonth);
  }

  /** A format `P${rev}` with no `$` in P splits into P and the empty suffix. */
  lemma SlotAtEnd(before: string)
    requires HasNoDollar(before)
    ensures RevisionRegexOf(before + Rev) == WithCapture(before, "")
  {
    PlaceholdersAreDistinct();
    DollarFreeHasNoPlaceholder(before, Rev);
    assert before + Rev == before + Rev + "";
    SplitAtFirstRev(before, "");
  }

  /** A tag `P` followed by digits carries, under `P${rev}`, the number they spell. */
  lemma DigitTag(before: string, digits: string, n: nat)
    requires |digits| >= 1 && AllDigits(digits) && ParseDecimal(digits) == n
    ensures RevisionOf(before + digits, WithCapture(before, "")) == Some(n)
  {
    assert before + digits == before + digits + "";
    RevisionOfFilledFormat(before, digits, "");
  }

  /** The revision a tag contributes to the maximum: 0 when the regex does not match. */
  function Contribution(tag: string, rx: RevisionRegex): nat {
    match RevisionOf(tag, rx)
    case None => 0
    case Some(revision) => revision
  }

  lemma HighestOfThree(t0: string, t1: string, t2: string, rx: RevisionRegex)
    ensures HighestRevision([t0, t1, t2], rx)
            == Max(Contribution(t0, rx), Max(Contribution(t1, rx), Contribution(t2, rx)))
  {
    assert [t0, t1, t2][1..] == [t1, t2];
    assert [t1, t2][1..] == [t2];
    assert [t2][1..] == [];
    HighestStep([t2], rx);
    HighestStep([t1, t2], rx);
    HighestStep([t0, t1, t2], rx);
  }

  /** One step of the `forEach`: `Math.max` of the first tag's contribution and the rest. */
  lemma HighestStep(tags: seq<string>, rx: RevisionRegex)
    requires |tags| > 0
    ensures HighestRevision(tags, rx) == Max(Contribution(tags[0], rx), HighestRevision(tags[1..], rx))
  {
  }

  /** With `h` the highest revision, the release for `P${rev}` is P and `h + 1`. */
  lemma ReleaseAfter(tags: seq<string>, before: string, h: nat, digits: string)
    requires HasNoDollar(before) && HighestRevision(tags, WithCapture(before, "")) == h
    requires digits == DecimalString(h + 1)
    ensures NextVersion(tags, before + Rev, false) == before + digits
  {
    SlotAtEnd(before);
    ReleaseShape(tags, before + Rev);
    assert before + digits + "" == before + digits;
  }

  /**
   Revisions 1, 2 and 4 give 5, for any prefix without `$`, such as the
   `v1.4.5.` of `v1.4.5.${rev}`.
   */
  lemma IncrementsHighestRevision(before: string)
    requires HasNoDollar(before)
    ensures NextVersion([before + "1", before + "2", before + "4"], before + Rev, false) == before + "5"
  {
    var rx := WithCapture(before, "");
    DigitTag(before, "1", 1);
    DigitTag(before, "2", 2);
    DigitTag(before, "4", 4);
    HighestOfThree(before + "1", before + "2", before + "4", rx);
    ReleaseAfter([before + "1", before + "2", before + "4"], before, 4, "5");
  }

  /** Revisions 1 and 2 give 3, for any prefix without `$` such as `product-1.2.`. */
  lemma TwoRevisionsGiveThree(before: string)
    requires HasNoDollar(before)
    ensures NextVersion([before + "1", before + "2"], before + Rev, false) == before + "3"
  {
    var rx := WithCapture(before, "");
    DigitTag(before, "1", 1);
    DigitTag(before, "2", 2);
    assert [before + "1", before + "2"][1..] == [before + "2"];
    assert [before + "2"][1..] == [];
    HighestStep([before + "2"], rx);
    HighestStep([before + "1", before + "2"], rx);
    ReleaseAfter([before + "1", before + "2"], before, 2, "3");
  }

  /** `release-2` does not end in `v1.4.5.` and digits. */
  lemma ReleaseTwoSkipped(before: string)
    requires before == VersionPrefix
    ensures RevisionOf("release-2", WithCapture(before, "")).None?
  {
    FirstCharMissing("release-2"[1..], before);
    NoRevisionPastNonDigit("release-2", before, "", 7);
  }

  /** A tag that does not end in `v1.4.5.` and digits, such as `release-2`, is skipped. */
  lemma NonMatchingTagIgnored(before: string)
    requires before == VersionPrefix
    ensures NextVersion([before + "1", "release-2", before + "2"], before + Rev, false) == before + "3"
  {
    var rx := WithCapture(before, "");
    DigitTag(before, "1", 1);
    ReleaseTwoSkipped(before);
    DigitTag(before, "2", 2);
    HighestOfThree(before + "1", "release-2", before + "2", rx);
    ReleaseAfter([before + "1", "release-2", before + "2"], before, 2, "3");
  }

  /** `parseInt` reads `01` as 1: revisions 01, 02 and 10 give 11. */
  lemma LeadingZerosParsed(before: string)
    requires HasNoDollar(before)
    ensures NextVersion([before + "01", before + "02", before + "10"], before + Rev, false) == before + "11"
  {
    var rx := WithCapture(before, "");
    DigitTag(before, "01", 1);
    DigitTag(before, "02", 2);
    DigitTag(before, "10", 10);
    HighestOfThree(before + "01", before + "02", before + "10", rx);
    DecimalStep(1, 1);
    ReleaseAfter([before + "01", before + "02", before + "10"], before, 10, "11");
  }

  /** A format without `$` has no slot: its release tag is the format itself. */
  lemma NoSlot(tags: seq<string>, tagFormat: string)
    requires HasNoDollar(tagFormat)
    ensures RevisionRegexOf(tagFormat) == WithoutCapture
    ensures NextVersion(tags, tagFormat, false) == tagFormat
  {
    PlaceholdersAreDistinct();
    DollarFreeHasNoPlaceholder(tagFormat, Rev);
    ReleaseShape(tags, tagFormat);
  }

  /** The RC number a tag contributes to the maximum: 0 when the RC regex rejects it. */
  function RcContribution(tag: string, release: string): nat {
    match RcOf(tag, release)
    case None => 0
    case Some(rc) => rc
  }

  /** One step of the filter and the reduce together. */
  lemma HighestRcStep(tags: seq<string>, release: string)
    requires |tags| > 0
    ensures HighestRc(RcVersions(tags, release), release)
            == Max(RcContribution(tags[0], release), HighestRc(RcVersions(tags[1..], release), release))
  {
    var rest := RcVersions(tags[1..], release);
    if RcOf(tags[0], release).Some? {
      assert RcVersions(tags, release) == [tags[0]] + rest;
      assert ([tags[0]] + rest)[1..] == rest;
    }
  }

  /** The candidate built from the RC numbers of three tags. */
  lemma CandidateOfThree(t0: string, t1: string, t2: string, release: string)
    ensures CandidateTag([t0, t1, t2], release)
            == release + "-rc" + DecimalString(Max(RcContribution(t0, release),
                 Max(RcContribution(t1, release), RcContribution(t2, release))) + 1)
  {
    assert [t0, t1, t2][1..] == [t1, t2];
    assert [t1, t2][1..] == [t2];
    assert [t2][1..] == [];
    HighestRcStep([t2], release);
    HighestRcStep([t1, t2], release);
    HighestRcStep([t0, t1, t2], release);
  }

  /** A tag `release-rcN` carries RC number N. */
  lemma RcTag(release: string, suffix: string, n: nat)
    requires suffix == "-rc" + DecimalString(n)
    ensures RcOf(release + suffix, release) == Some(n)
  {
    assert release + suffix == release + "-rc" + DecimalString(n);
    RcOfCandidate(release, n);
  }

  /** RC numbers 1, 2 and 3 already tagged give `-rc4`, for any version without `$`. */
  lemma RcIncrements(release: string)
    requires HasNoDollar(release)
    ensures NextVersion([release + "-rc1", release + "-rc2", release + "-rc3"], release, true) == release + "-rc4"
  {
    var tags := [release + "-rc1", release + "-rc2", release + "-rc3"];
    NoSlot(tags, release);
    RcTag(release, "-rc1", 1);
    RcTag(release, "-rc2", 2);
    RcTag(release, "-rc3", 3);
    CandidateOfThree(release + "-rc1", release + "-rc2", release + "-rc3", release);
    assert release + "-rc" + "4" == release + "-rc4";
  }

  /**
   Tags too short to carry an RC suffix for the version, such as `app-v2`
   and `app-v3` for `app-v4`, leave the candidate at `-rc1`.
   */
  lemma FirstCandidateOfVersion(tags: seq<string>, release: string)
    requires HasNoDollar(release)
    requires forall i | 0 <= i < |tags| :: |tags[i]| <= |release| + 3
    ensures NextVersion(tags, release, true) == release + "-rc1"
  {
    NoSlot(tags, release);
    NoMatchStartsAtOne(tags, release);
  }

  /**
   What the mixed-tags tests need of their prefix (`app-v`,
   `tk-config-default2.1.4.5.`): no `$`, and its first character neither a
   digit nor repeated at positions 4 and 5, so that the prefix cannot start
   right before the digits of `<prefix>3-rcN`.
   */
  predicate MixedPrefix(before: string) {
    && HasNoDollar(before) && |before| >= 5
    && !IsDigit(before[0]) && before[4] != before[0]
    && (|before| > 5 ==> before[5] != before[0])
  }

  lemma TestPrefixesQualify()
    ensures MixedPrefix("app-v")
    ensures MixedPrefix("tk-config-default2.1.4.5.")
  {
  }

  /**
   `app-v3-rc1` does not end in `app-v` and digits: the `c` of `-rc` is the
   last non-digit, and the prefix does not start at the two places that would
   put it right before the digits.
   */
  lemma RcTagHasNoRevision(before: string, suffix: string)
    requires MixedPrefix(before) && (suffix == "-rc1" || suffix == "-rc2")
    ensures RevisionOf(before + "3" + suffix, WithCapture(before, "")).None?
  {
    var tag := before + "3" + suffix;
    var rest := tag[4..];
    assert tag[4] == before[4];
    assert tag[5] != before[0];
    forall i: nat | i <= |rest|
      ensures !OccursAt(rest, before, i)
    {
      if i + |before| <= |rest| {
        assert rest[i..i + |before|][0] == tag[4 + i];
      }
    }
    assert tag[|before| + 3] == 'c';
    NoRevisionPastNonDigit(tag, before, "", |before| + 3);
  }

  lemma HighestOfFour(t0: string, t1: string, t2: string, t3: string, rx: RevisionRegex)
    requires RevisionOf(t2, rx).None? && RevisionOf(t3, rx).None?
    ensures HighestRevision([t0, t1, t2, t3], rx) == Max(Contribution(t0, rx), Contribution(t1, rx))
  {
    assert [t0, t1, t2, t3][1..] == [t1, t2, t3];
    assert [t1, t2, t3][1..] == [t2, t3];
    assert [t2, t3][1..] == [t3];
    assert [t3][1..] == [];
    HighestStep([t3], rx);
    HighestStep([t2, t3], rx);
    HighestStep([t1, t2, t3], rx);
    HighestStep([t0, t1, t2, t3], rx);
  }

  lemma CandidateOfFour(t0: string, t1: string, t2: string, t3: string, release: string)
    requires RcOf(t0, release).None? && RcOf(t1, release).None?
    ensures CandidateTag([t0, t1, t2, t3], release)
            == release + "-rc" + DecimalString(Max(RcContribution(t2, release), RcContribution(t3, release)) + 1)
  {
    assert [t0, t1, t2, t3][1..] == [t1, t2, t3];
    assert [t1, t2, t3][1..] == [t2, t3];
    assert [t2, t3][1..] == [t3];
    assert [t3][1..] == [];
    HighestRcStep([t3], release);
    HighestRcStep([t2, t3], release);
    HighestRcStep([t1, t2, t3], release);
    HighestRcStep([t0, t1, t2, t3], release);
  }

  /**
   Among `app-v1`, `app-v2`, `app-v3-rc1` and `app-v3-rc2` under `app-v${rev}`
   the RC tags carry no revision, so the release is `app-v3`.
   */
  lemma MixedTagsRelease(before: string)
    requires MixedPrefix(before)
    ensures NextVersion([before + "1", before + "2", before + "3" + "-rc1", before + "3" + "-rc2"], before + Rev, false)
            == before + "3"
  {
    var tags := [before + "1", before + "2", before + "3" + "-rc1", before + "3" + "-rc2"];
    var rx := WithCapture(before, "");
    assert HighestRevision(tags, rx) == 2 by {
      DigitTag(before, "1", 1);
      DigitTag(before, "2", 2);
      RcTagHasNoRevision(before, "-rc1");
      RcTagHasNoRevision(before, "-rc2");
      HighestOfFour(before + "1", before + "2", before + "3" + "-rc1", before + "3" + "-rc2", rx);
    }
    assert DecimalString(3) == "3";
    ReleaseAfter(tags, before, 2, "3");
  }

  /** The candidates of `app-v3` so far are rc1 and rc2, so the next one is `app-v3-rc3`. */
  lemma MixedTagsCandidate(before: string)
    requires MixedPrefix(before)
    ensures NextVersion([before + "1", before + "2", before + "3" + "-rc1", before + "3" + "-rc2"], before + Rev, true)
            == before + "3" + "-rc3"
  {
    var release := before + "3";
    MixedTagsRelease(before);
    RcTag(release, "-rc1", 1);
    RcTag(release, "-rc2", 2);
    CandidateOfFour(before + "1", before + "2", release + "-rc1", release + "-rc2", release);
    assert release + "-rc" + "3" == release + "-rc3";
  }

  /**
   The RC regex is built from the release tag without escaping, so each dot
   matches any character: for version `v1.2`, the tag `v1x2-rc5` counts as
   its fifth candidate and the next one is `v1.2-rc6`.
   */
  lemma DotMatchesAnyCharacter()
    ensures RcOf("v1x2-rc5", "v1.2") == Some(5)
    ensures NextVersion(["v1x2-rc5"], "v1.2", true) == "v1.2-rc6"
  {
    DotTemplateReadsFive();
    NoSlot(["v1x2-rc5"], "v1.2");
    assert RcVersions(["v1x2-rc5"], "v1.2") == ["v1x2-rc5"];
    assert HighestRc(["v1x2-rc5"], "v1.2") == 5;
    assert DecimalString(6) == "6";
  }

  lemma DotTemplateReadsFive()
    ensures RcOf("v1x2-rc5", "v1.2") == Some(5)
  {
    var tag, release := "v1x2-rc5", "v1.2";
    assert RcMatchAt(tag, release, 0) by {
      assert TemplateAt(tag, release[1..][1..][1..][1..], 4);
      assert TemplateAt(tag, release[1..][1..][1..], 3);
      assert TemplateAt(tag, release[1..][1..], 2);
      assert TemplateAt(tag, release[1..], 1);
    }
    assert FirstRcMatch(tag, release, 0) == Some(0);
    assert DigitRunEnd(tag, 7) == 8 by {
      assert DigitRunEnd(tag, 8) == 8;
    }
    assert tag[7..8] == "5";
    assert ParseDecimal("5") == 5;
  }

  /**
   The revision regex is anchored at the end only, so a tag with anything in
   front, such as `xv1.4.5.3` under `v1.4.5.${rev}`, still counts.
   */
  lemma UnanchoredStart(before: string)
    requires before == VersionPrefix
    ensures RevisionOf("x" + before + "3", WithCapture(before, "")) == Some(3)
  {
    var tag := "x" + before + "3";
    LeftmostMatchAfterLead(before);
    assert tag[1 + |before|..|tag|] == "3";
    assert ParseDecimal("3") == 3;
  }

  /** The leftmost match in `xv1.4.5.3` starts after the `x`. */
  lemma LeftmostMatchAfterLead(before: string)
    requires before == VersionPrefix
    ensures FirstRevisionMatch("x" + before + "3", before, "", 0) == Some(1)
  {
    var tag := "x" + before + "3";
    SplitTagMatches("x", before, "3", "");
    assert !RevisionMatchAt(tag, before, "", 0) by {
      assert tag[0..|before|][0] == 'x';
    }
  }
}
