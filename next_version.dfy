/**
 `getNextVersion`: the highest revision among the tags the revision regex
 matches, plus one, goes into the first `${rev}`; with the release-candidate
 flag, `-rc` and one more than the highest release-candidate number already
 tagged for that version are appended.
 */
module Bump {
  import opened Wrappers
  import opened JsBuiltins
  import opened Placeholders
  import opened TagPatterns

  /**
   The value `highestRevision` reaches once the `forEach` has visited `tags`:
   `Math.max` of 0 and every revision the regex reads.
   */
  function HighestRevision(tags: seq<string>, rx: RevisionRegex): nat
    decreases |tags|
  {
    if |tags| == 0 then 0
    else
      var rest := HighestRevision(tags[1..], rx);
      match RevisionOf(tags[0], rx)
      case None => rest
      case Some(revision) => Max(revision, rest)
  }

  /** No tag carries a revision above the highest one. */
  lemma {:induction false} HighestRevisionIsUpperBound(tags: seq<string>, rx: RevisionRegex)
    ensures forall i | 0 <= i < |tags| && RevisionOf(tags[i], rx).Some? ::
              RevisionOf(tags[i], rx).value <= HighestRevision(tags, rx)
    decreases |tags|
  {
    if |tags| > 0 {
      HighestRevisionIsUpperBound(tags[1..], rx);
      assert forall i | 1 <= i < |tags| :: tags[1..][i - 1] == tags[i];
    }
  }

  /** The highest revision is one some tag carries, or 0 when no tag matches. */
  lemma {:induction false} HighestRevisionIsAttained(tags: seq<string>, rx: RevisionRegex)
    ensures HighestRevision(tags, rx) == 0
            || exists i | 0 <= i < |tags| :: RevisionOf(tags[i], rx) == Some(HighestRevision(tags, rx))
    decreases |tags|
  {
    if |tags| > 0 {
      HighestRevisionIsAttained(tags[1..], rx);
      assert forall i | 1 <= i < |tags| :: tags[1..][i - 1] == tags[i];
    }
  }

  /** The tags the RC regex accepts, in their original order (a JavaScript `filter`). */
  function RcVersions(tags: seq<string>, template: string): (rcVersions: seq<string>)
    ensures |rcVersions| <= |tags|
    ensures forall t | t in rcVersions :: RcOf(t, template).Some?
    decreases |tags|
  {
    if |tags| == 0 then []
    else
      var rest := RcVersions(tags[1..], template);
      if RcOf(tags[0], template).Some? then [tags[0]] + rest else rest
  }

  /** The filter keeps exactly the tags the RC regex matches. */
  lemma {:induction false} RcVersionsFilter(tags: seq<string>, template: string)
    ensures forall t | t in RcVersions(tags, template) :: t in tags
    ensures forall i | 0 <= i < |tags| && RcOf(tags[i], template).Some? :: tags[i] in RcVersions(tags, template)
    decreases |tags|
  {
    if |tags| > 0 {
      RcVersionsFilter(tags[1..], template);
      assert forall i | 1 <= i < |tags| :: tags[1..][i - 1] == tags[i];
      assert forall t | t in tags[1..] :: t in tags;
    }
  }

  /**
   The RC fold: `Math.max` over the RC numbers of the filtered tags, from 0.
   Every tag here passed the filter, so its match is never null.
   */
  function HighestRc(rcVersions: seq<string>, template: string): nat
    requires forall t | t in rcVersions :: RcOf(t, template).Some?
    decreases |rcVersions|
  {
    if |rcVersions| == 0 then 0
    else
      var first, rest := rcVersions[0], rcVersions[1..];
      assert forall t | t in rest :: t in rcVersions;
      Max(RcOf(first, template).value, HighestRc(rest, template))
  }

  /** The reduce yields the largest RC number among the filtered tags, or 0 for none. */
  lemma {:induction false} HighestRcIsMaximum(rcVersions: seq<string>, template: string)
    requires forall t | t in rcVersions :: RcOf(t, template).Some?
    ensures forall t | t in rcVersions :: RcOf(t, template).value <= HighestRc(rcVersions, template)
    ensures HighestRc(rcVersions, template) == 0
            || exists t | t in rcVersions :: RcOf(t, template) == Some(HighestRc(rcVersions, template))
    decreases |rcVersions|
  {
    if |rcVersions| > 0 {
      var first, rest := rcVersions[0], rcVersions[1..];
      assert rcVersions == [first] + rest;
      HighestRcIsMaximum(rest, template);
    }
  }

  /** Lines 80-81: the format with one more than the highest revision in its first `${rev}`. */
  function ReleaseTag(tags: seq<string>, tagFormat: string): string {
    ReplaceFirst(tagFormat, Rev, DecimalString(HighestRevision(tags, RevisionRegexOf(tagFormat)) + 1))
  }

  /** Lines 83-95: `release`, `-rc`, and one more than the highest RC number tagged for it. */
  function CandidateTag(tags: seq<string>, release: string): string {
    release + "-rc" + DecimalString(HighestRc(RcVersions(tags, release), release) + 1)
  }

  /** The tag `getNextVersion` returns, as a function of its arguments. */
  function NextVersion(tags: seq<string>, tagFormat: string, releaseCandidate: bool): string {
    var release := ReleaseTag(tags, tagFormat);
    if releaseCandidate then CandidateTag(tags, release) else release
  }

  /**
   Lines 69-77: `highestRevision` starts at 0 and the `forEach` raises it to
   every revision the regex captures.
   */
  method ScanHighestRevision(tagArray: seq<string>, revisionRegex: RevisionRegex)
    returns (highestRevision: nat)
    ensures highestRevision == HighestRevision(tagArray, revisionRegex)
  {
    highestRevision := 0;
    for i := 0 to |tagArray|
      invariant Max(highestRevision, HighestRevision(tagArray[i..], revisionRegex))
                == HighestRevision(tagArray, revisionRegex)
    {
      assert tagArray[i..][1..] == tagArray[i + 1..];
      var revisionMatch := RevisionCapture(tagArray[i], revisionRegex);
      if revisionMatch.Some? {
        highestRevision := Max(highestRevision, ParseDecimal(revisionMatch.value));
      }
    }
  }

  /** Line 86: the `filter` walks the tags and keeps those the RC regex accepts. */
  method FilterRcVersions(tagArray: seq<string>, release: string) returns (rcVersions: seq<string>)
    ensures rcVersions == RcVersions(tagArray, release)
  {
    rcVersions := [];
    assert tagArray[0..] == tagArray;
    for i := 0 to |tagArray|
      invariant rcVersions + RcVersions(tagArray[i..], release) == RcVersions(tagArray, release)
    {
      assert tagArray[i..][1..] == tagArray[i + 1..];
      if RcCapture(tagArray[i], release).Some? {
        rcVersions := rcVersions + [tagArray[i]];
      }
    }
  }

  /** Lines 88-91: the `reduce` raises `highestRC`, from 0, to every RC number the filtered tags carry. */
  method ReduceHighestRc(rcVersions: seq<string>, release: string) returns (highestRC: nat)
    requires forall t | t in rcVersions :: RcOf(t, release).Some?
    ensures highestRC == HighestRc(rcVersions, release)
  {
    highestRC := 0;
    assert rcVersions[0..] == rcVersions;
    for i := 0 to |rcVersions|
      invariant forall t | t in rcVersions[i..] :: t in rcVersions
      invariant Max(highestRC, HighestRc(rcVersions[i..], release)) == HighestRc(rcVersions, release)
    {
      assert rcVersions[i..][1..] == rcVersions[i + 1..];
      assert rcVersions[i] in rcVersions;
      var rcMatch := RcCapture(rcVersions[i], release);
      highestRC := Max(highestRC, ParseDecimal(rcMatch.value));
    }
  }

  /**
   Lines 83-95: the filter, the reduce, and `release` with `-rc` and the next
   number. The candidate extends the release tag, and the RC regex reads from
   it a number above every RC number of an existing tag.
   */
  method AppendRcSuffix(tagArray: seq<string>, release: string) returns (candidate: string)
    ensures candidate == CandidateTag(tagArray, release)
    ensures release <= candidate && candidate[|release|..|release| + 3] == "-rc"
    ensures RcOf(candidate, release).Some?
    ensures forall i | 0 <= i < |tagArray| && RcOf(tagArray[i], release).Some? ::
              RcOf(tagArray[i], release).value < RcOf(candidate, release).value
  {
    var rcVersions := FilterRcVersions(tagArray, release);
    var highestRC := ReduceHighestRc(rcVersions, release);
    candidate := release + "-rc" + DecimalString(highestRC + 1);
    CandidateShape(tagArray, release);
    CandidateAboveEveryRc(tagArray, release);
  }

  /**
   `getNextVersion(tagArray, tagFormat, releaseCandidate)`: the scan for the
   highest revision, the slot filled with the next one, and with the flag
   the release-candidate suffix. Whenever the result has a number of its own
   (a `${rev}` slot, or an `-rc` suffix), it is a tag not yet in `tagArray`.
   */
  method GetNextVersion(tagArray: seq<string>, tagFormat: string, releaseCandidate: bool)
    returns (nextVersionTag: string)
    requires IsPlainFormat(tagFormat)
    ensures nextVersionTag == NextVersion(tagArray, tagFormat, releaseCandidate)
    ensures releaseCandidate || Contains(tagFormat, Rev) ==> nextVersionTag !in tagArray
  {
    var revisionRegex := RevisionRegexOf(tagFormat);
    var highestRevision := ScanHighestRevision(tagArray, revisionRegex);
    var nextRevisionNumber := highestRevision + 1;
    nextVersionTag := ReplaceFirst(tagFormat, Rev, DecimalString(nextRevisionNumber));
    if releaseCandidate {
      nextVersionTag := AppendRcSuffix(tagArray, nextVersionTag);
    }
    NextVersionIsNew(tagArray, tagFormat, releaseCandidate);
  }

  /**
   The revision slot: a format `P${rev}S` gives P, one more than the highest
   revision found, then S; a format without `${rev}` comes back unchanged.
   */
  lemma ReleaseShape(tags: seq<string>, tagFormat: string)
    ensures match RevisionRegexOf(tagFormat)
            case WithCapture(before, after) =>
              NextVersion(tags, tagFormat, false)
              == before + DecimalString(HighestRevision(tags, RevisionRegexOf(tagFormat)) + 1) + after
            case WithoutCapture =>
              NextVersion(tags, tagFormat, false) == tagFormat
  {
    var digits := DecimalString(HighestRevision(tags, RevisionRegexOf(tagFormat)) + 1);
    assert NextVersion(tags, tagFormat, false) == ReplaceFirst(tagFormat, Rev, digits);
    FillSlot(tagFormat, digits);
  }

  /**
   With no tag to go on (an empty list, or no tag matching) the slot gets 1,
   and a release candidate gets `-rc1` unless a tag already carries an RC
   number for that version.
   */
  lemma NoMatchStartsAtOne(tags: seq<string>, tagFormat: string)
    requires forall i | 0 <= i < |tags| :: RevisionOf(tags[i], RevisionRegexOf(tagFormat)).None?
    ensures NextVersion(tags, tagFormat, false) == ReplaceFirst(tagFormat, Rev, "1")
    ensures var release := NextVersion(tags, tagFormat, false);
            (forall i | 0 <= i < |tags| :: RcOf(tags[i], release).None?) ==>
              NextVersion(tags, tagFormat, true) == release + "-rc1"
  {
    var rx := RevisionRegexOf(tagFormat);
    assert HighestRevision(tags, rx) == 0 by {
      HighestRevisionIsAttained(tags, rx);
    }
    OneIsWritten();
    var release := NextVersion(tags, tagFormat, false);
    if forall i | 0 <= i < |tags| :: RcOf(tags[i], release).None? {
      FirstCandidate(tags, release);
    }
  }

  /** `String(1)` is "1". */
  lemma OneIsWritten()
    ensures DecimalString(1) == "1"
  {
  }

  /** With no tag matching the RC regex, the candidate is the release with `-rc1`. */
  lemma FirstCandidate(tags: seq<string>, release: string)
    requires forall i | 0 <= i < |tags| :: RcOf(tags[i], release).None?
    ensures CandidateTag(tags, release) == release + "-rc1"
  {
    NoRcVersions(tags, release);
    OneIsWritten();
    assert "-rc" + "1" == "-rc1";
  }

  /** When no tag passes the RC regex, the filter keeps nothing. */
  lemma {:induction false} NoRcVersions(tags: seq<string>, template: string)
    requires forall i | 0 <= i < |tags| :: RcOf(tags[i], template).None?
    ensures RcVersions(tags, template) == []
    decreases |tags|
  {
    if |tags| > 0 {
      NoRcVersions(tags[1..], template);
    }
  }

  /** The empty tag list gives revision 1 and, as a candidate, `-rc1`. */
  lemma EmptyTagsStartAtOne(tagFormat: string)
    ensures NextVersion([], tagFormat, false) == ReplaceFirst(tagFormat, Rev, "1")
    ensures NextVersion([], tagFormat, true) == ReplaceFirst(tagFormat, Rev, "1") + "-rc1"
  {
    NoMatchStartsAtOne([], tagFormat);
  }

  /**
   The candidate is the release tag, `-rc` and digits, and the RC regex built
   from the release tag reads from it a number above every RC number it reads
   from the existing tags.
   */
  lemma CandidateExtendsRelease(tags: seq<string>, tagFormat: string)
    ensures var release := NextVersion(tags, tagFormat, false);
            var candidate := NextVersion(tags, tagFormat, true);
            && release <= candidate
            && candidate[|release|..|release| + 3] == "-rc"
            && RcOf(candidate, release).Some?
            && forall i | 0 <= i < |tags| && RcOf(tags[i], release).Some? ::
                 RcOf(tags[i], release).value < RcOf(candidate, release).value
  {
    var release := NextVersion(tags, tagFormat, false);
    assert NextVersion(tags, tagFormat, true) == CandidateTag(tags, release);
    CandidateShape(tags, release);
    CandidateAboveEveryRc(tags, release);
  }

  /** Any candidate is its release tag followed by `-rc`. */
  lemma CandidateShape(tags: seq<string>, release: string)
    ensures var candidate := CandidateTag(tags, release);
            release <= candidate && candidate[|release|..|release| + 3] == "-rc"
  {
    var digits := DecimalString(HighestRc(RcVersions(tags, release), release) + 1);
    assert CandidateTag(tags, release) == release + "-rc" + digits;
    RcSuffixShape(release, digits);
  }

  lemma RcSuffixShape(release: string, digits: string)
    ensures var candidate := release + "-rc" + digits;
            release <= candidate && candidate[|release|..|release| + 3] == "-rc"
  {
    var candidate := release + "-rc" + digits;
    assert candidate[..|release|] == release;
    assert candidate[|release|..|release| + 3] == "-rc";
  }

  /** The RC number read from any candidate exceeds every one read from the tags. */
  lemma CandidateAboveEveryRc(tags: seq<string>, release: string)
    ensures RcOf(CandidateTag(tags, release), release).Some?
    ensures forall i | 0 <= i < |tags| && RcOf(tags[i], release).Some? ::
              RcOf(tags[i], release).value < RcOf(CandidateTag(tags, release), release).value
  {
    CandidateRc(tags, release);
    EveryRcAtMostHighest(tags, release);
  }

  /** For any release tag, the RC regex reads from the candidate the next RC number. */
  lemma CandidateRc(tags: seq<string>, release: string)
    ensures RcOf(CandidateTag(tags, release), release) == Some(HighestRc(RcVersions(tags, release), release) + 1)
  {
    var highest := HighestRc(RcVersions(tags, release), release);
    assert CandidateTag(tags, release) == release + "-rc" + DecimalString(highest + 1);
    RcOfCandidate(release, highest + 1);
  }

  /** Every RC number the regex reads from the tags is at most the highest one. */
  lemma EveryRcAtMostHighest(tags: seq<string>, release: string)
    ensures forall i | 0 <= i < |tags| && RcOf(tags[i], release).Some? ::
              RcOf(tags[i], release).value <= HighestRc(RcVersions(tags, release), release)
  {
    var rcVersions := RcVersions(tags, release);
    RcVersionsFilter(tags, release);
    HighestRcIsMaximum(rcVersions, release);
    forall i | 0 <= i < |tags| && RcOf(tags[i], release).Some?
      ensures RcOf(tags[i], release).value <= HighestRc(rcVersions, release)
    {
      assert tags[i] in rcVersions;
    }
  }

  /** The release tag for a format with `${rev}` reads back one more than the highest revision. */
  lemma ReleaseRevision(tags: seq<string>, tagFormat: string)
    requires Contains(tagFormat, Rev)
    ensures var rx := RevisionRegexOf(tagFormat);
            RevisionOf(NextVersion(tags, tagFormat, false), rx) == Some(HighestRevision(tags, rx) + 1)
  {
    var rx := RevisionRegexOf(tagFormat);
    var highest := HighestRevision(tags, rx);
    ReleaseShape(tags, tagFormat);
    ReadsBackFilledSlot(NextVersion(tags, tagFormat, false), rx, highest + 1);
  }

  /** A tag made by filling the slot of `rx` with `n` reads back `n`. */
  lemma ReadsBackFilledSlot(tag: string, rx: RevisionRegex, n: nat)
    requires rx.WithCapture? && tag == rx.before + DecimalString(n) + rx.after
    ensures RevisionOf(tag, rx) == Some(n)
  {
    RevisionOfNumber(rx.before, rx.after, n);
  }

  /**
   Read back through the revision regex, the release tag for a format with
   `${rev}` carries a revision of at least 1 and above every revision the
   existing tags carry.
   */
  lemma ReleaseAboveEveryRevision(tags: seq<string>, tagFormat: string)
    requires Contains(tagFormat, Rev)
    ensures var rx := RevisionRegexOf(tagFormat);
            var revision := RevisionOf(NextVersion(tags, tagFormat, false), rx);
            && revision.Some? && revision.value >= 1
            && forall i | 0 <= i < |tags| && RevisionOf(tags[i], rx).Some? ::
                 RevisionOf(tags[i], rx).value < revision.value
  {
    ReleaseRevision(tags, tagFormat);
    HighestRevisionIsUpperBound(tags, RevisionRegexOf(tagFormat));
  }

  /** The release tag for a format with `${rev}` is not among the existing tags. */
  lemma ReleaseIsNew(tags: seq<string>, tagFormat: string)
    requires Contains(tagFormat, Rev)
    ensures NextVersion(tags, tagFormat, false) !in tags
  {
    var rx := RevisionRegexOf(tagFormat);
    var release := NextVersion(tags, tagFormat, false);
    ReleaseAboveEveryRevision(tags, tagFormat);
    assert forall i | 0 <= i < |tags| :: tags[i] != release;
  }

  /**
   The release-candidate tag is not among the existing tags, with or without
   `${rev}`: its own RC number would exceed the highest one found.
   */
  lemma CandidateIsNew(tags: seq<string>, tagFormat: string)
    ensures NextVersion(tags, tagFormat, true) !in tags
  {
    CandidateExtendsRelease(tags, tagFormat);
  }

  /** Whenever the next version has a number of its own, it is not an existing tag. */
  lemma NextVersionIsNew(tags: seq<string>, tagFormat: string, releaseCandidate: bool)
    ensures releaseCandidate || Contains(tagFormat, Rev) ==> NextVersion(tags, tagFormat, releaseCandidate) !in tags
  {
    if releaseCandidate {
      CandidateIsNew(tags, tagFormat);
    } else if Contains(tagFormat, Rev) {
      ReleaseIsNew(tags, tagFormat);
    }
  }
}
