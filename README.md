# bump-version, modelled in Dafny

bump-version is a GitHub Action that works out the next git tag for a
project. Its logic lives in two functions of `src/main.js`:

- `resolveTagFormat(tagFormat, versionObject)` fills in a tag template. It
  replaces the first `${year}` with the year and then the first `${month}`
  with the month, padded to two digits. Each value is taken from the optional
  version object when that field is truthy, and from the current date
  otherwise. `${rev}` is left alone.
- `getNextVersion(tagArray, tagFormat, releaseCandidate)` builds the regex
  `P(\d+)S$` from the format, where P and S are the text around the first
  `${rev}` with every dot escaped. It keeps the highest revision any existing
  tag carries (0 when none) and puts one more into the first `${rev}`. With
  the release-candidate flag it then builds a second regex,
  `<that tag>-rc(\d+)`, takes the highest RC number of the tags it accepts
  and appends `-rc` and one more.

The model is split into these modules:

- `Wrappers`: the `Option` type.
- `JsBuiltins`: the JavaScript primitives the two functions rely on:
  - `String(n)`, `parseInt(s, 10)` and `Math.max`;
  - `padStart`;
  - `indexOf`, and `replace` with a string pattern, which replaces only the
    first occurrence;
  - the global dot escape.
- `Placeholders`: the three placeholders, and how replacing one of them
  affects the others.
- `TagFormat`: `resolveTagFormat`, as a pure function. The clock's year and
  month are parameters.
- `TagPatterns`: the two regexes, defined directly as string predicates
  rather than through a regex engine.
  - Revision regex: P and S match literally. The match must end at the end of
    the tag but may start anywhere, and the leftmost start wins.
  - RC regex: neither escaped nor anchored, so each `.` of the release tag
    matches any character except a line terminator. The capture is the
    greedy digit run after `-rc` at the leftmost place the pattern fits.
- `Bump`: `getNextVersion`.
  - The `forEach` scan, the RC `filter` and the RC `reduce` are each a
    method with a loop. Each loop is proved against a pure specification
    function: `HighestRevision`, `RcVersions` and `HighestRc` respectively.
  - `GetNextVersion` is proved to return `NextVersion`. The lemmas state
    what those functions promise.
- `Scenarios`: the repository's own tests restated as lemmas, plus two
  quirks of the regexes (an unanchored start, and a dot that matches any
  character).

Two edge cases of the code:

- For an empty tag list the code runs the same steps as for any list.
  `Bump.EmptyTagsStartAtOne` shows that the result is the format with `1` in
  its slot, followed by `-rc1` when the flag is set.
- For a format without `${rev}` the revision regex has no capture group. It
  can still match a tag, and the scan then produces `NaN`. The model reads
  such a format as giving no revision. The output is the unchanged format in
  both readings, because line 81 has no slot to fill (`Scenarios.NoSlot`,
  `Bump.ReleaseShape`).

## Model

| member | source | states |
|---|---|---|
| JsBuiltins.ParseDecimal | src/main.js:75 | `parseInt(s, 10)` of a digit string, read most significant digit first; its contract is `DecimalRoundTrip` and `LeadingZeroIgnored` |
| JsBuiltins.EscapeDots | src/main.js:66 | the dot escape never shortens the text and never yields a leading dot; `EscapeDotsRoundTrip` shows it is lossless |
| JsBuiltins.Max | src/main.js:75 | `Math.max` of two naturals is at least each of them and equals one of them |
| JsBuiltins.DecimalString | src/main.js:81 | `String(n)` is a non-empty run of decimal digits that starts with `0` only for 0, so it has no leading zeros |
| JsBuiltins.DecimalRoundTrip | src/main.js:75 | `parseInt(String(n), 10)` gives back `n` |
| JsBuiltins.DecimalStringInjective | src/main.js:81 | different numbers are written as different strings |
| JsBuiltins.LeadingZeroIgnored | src/main.js:75 | `parseInt` of a digit string with an extra leading `0` gives the same number |
| JsBuiltins.PadStart | src/main.js:17 | the result is as long as the larger of `width` and the length of `s`, ends with `s`, and is filled with the pad character before it |
| JsBuiltins.IndexOf | src/main.js:20 | the result is the first position where the pattern occurs, and it is absent exactly when the pattern does not occur |
| JsBuiltins.ReplaceFirst | src/main.js:20 | `replace` with a string pattern returns the string unchanged when the pattern is absent, and otherwise swaps only its first occurrence for the replacement |
| JsBuiltins.EscapeDotsRoundTrip | src/main.js:66 | the global dot escape loses nothing: unescaping gives back the original text |
| JsBuiltins.EscapeDotsWithoutDots | src/main.js:66 | text without dots is left unchanged by the escape |
| JsBuiltins.EscapeDotsAppend | src/main.js:66 | escaping a concatenation is the concatenation of the escaped parts |
| Placeholders.PlaceholdersAreDistinct | src/main.js:20 | `${year}`, `${month}` and `${rev}` are pairwise different and differ at their third character |
| Placeholders.FirstAfterCleanPrefix | src/main.js:20 | in `a + p + b`, where `a` does not contain `p`, the first `p` is the one right after `a` |
| Placeholders.ReplaceAfterCleanPrefix | src/main.js:20 | so `replace` of `p` turns `a + p + b` into `a + rep + b` |
| Placeholders.DigitsCreateNoPlaceholder | src/main.js:20 | putting digits between two pieces that lack a placeholder creates no occurrence of it |
| Placeholders.PlaceholderCreatesNoOther | src/main.js:20 | one placeholder between pieces that lack another one creates no occurrence of the other |
| Placeholders.ReplaceKeepsOtherPlaceholder | src/main.js:20 | replacing one placeholder with digits neither removes nor creates any other placeholder (both directions) |
| Placeholders.ReplaceTwoInOrder | src/main.js:20 | with `${year}` before `${month}`, the two chained `replace` calls each fill their own slot |
| Placeholders.ReplaceTwoOutOfOrder | src/main.js:20 | the same holds when `${month}` comes first in the template |
| TagFormat.OrElse | src/main.js:15-16 | an override field is used exactly when it is present and non-zero (truthy); otherwise the current value is used |
| TagFormat.MonthText | src/main.js:17 | the month is written with at least two digits, reads back as the month, and gets a leading `0` exactly when it is below 10 |
| TagFormat.ResolveTagFormat | src/main.js:13-21 | `resolveTagFormat` with the clock as parameters: the two chained first-occurrence replaces; what it returns for each template shape is stated by the four `Resolve…` lemmas below |
| TagFormat.ResolveWithoutPlaceholders | src/main.js:13-21 | a template with neither `${year}` nor `${month}` is returned unchanged, whatever the overrides and the date |
| TagFormat.ResolveKeepsRev | src/main.js:20 | the resolved template contains `${rev}` exactly when the template does |
| TagFormat.ResolveYearOnly | src/main.js:15-20 | a template with `${year}` and no `${month}` gets the effective year in its first `${year}`, and nothing else changes |
| TagFormat.ResolveMonthOnly | src/main.js:16-20 | a template with `${month}` and no `${year}` gets the effective padded month in its first `${month}`, and nothing else changes |
| TagFormat.ResolveYearThenMonth | src/main.js:15-20 | a template with `${year}` before `${month}` gets the effective year in decimal and the effective padded month, and nothing else changes |
| TagFormat.ResolveMonthThenYear | src/main.js:15-20 | the same for a template with `${month}` before `${year}` |
| TagPatterns.RevisionRegexOf | src/main.js:66 | the regex has a capture group exactly when the format contains `${rev}`, and then the format is `before + ${rev} + after` |
| TagPatterns.SplitAtFirstRev | src/main.js:66 | the regex is cut at the first `${rev}`: a prefix without `${rev}` becomes `before` |
| TagPatterns.FillSlot | src/main.js:81 | filling `${rev}` with the new number puts it between `before` and `after`; a format without `${rev}` stays unchanged |
| TagPatterns.RevisionPatternSource | src/main.js:65-67 | the source text of the revision regex: the format with `(\d+)` in its first `${rev}`, dots escaped, then `$`; its shape is `RevisionPatternShape` |
| TagPatterns.RevisionPatternShape | src/main.js:66 | the regex source is the escaped `before`, then `(\d+)`, then the escaped `after`, then `$`; without `${rev}` it is the escaped format and `$` |
| TagPatterns.FirstRevisionMatch | src/main.js:73 | the result is the leftmost start from which `P(\d+)S$` matches; no start is returned when none matches |
| TagPatterns.RevisionCapture | src/main.js:73-75 | a capture exists only for a regex with a group, and it is a non-empty run of digits |
| TagPatterns.RevisionOf | src/main.js:73-75 | a tag yields a revision exactly when the regex captures digits from it |
| TagPatterns.RevisionCaptureIsLongest | src/main.js:73-75 | for every reading of a tag as lead, `before`, digits `d`, `after`: the capture exists, ends with `d`, is itself a valid digit run between `before` and `after` (so it is the longest), and the revision is the capture in base 10 |
| TagPatterns.RevisionCaptureIff | src/main.js:73-74 | the regex captures from a tag exactly when it matches from some start in the tag (both directions) |
| TagPatterns.RevisionCountsIff | src/main.js:65-76 | a tag counts exactly when it is some text, then `before`, then a non-empty digit run, then `after` (both directions) |
| TagPatterns.RevisionOfFilledFormat | src/main.js:73-75 | a tag made by filling the slot with digits captures exactly those digits |
| TagPatterns.RevisionOfNumber | src/main.js:75-81 | a tag made by filling the slot with `String(n)` reads back as `n` |
| TagPatterns.NoRevisionPastNonDigit | src/main.js:73-74 | a tag with a non-digit where the digits would be, and no `before` ahead of it, yields no revision |
| TagPatterns.TemplateMatchesCopy | src/main.js:85 | the unescaped release tag matches its own copy in a tag, dots included |
| TagPatterns.FirstRcMatch | src/main.js:89 | the result is the leftmost start where the template, `-rc` and a digit fit; no start is returned when there is none |
| TagPatterns.DigitRunEnd | src/main.js:89-90 | the greedy `\d+`: it stops at the first non-digit or at the end of the tag |
| TagPatterns.RcCapture | src/main.js:89-90 | the RC capture is a non-empty run of digits |
| TagPatterns.RcOf | src/main.js:85-90 | a tag yields an RC number exactly when the RC regex captures from it |
| TagPatterns.RcCaptureAt | src/main.js:89-90 | at the leftmost fit `k`, the capture is the digits right after `-rc`, running to the end of the tag or to a non-digit, and the RC number is that run in base 10 |
| TagPatterns.RcCaptureIff | src/main.js:85-86 | the RC regex accepts a tag exactly when the pattern fits at some position in it (both directions) |
| TagPatterns.RcOfCandidate | src/main.js:85-94 | the candidate `release-rcN` is read by its own release's RC regex as `N` |
| Bump.HighestRevision | src/main.js:69-77 | the specification of the scan: `Math.max` of 0 and every revision the regex reads; characterised by the two lemmas below |
| Bump.HighestRevisionIsUpperBound | src/main.js:69-77 | every revision a tag carries is at most the result of the scan |
| Bump.HighestRevisionIsAttained | src/main.js:69-77 | the result of the scan is 0 or the revision of one of the tags |
| Bump.ScanHighestRevision | src/main.js:69-77 | the `forEach` loop ends with the maximum of 0 and every captured revision, as `HighestRevision` specifies |
| Bump.RcVersions | src/main.js:86 | the filter keeps no more tags than it is given, and every kept tag has an RC number |
| Bump.RcVersionsFilter | src/main.js:86 | every kept tag comes from the input, and every input tag with an RC number is kept |
| Bump.HighestRc | src/main.js:88-91 | the specification of the `reduce`: `Math.max` from 0 over the RC numbers of the filtered tags; characterised by `HighestRcIsMaximum` |
| Bump.FilterRcVersions | src/main.js:86 | the `filter` loop returns exactly `RcVersions` of the tags |
| Bump.ReduceHighestRc | src/main.js:88-91 | the `reduce` loop returns exactly `HighestRc` of the filtered tags |
| Bump.HighestRcIsMaximum | src/main.js:88-91 | the `reduce` result is at least every kept tag's RC number, and is 0 or one of those numbers |
| Bump.NoRcVersions | src/main.js:86 | when no tag has an RC number, the filter keeps nothing |
| Bump.AppendRcSuffix | src/main.js:83-95 | the RC branch returns `CandidateTag`; the release tag is a prefix of the result and `-rc` follows it; the RC regex reads from the result a number above every RC number of an existing tag |
| Bump.ReleaseTag | src/main.js:80-81 | the release tag: the format with one more than the highest revision in its first `${rev}`; its shape is `ReleaseShape` |
| Bump.CandidateTag | src/main.js:94 | the candidate: the release tag, `-rc` and one more than the highest RC number; its properties are `CandidateExtendsRelease` |
| Bump.NextVersion | src/main.js:63-98 | what `getNextVersion` returns: the candidate when the flag is set, the release tag otherwise; its properties are the lemmas below |
| Bump.GetNextVersion | src/main.js:63-98 | the method returns `NextVersion` of its inputs; when the format has `${rev}` or the RC flag is set, the result is not one of the given tags |
| Bump.ReleaseShape | src/main.js:80-81 | the release tag is `before`, one more than the highest revision, then `after`; a format without `${rev}` comes back unchanged |
| Bump.ReleaseRevision | src/main.js:65-81 | the release tag, read through the format's own revision regex, carries one more than the highest revision |
| Bump.ReleaseAboveEveryRevision | src/main.js:65-81 | that revision is at least 1 and above every revision an existing tag carries |
| Bump.NoMatchStartsAtOne | src/main.js:69-94 | when no tag matches, the slot gets `1`; when in addition no tag has an RC number, the candidate is the release tag plus `-rc1` |
| Bump.FirstCandidate | src/main.js:88-94 | without any RC-numbered tag the suffix is `-rc1` |
| Bump.EmptyTagsStartAtOne | src/main.js:63-98 | with no tags the result is the format with `1` in its slot, and with the flag that tag plus `-rc1` |
| Bump.CandidateExtendsRelease | src/main.js:83-94 | the release tag is a prefix of the candidate and is followed by `-rc`; the candidate's RC number is above every RC number of an existing tag |
| Bump.CandidateShape | src/main.js:94 | the candidate is the release tag followed by `-rc` |
| Bump.CandidateRc | src/main.js:85-94 | the candidate's own RC number is one more than the highest one found |
| Bump.EveryRcAtMostHighest | src/main.js:86-91 | every RC number of an existing tag is at most the highest one found |
| Bump.CandidateAboveEveryRc | src/main.js:83-94 | the candidate has an RC number, and it is above every RC number of an existing tag |
| Bump.ReleaseIsNew | src/main.js:63-98 | for a format with `${rev}`, the release tag is not one of the existing tags |
| Bump.CandidateIsNew | src/main.js:63-98 | the release-candidate tag is never one of the existing tags |
| Bump.NextVersionIsNew | src/main.js:63-98 | whenever the result carries a number of its own (a `${rev}` slot or an `-rc` suffix), it is a new tag |
| Scenarios.ResolveFromClock | __tests__/main.test.js:16-22 | without a version object, `${year}.${month}` becomes the current year in decimal, a dot and the current month padded to two digits, for any date |
| Scenarios.ResolveFromVersionObject | __tests__/main.test.js:24-43 | the overrides `{year: 2023, month: 4}` give `2023.04`, and any tail, such as `-tk-config-default2.1.4.5.${rev}`, is kept as it is |
| Scenarios.ResolvePlainFormat | __tests__/main.test.js:32-35 | `v1.0.0` comes back unchanged |
| Scenarios.IncrementsHighestRevision | __tests__/main.test.js:58-63 | revisions 1, 2 and 4 under any prefix without regex syntax give 5 (the lemma needs only a prefix without `$`) |
| Scenarios.ReleaseTwoSkipped | __tests__/main.test.js:65-70 | `release-2` carries no revision under `v1.4.5.${rev}` |
| Scenarios.NonMatchingTagIgnored | __tests__/main.test.js:65-70 | `v1.4.5.1`, `release-2` and `v1.4.5.2` give `v1.4.5.3` |
| Scenarios.TwoRevisionsGiveThree | __tests__/main.test.js:72-77 | revisions 1 and 2 under any prefix without regex syntax, such as `product-1.2.`, give 3 (the lemma needs only a prefix without `$`) |
| Scenarios.LeadingZerosParsed | __tests__/main.test.js:79-84 | revisions `01`, `02` and `10` give `11`, written without padding |
| Scenarios.RcIncrements | __tests__/main.test.js:86-90 | `-rc1` to `-rc3` of any release tag without regex syntax give `-rc4` (the lemma needs only a release tag without `$`) |
| Scenarios.FirstCandidateOfVersion | __tests__/main.test.js:92-96 | tags too short to carry an RC number for the release give `-rc1` |
| Scenarios.TestPrefixesQualify | __tests__/main.test.js:98-117 | the prefixes `app-v` and `tk-config-default2.1.4.5.` meet the conditions the mixed-tags lemmas need |
| Scenarios.RcTagHasNoRevision | __tests__/main.test.js:98-103 | `<prefix>3-rc1` and `<prefix>3-rc2` carry no revision under `<prefix>${rev}` |
| Scenarios.MixedTagsRelease | __tests__/main.test.js:98-117 | revisions 1 and 2 plus the RC tags of 3 give the release `<prefix>3` |
| Scenarios.MixedTagsCandidate | __tests__/main.test.js:98-117 | the same tags give the candidate `<prefix>3-rc3` |
| Scenarios.NoSlot | src/main.js:81 | a format without `$` has no slot, and its release tag is the format itself |
| Scenarios.DotMatchesAnyCharacter | src/main.js:85 | the RC regex of `v1.2` reads `v1x2-rc5` as RC 5, so the next candidate is `v1.2-rc6` |
| Scenarios.UnanchoredStart | src/main.js:66 | the revision regex is not anchored at the start: `xv1.4.5.3` carries revision 3 under `v1.4.5.${rev}` |

## Left out

- `getTags`, `run` and `index.js` are not part of this model. They are git, file and GitHub I/O. The tag list is the method's input.
- The unused `dns` import is not modelled.
- The clock: `new Date()` is replaced by the `currentYear` and `currentMonth` parameters.
- Bump.GetNextVersion: requires a format with no regex syntax other than `.` (`IsPlainFormat`). The code escapes nothing else, so formats with `+`, `(`, `$` and the like give regexes the model does not cover.
- JsBuiltins.ReplaceFirst: requires a replacement without `$`. JavaScript's `$&`-style replacement patterns are not modelled. Every replacement the code passes is digits or `(\d+)`.
- Override fields are naturals. Non-numeric, negative or fractional year and month values are not modelled.
- Numbers are unbounded naturals. `parseInt` losing precision past 2^53 is not modelled.
- A format without `${rev}` is read as giving no revision. The code's `NaN` (a match with no capture group) is not modelled. It does not change the output.
- Strings are sequences of Unicode characters, not UTF-16 code units.
- Scenarios.FirstCandidateOfVersion: states the `-rc1` start for tags no longer than the release tag plus three characters, which covers `app-v2` and `app-v3` against `app-v4`. It does not cover every tag list without a candidate.
