/**
 Resolving a tag format: `${year}` and `${month}` are filled in from the
 version object when its field is present and truthy, otherwise from the
 current date, which the caller passes in; `${rev}` is left for later.
 */
module TagFormat {
  import opened Wrappers
  import opened JsBuiltins
  import opened Placeholders

  /** The object parsed from the optional version file; each field may be missing. */
  datatype VersionObject = VersionObject(year: Option<nat>, month: Option<nat>)

  /** `versionObject?.year`: missing when there is no object or no field. */
  function OverrideYear(versionObject: Option<VersionObject>): Option<nat> {
    if versionObject.Some? then versionObject.value.year else None
  }

  /** `versionObject?.month`. */
  function OverrideMonth(versionObject: Option<VersionObject>): Option<nat> {
    if versionObject.Some? then versionObject.value.month else None
  }

  /** `field || fallback`: a missing field and the falsy number 0 both give way. */
  function OrElse(field: Option<nat>, fallback: nat): (r: nat)
    ensures field.Some? && field.value != 0 ==> r == field.value
    ensures field.None? || field.value == 0 ==> r == fallback
  {
    if field.Some? && field.value != 0 then field.value else fallback
  }

  /** `String(month).padStart(2, "0")`: at least two digits that read back as the month. */
  function MonthText(month: nat): (text: string)
    ensures |text| >= 2 && AllDigits(text)
    ensures ParseDecimal(text) == month
    ensures month < 10 ==> text == "0" + DecimalString(month)
    ensures month >= 10 ==> text == DecimalString(month)
  {
    var digits := DecimalString(month);
    var text := PadStart(digits, 2, '0');
    DecimalRoundTrip(month);
    if month < 10 then
      assert text == "0" + digits;
      LeadingZeroIgnored(digits);
      text
    else
      text
  }

  /**
   `resolveTagFormat(tagFormat, versionObject)` with the clock's year and
   month (`getMonth() + 1`) given as `currentYear` and `currentMonth`.
   */
  function ResolveTagFormat(tagFormat: string, versionObject: Option<VersionObject>,
                            currentYear: nat, currentMonth: nat): string
  {
    var year := OrElse(OverrideYear(versionObject), currentYear);
    var month := MonthText(OrElse(OverrideMonth(versionObject), currentMonth));
    ReplaceFirst(ReplaceFirst(tagFormat, Year, DecimalString(year)), Month, month)
  }

  /** A format without `${year}` and `${month}` comes back unchanged, whatever the date. */
  lemma ResolveWithoutPlaceholders(tagFormat: string, versionObject: Option<VersionObject>,
                                   currentYear: nat, currentMonth: nat)
    requires !Contains(tagFormat, Year) && !Contains(tagFormat, Month)
    ensures ResolveTagFormat(tagFormat, versionObject, currentYear, currentMonth) == tagFormat
  {
  }

  /** Resolution neither removes nor introduces a `${rev}`. */
  lemma ResolveKeepsRev(tagFormat: string, versionObject: Option<VersionObject>,
                        currentYear: nat, currentMonth: nat)
    ensures Contains(ResolveTagFormat(tagFormat, versionObject, currentYear, currentMonth), Rev)
            <==> Contains(tagFormat, Rev)
  {
    PlaceholdersAreDistinct();
    var year := DecimalString(OrElse(OverrideYear(versionObject), currentYear));
    var month := MonthText(OrElse(OverrideMonth(versionObject), currentMonth));
    var afterYear := ReplaceFirst(tagFormat, Year, year);
    ReplaceKeepsOtherPlaceholder(tagFormat, Year, year, Rev);
    ReplaceKeepsOtherPlaceholder(afterYear, Month, month, Rev);
  }

  /**
   A format with a `${year}` but no `${month}`: `A ${year} B` resolves to
   `A <year> B`, the year being the override when truthy, else the current year.
   */
  lemma ResolveYearOnly(a: string, b: string, versionObject: Option<VersionObject>,
                        currentYear: nat, currentMonth: nat)
    requires !Contains(a, Year) && !Contains(a, Month) && !Contains(b, Month)
    ensures ResolveTagFormat(a + Year + b, versionObject, currentYear, currentMonth)
            == a + DecimalString(OrElse(OverrideYear(versionObject), currentYear)) + b
  {
    PlaceholdersAreDistinct();
    var year := DecimalString(OrElse(OverrideYear(versionObject), currentYear));
    ReplaceAfterCleanPrefix(a, Year, b, year);
    DigitsCreateNoPlaceholder(a, year, b, Month);
  }

  /**
   A format with a `${month}` but no `${year}`: `A ${month} B` resolves to
   `A <month> B`, the month being the override when truthy, else the current
   month, padded to two digits.
   */
  lemma ResolveMonthOnly(a: string, b: string, versionObject: Option<VersionObject>,
                         currentYear: nat, currentMonth: nat)
    requires !Contains(a, Month) && !Contains(a, Year) && !Contains(b, Year)
    ensures ResolveTagFormat(a + Month + b, versionObject, currentYear, currentMonth)
            == a + MonthText(OrElse(OverrideMonth(versionObject), currentMonth)) + b
  {
    PlaceholdersAreDistinct();
    var month := MonthText(OrElse(OverrideMonth(versionObject), currentMonth));
    PlaceholderCreatesNoOther(a, Month, b, Year);
    ReplaceAfterCleanPrefix(a, Month, b, month);
  }

  /**
   A format whose first `${year}` comes before its first `${month}`:
   `A ${year} B ${month} C` resolves to `A <year> B <month> C`, where the year
   is the override when truthy, else the current year, and likewise the month.
   */
  lemma ResolveYearThenMonth(a: string, b: string, c: string, versionObject: Option<VersionObject>,
                             currentYear: nat, currentMonth: nat)
    requires !Contains(a, Year) && !Contains(a, Month) && !Contains(b, Month)
    ensures ResolveTagFormat(a + Year + b + Month + c, versionObject, currentYear, currentMonth)
            == a + DecimalString(OrElse(OverrideYear(versionObject), currentYear))
                 + b + MonthText(OrElse(OverrideMonth(versionObject), currentMonth)) + c
  {
    PlaceholdersAreDistinct();
    ReplaceTwoInOrder(a, Year, b, Month, c, DecimalString(OrElse(OverrideYear(versionObject), currentYear)),
                      MonthText(OrElse(OverrideMonth(versionObject), currentMonth)));
  }

  /**
   A format whose first `${month}` comes before its first `${year}`:
   `A ${month} B ${year} C` resolves to `A <month> B <year> C`.
   */
  lemma ResolveMonthThenYear(a: string, b: string, c: string, versionObject: Option<VersionObject>,
                             currentYear: nat, currentMonth: nat)
    requires !Contains(a, Month) && !Contains(a, Year) && !Contains(b, Year)
    ensures ResolveTagFormat(a + Month + b + Year + c, versionObject, currentYear, currentMonth)
            == a + MonthText(OrElse(OverrideMonth(versionObject), currentMonth))
                 + b + DecimalString(OrElse(OverrideYear(versionObject), currentYear)) + c
  {
    PlaceholdersAreDistinct();
    ReplaceTwoOutOfOrder(a, Month, b, Year, c, DecimalString(OrElse(OverrideYear(versionObject), currentYear)),
                         MonthText(OrElse(OverrideMonth(versionObject), currentMonth)));
  }
}
