/**
 * `formatDate` (src/helpers/dateFormatter.ts): a calendar date spelled in one of
 * the numeric formats the settings offer. The date is given by its local year,
 * month (1 to 12) and day (1 to 31); the `toLocaleDateString` spelling the
 * "Month Day, Year" format uses comes from the runtime and is passed in.
 */
module DateFormatter {
  import opened JsBuiltins

  /** `pad(num)`: at least two digits, with a leading '0' below 10. */
  function Pad(num: nat): (r: string)
    ensures num < 10 ==> r == "0" + NatToString(num)
    ensures num >= 10 ==> r == NatToString(num)
  {
    Pad2(num)
  }

  /** `formatDate(date, format)`. */
  function FormatDate(year: int, month: nat, day: nat, format: string, localeText: string): string {
    if format == "YYYY-MM-DD" then IntToString(year) + "-" + Pad(month) + "-" + Pad(day)
    else if format == "MM/DD/YYYY" then Pad(month) + "/" + Pad(day) + "/" + IntToString(year)
    else if format == "DD/MM/YYYY" then Pad(day) + "/" + Pad(month) + "/" + IntToString(year)
    else if format == "Month Day, Year" then localeText
    else IntToString(year) + "-" + Pad(month) + "-" + Pad(day)
  }

  predicate KnownFormat(format: string) {
    format in {"YYYY-MM-DD", "MM/DD/YYYY", "DD/MM/YYYY", "Month Day, Year"}
  }

  /** Day and month numbers below 100 are spelled with exactly two digits and read back. */
  lemma PadTwoDigits(num: nat)
    requires num < 100
    ensures |Pad(num)| == 2 && AllDigits(Pad(num))
    ensures ParseInt(Pad(num)) == Int(num)
  {
    Pad2Value(num);
  }

  /** Any format the switch does not know falls back to the ISO spelling. */
  lemma UnknownFormatIsIso(year: int, month: nat, day: nat, format: string, localeText: string)
    requires !KnownFormat(format)
    ensures FormatDate(year, month, day, format, localeText) == FormatDate(year, month, day, "YYYY-MM-DD", localeText)
  {
  }

  /** The two slash formats hold the same pieces with month and day swapped. */
  lemma SlashFormatsSwap(year: int, month: nat, day: nat, localeText: string)
    ensures FormatDate(year, month, day, "DD/MM/YYYY", localeText) == FormatDate(year, day, month, "MM/DD/YYYY", localeText)
  {
  }

  lemma DigitsHaveNo(s: string, c: char)
    requires AllDigits(s) && !IsDigit(c)
    ensures c !in s
  {
  }

  /**
   * The ISO spelling of a date in a non-negative year splits at '-' into the year,
   * the month and the day, and each piece reads back as its number.
   */
  lemma IsoReadsBack(year: nat, month: nat, day: nat, localeText: string)
    requires 1 <= month <= 12 && 1 <= day <= 31
    ensures var pieces := Split(FormatDate(year, month, day, "YYYY-MM-DD", localeText), '-');
            |pieces| == 3
            && pieces == [NatToString(year), Pad(month), Pad(day)]
            && ParseInt(pieces[0]) == Int(year)
            && ParseInt(pieces[1]) == Int(month)
            && ParseInt(pieces[2]) == Int(day)
  {
    PadTwoDigits(month);
    PadTwoDigits(day);
    DigitsHaveNo(NatToString(year), '-');
    DigitsHaveNo(Pad(month), '-');
    DigitsHaveNo(Pad(day), '-');
    SplitTriple(NatToString(year), '-', Pad(month), Pad(day));
    ParseIntNatToString(year);
  }

  /** A signed year is spelled with digits and at most a leading '-', never a '/'. */
  lemma IntHasNoSlash(year: int)
    ensures '/' !in IntToString(year)
  {
    var n := if year < 0 then -year else year;
    DigitsHaveNo(NatToString(n), '/');
    if year < 0 {
      assert IntToString(year) == "-" + NatToString(n);
    }
  }

  /**
   * The "MM/DD/YYYY" spelling splits at '/' into the month, the day and the year,
   * for any year, and each piece reads back as its number.
   */
  lemma SlashReadsBack(year: int, month: nat, day: nat, localeText: string)
    requires 1 <= month <= 12 && 1 <= day <= 31
    ensures var pieces := Split(FormatDate(year, month, day, "MM/DD/YYYY", localeText), '/');
            |pieces| == 3
            && pieces == [Pad(month), Pad(day), IntToString(year)]
            && ParseInt(pieces[0]) == Int(month)
            && ParseInt(pieces[1]) == Int(day)
            && ParseInt(pieces[2]) == Int(year)
  {
    PadTwoDigits(month);
    PadTwoDigits(day);
    DigitsHaveNo(Pad(month), '/');
    DigitsHaveNo(Pad(day), '/');
    IntHasNoSlash(year);
    SplitTriple(Pad(month), '/', Pad(day), IntToString(year));
    ParseIntIntToString(year);
  }
}
