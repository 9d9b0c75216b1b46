/**
 * `generateTimestamp`: the clock reading is rendered as decimal fields and
 * each token of the pattern is replaced, in a fixed order, by its field.
 *
 * `String.prototype.replace` with a string pattern replaces only the FIRST
 * occurrence, so every token is substituted at most once. The year is
 * `String(getFullYear())` and is not padded. The clock is not read here: the
 * local date and time are a parameter.
 */
module Timestamp {
  import opened Wrappers
  import Text

  /** The local-time readings `getFullYear`, `getMonth` (0 for January), `getDate`, `getHours`, ... */
  datatype LocalTime = LocalTime(
    year: int,
    monthIndex: nat,
    day: nat,
    hours: nat,
    minutes: nat,
    seconds: nat,
    milliseconds: nat)

  /** The ranges a JavaScript `Date` reports its local fields in. */
  predicate ValidTime(t: LocalTime) {
    t.monthIndex < 12 && 1 <= t.day <= 31 && t.hours < 24
    && t.minutes < 60 && t.seconds < 60 && t.milliseconds < 1000
  }

  const DefaultFormat := "YYYYMMDD_HHmmss"

  /** `String(n).padStart(width, '0')`. */
  function Field(n: nat, width: nat): string {
    Text.PadStart(Text.NatToDecimal(n), width, '0')
  }

  /** The text each token is replaced by. */
  function YearText(t: LocalTime): string { Text.IntToDecimal(t.year) }
  function MonthText(t: LocalTime): string { Field(t.monthIndex + 1, 2) }
  function DayText(t: LocalTime): string { Field(t.day, 2) }
  function HoursText(t: LocalTime): string { Field(t.hours, 2) }
  function MinutesText(t: LocalTime): string { Field(t.minutes, 2) }
  function SecondsText(t: LocalTime): string { Field(t.seconds, 2) }
  function MillisecondsText(t: LocalTime): string { Field(t.milliseconds, 3) }

  /** The first six replacements, `YYYY` through `ss`. */
  function ReplaceDateTime(format: string, t: LocalTime): string {
    var y := Text.ReplaceFirst(format, "YYYY", YearText(t));
    var mo := Text.ReplaceFirst(y, "MM", MonthText(t));
    var d := Text.ReplaceFirst(mo, "DD", DayText(t));
    var h := Text.ReplaceFirst(d, "HH", HoursText(t));
    var mi := Text.ReplaceFirst(h, "mm", MinutesText(t));
    Text.ReplaceFirst(mi, "ss", SecondsText(t))
  }

  /** `generateTimestamp(format)` at local time `t`; None stands for an omitted format. */
  function GenerateTimestamp(format: Option<string>, t: LocalTime): string {
    Render(if format.Some? then format.value else DefaultFormat, t)
  }

  /** All seven replacements, in the order the source applies them. */
  function Render(format: string, t: LocalTime): string {
    Text.ReplaceFirst(ReplaceDateTime(format, t), "SSS", MillisecondsText(t))
  }

  // ---------------------------------------------------------------------------
  // Fields

  /** A padded field is all digits, at least `width` long, exactly `width` long when the value fits, and reads back as the value. */
  lemma PaddedField(n: nat, width: nat)
    requires width >= 1
    ensures Text.AllDigits(Field(n, width))
    ensures |Field(n, width)| >= width
    ensures n < Text.Pow10(width) ==> |Field(n, width)| == width
    ensures Text.DecimalValue(Field(n, width)) == n
  {
    var s := Text.NatToDecimal(n);
    Text.DecimalRoundTrip(n);
    if |s| < width {
      assert Field(n, width) == Text.Zeros(width - |s|) + s;
      Text.LeadingZerosIgnored(width - |s|, s);
    }
    if n < Text.Pow10(width) {
      Text.DecimalWidth(n, width);
    }
  }

  /** A year of four digits is written as exactly those four digits. */
  lemma FourDigitYear(t: LocalTime)
    requires 1000 <= t.year <= 9999
    ensures |YearText(t)| == 4 && Text.AllDigits(YearText(t))
    ensures Text.DecimalValue(YearText(t)) == t.year
  {
    assert Text.Pow10(3) == 1000 && Text.Pow10(4) == 10000;
    Text.DecimalWidthExact(t.year, 4);
    Text.DecimalRoundTrip(t.year);
  }

  /** The year is not padded: a year below 1000 is written with fewer than four characters. */
  lemma ShortYearUnpadded(t: LocalTime)
    requires 0 <= t.year < 1000
    ensures 1 <= |YearText(t)| < 4 && Text.DecimalValue(YearText(t)) == t.year
  {
    assert Text.Pow10(3) == 1000;
    Text.DecimalWidth(t.year, 3);
    Text.DecimalRoundTrip(t.year);
  }

  // ---------------------------------------------------------------------------
  // Text without tokens

  /** A character that does not begin any token. */
  predicate Inert(c: char) {
    c != 'Y' && c != 'M' && c != 'D' && c != 'H' && c != 'm' && c != 's' && c != 'S'
  }

  predicate InertText(s: string) {
    forall i :: 0 <= i < |s| ==> Inert(s[i])
  }

  lemma InertConcat(a: string, b: string)
    requires InertText(a) && InertText(b)
    ensures InertText(a + b)
  {
  }

  lemma DigitsAreInert(s: string)
    requires Text.AllDigits(s)
    ensures InertText(s)
  {
  }

  /** A padded field holds digits only. */
  lemma FieldIsInert(n: nat, width: nat)
    requires width >= 1
    ensures InertText(Field(n, width))
  {
    PaddedField(n, width);
    DigitsAreInert(Field(n, width));
  }

  /** The year is digits, after a minus sign when it is negative. */
  lemma YearIsInert(t: LocalTime)
    ensures InertText(YearText(t))
  {
    if t.year < 0 {
      DigitsAreInert(Text.NatToDecimal(-t.year));
      InertConcat("-", Text.NatToDecimal(-t.year));
    } else {
      DigitsAreInert(Text.NatToDecimal(t.year));
    }
  }

  /** Every field the formatter writes is free of token letters. */
  lemma FieldsAreInert(t: LocalTime)
    ensures InertText(YearText(t)) && InertText(MonthText(t)) && InertText(DayText(t))
    ensures InertText(HoursText(t)) && InertText(MinutesText(t)) && InertText(SecondsText(t))
    ensures InertText(MillisecondsText(t))
  {
    YearIsInert(t);
    FieldIsInert(t.monthIndex + 1, 2);
    FieldIsInert(t.day, 2);
    FieldIsInert(t.hours, 2);
    FieldIsInert(t.minutes, 2);
    FieldIsInert(t.seconds, 2);
    FieldIsInert(t.milliseconds, 3);
  }

  /** A replacement whose token cannot occur leaves the text alone. */
  lemma NoTokenNoChange(s: string, pat: string, rep: string)
    requires pat != [] && pat[0] !in s
    ensures Text.ReplaceFirst(s, pat, rep) == s
  {
    Text.AbsentFirstChar(s, pat);
  }

  /** A pattern without token letters is returned unchanged. */
  lemma InertPatternUnchanged(format: string, t: LocalTime)
    requires InertText(format)
    ensures GenerateTimestamp(Some(format), t) == format
  {
    NoTokenNoChange(format, "YYYY", YearText(t));
    NoTokenNoChange(format, "MM", MonthText(t));
    NoTokenNoChange(format, "DD", DayText(t));
    NoTokenNoChange(format, "HH", HoursText(t));
    NoTokenNoChange(format, "mm", MinutesText(t));
    NoTokenNoChange(format, "ss", SecondsText(t));
    NoTokenNoChange(format, "SSS", MillisecondsText(t));
  }

  /**
   * A pattern in which none of the seven tokens occurs is returned unchanged,
   * token letters or not ("Download", "Day-Month").
   */
  lemma NoTokenPassesThrough(format: string, t: LocalTime)
    requires forall j: nat :: !Text.OccursAt(format, "YYYY", j) && !Text.OccursAt(format, "MM", j)
    requires forall j: nat :: !Text.OccursAt(format, "DD", j) && !Text.OccursAt(format, "HH", j)
    requires forall j: nat :: !Text.OccursAt(format, "mm", j) && !Text.OccursAt(format, "ss", j)
    requires forall j: nat :: !Text.OccursAt(format, "SSS", j)
    ensures GenerateTimestamp(Some(format), t) == format
  {
  }

  // ---------------------------------------------------------------------------
  // Patterns with the tokens in order

  /** A regrouping of a concatenation, stated once for the proofs below. */
  lemma Regroup(a: string, b: string, c: string, d: string)
    ensures a + (b + c + d) == a + b + c + d
  {
  }

  /** One replacement of a token that is preceded by inert text only. */
  lemma ReplaceAfterInert(pre: string, pat: string, rep: string, post: string)
    requires pat != [] && !Inert(pat[0]) && InertText(pre)
    ensures Text.ReplaceFirst(pre + pat + post, pat, rep) == pre + rep + post
  {
    Text.ReplaceFirstAt(pre, pat, rep, post);
  }

  /**
   * A pattern holding `YYYY`, `MM`, `DD`, `HH`, `mm` and `ss` in this order,
   * separated by inert text, has each of these tokens replaced by its field
   * in place; the text after `ss` is left as it is.
   */
  lemma DateTimeInPlace(t: LocalTime, s0: string, s1: string, s2: string, s3: string, s4: string, s5: string, rest: string)
    requires InertText(s0) && InertText(s1) && InertText(s2) && InertText(s3) && InertText(s4) && InertText(s5)
    ensures ReplaceDateTime(s0 + "YYYY" + (s1 + "MM" + (s2 + "DD" + (s3 + "HH" + (s4 + "mm" + (s5 + "ss" + rest))))), t)
         == s0 + YearText(t) + s1 + MonthText(t) + s2 + DayText(t) + s3 + HoursText(t) + s4 + MinutesText(t) + s5 + SecondsText(t) + rest
  {
    FieldsAreInert(t);
    var t5 := s5 + "ss" + rest;
    var t4 := s4 + "mm" + t5;
    var t3 := s3 + "HH" + t4;
    var t2 := s2 + "DD" + t3;
    var t1 := s1 + "MM" + t2;
    var p1 := s0 + YearText(t);
    ReplaceAfterInert(s0, "YYYY", YearText(t), t1);
    Regroup(p1, s1, "MM", t2);
    InertConcat(s0, YearText(t));
    InertConcat(p1, s1);
    ReplaceAfterInert(p1 + s1, "MM", MonthText(t), t2);
    var p2 := p1 + s1 + MonthText(t);
    Regroup(p2, s2, "DD", t3);
    InertConcat(p1 + s1, MonthText(t));
    InertConcat(p2, s2);
    ReplaceAfterInert(p2 + s2, "DD", DayText(t), t3);
    var p3 := p2 + s2 + DayText(t);
    Regroup(p3, s3, "HH", t4);
    InertConcat(p2 + s2, DayText(t));
    InertConcat(p3, s3);
    ReplaceAfterInert(p3 + s3, "HH", HoursText(t), t4);
    var p4 := p3 + s3 + HoursText(t);
    Regroup(p4, s4, "mm", t5);
    InertConcat(p3 + s3, HoursText(t));
    InertConcat(p4, s4);
    ReplaceAfterInert(p4 + s4, "mm", MinutesText(t), t5);
    var p5 := p4 + s4 + MinutesText(t);
    Regroup(p5, s5, "ss", rest);
    InertConcat(p4 + s4, MinutesText(t));
    InertConcat(p5, s5);
    ReplaceAfterInert(p5 + s5, "ss", SecondsText(t), rest);
  }

  /** The text `DateTimeInPlace` produces before `rest` holds no token letters. */
  lemma DateTimePrefixInert(t: LocalTime, s0: string, s1: string, s2: string, s3: string, s4: string, s5: string)
    requires InertText(s0) && InertText(s1) && InertText(s2) && InertText(s3) && InertText(s4) && InertText(s5)
    ensures InertText(s0 + YearText(t) + s1 + MonthText(t) + s2 + DayText(t) + s3 + HoursText(t) + s4 + MinutesText(t) + s5 + SecondsText(t))
  {
    FieldsAreInert(t);
    var p := s0 + YearText(t);
    InertConcat(s0, YearText(t));
    InertConcat(p, s1);
    InertConcat(p + s1, MonthText(t));
    p := p + s1 + MonthText(t);
    InertConcat(p, s2);
    InertConcat(p + s2, DayText(t));
    p := p + s2 + DayText(t);
    InertConcat(p, s3);
    InertConcat(p + s3, HoursText(t));
    p := p + s3 + HoursText(t);
    InertConcat(p, s4);
    InertConcat(p + s4, MinutesText(t));
    p := p + s4 + MinutesText(t);
    InertConcat(p, s5);
    InertConcat(p + s5, SecondsText(t));
  }

  /**
   * A pattern holding all seven tokens in order, separated by inert text, has
   * each token replaced by its field in place.
   */
  lemma AllTokensInPlace(t: LocalTime, s0: string, s1: string, s2: string, s3: string, s4: string, s5: string, s6: string, rest: string)
    requires InertText(s0) && InertText(s1) && InertText(s2) && InertText(s3) && InertText(s4) && InertText(s5) && InertText(s6)
    ensures GenerateTimestamp(Some(s0 + "YYYY" + (s1 + "MM" + (s2 + "DD" + (s3 + "HH" + (s4 + "mm" + (s5 + "ss" + (s6 + "SSS" + rest))))))), t)
         == s0 + YearText(t) + s1 + MonthText(t) + s2 + DayText(t) + s3 + HoursText(t) + s4 + MinutesText(t) + s5 + SecondsText(t)
            + s6 + MillisecondsText(t) + rest
  {
    var p := s0 + YearText(t) + s1 + MonthText(t) + s2 + DayText(t) + s3 + HoursText(t) + s4 + MinutesText(t) + s5 + SecondsText(t);
    DateTimeInPlace(t, s0, s1, s2, s3, s4, s5, s6 + "SSS" + rest);
    Regroup(p, s6, "SSS", rest);
    DateTimePrefixInert(t, s0, s1, s2, s3, s4, s5);
    InertConcat(p, s6);
    ReplaceAfterInert(p + s6, "SSS", MillisecondsText(t), rest);
  }

  // The default pattern. The empty separator and "_" are parameters fixed by the
  // preconditions rather than literals: the verifier evaluates `replace` on
  // literal strings eagerly, which makes the proof too costly. SpellDefaultFormat
  // and DropEmpty each state one fact about the literals, so that no proof has to
  // work through the whole concatenation at once.

  lemma SpellDefaultFormat(f: string, e: string, u: string)
    requires f == DefaultFormat && e == "" && u == "_"
    ensures f == e + "YYYY" + (e + "MM" + (e + "DD" + (u + "HH" + (e + "mm" + (e + "ss" + e)))))
    ensures InertText(e) && InertText(u)
  {
  }

  lemma DropEmpty(e: string, a: string, b: string, c: string, u: string, d: string, f: string, g: string)
    requires e == []
    ensures e + a + e + b + e + c + u + d + e + f + e + g + e == a + b + c + u + d + f + g
  {
  }

  /** The default pattern, rendered, is year, month, day, `_`, hours, minutes, seconds. */
  lemma DefaultRendered(f: string, t: LocalTime, e: string, u: string)
    requires f == DefaultFormat && e == "" && u == "_"
    ensures Render(f, t)
         == YearText(t) + MonthText(t) + DayText(t) + u + HoursText(t) + MinutesText(t) + SecondsText(t)
  {
    var r := YearText(t) + MonthText(t) + DayText(t) + u + HoursText(t) + MinutesText(t) + SecondsText(t);
    SpellDefaultFormat(f, e, u);
    DateTimeInPlace(t, e, e, e, u, e, e, e);
    DateTimePrefixInert(t, e, e, e, u, e, e);
    DropEmpty(e, YearText(t), MonthText(t), DayText(t), u, HoursText(t), MinutesText(t), SecondsText(t));
    NoTokenNoChange(r, "SSS", MillisecondsText(t));
  }

  /** With the pattern omitted, the timestamp is year, month, day, `_`, hours, minutes, seconds. */
  lemma DefaultTimestamp(t: LocalTime)
    ensures GenerateTimestamp(None, t)
         == YearText(t) + MonthText(t) + DayText(t) + "_" + HoursText(t) + MinutesText(t) + SecondsText(t)
  {
    DefaultRendered(DefaultFormat, t, "", "_");
  }

  /** Where each of seven consecutive pieces sits in their concatenation. */
  lemma Layout(a: string, b: string, c: string, d: string, e: string, f: string, g: string)
    requires |a| == 4 && |b| == 2 && |c| == 2 && |d| == 1 && |e| == 2 && |f| == 2 && |g| == 2
    ensures var s := a + b + c + d + e + f + g;
      |s| == 15 && s[..4] == a && s[4..6] == b && s[6..8] == c && s[8] == d[0]
      && s[9..11] == e && s[11..13] == f && s[13..] == g
  {
  }

  /** Each field, as digits that read back as `v`. */
  predicate Reads(s: string, v: int) {
    Text.AllDigits(s) && Text.DecimalValue(s) == v
  }

  /**
   * For a valid reading in a four-digit year, the default timestamp is
   * fifteen characters: four digits of year, two each of month (counted
   * from 1) and day, `_`, then two each of hours, minutes and seconds, every
   * field reading back as the clock value it was made from.
   */
  lemma DefaultTimestampFields(t: LocalTime)
    requires ValidTime(t) && 1000 <= t.year <= 9999
    ensures var r := GenerateTimestamp(None, t);
      |r| == 15 && r[8] == '_'
      && Reads(r[..4], t.year) && Reads(r[4..6], t.monthIndex + 1) && Reads(r[6..8], t.day)
      && Reads(r[9..11], t.hours) && Reads(r[11..13], t.minutes) && Reads(r[13..], t.seconds)
  {
    DefaultTimestamp(t);
    FourDigitYear(t);
    assert Text.Pow10(2) == 100;
    PaddedField(t.monthIndex + 1, 2);
    PaddedField(t.day, 2);
    PaddedField(t.hours, 2);
    PaddedField(t.minutes, 2);
    PaddedField(t.seconds, 2);
    Layout(YearText(t), MonthText(t), DayText(t), "_", HoursText(t), MinutesText(t), SecondsText(t));
  }

  /** Text whose only token letter is `D`. */
  predicate DayLettersOnly(s: string) {
    forall i :: 0 <= i < |s| ==> s[i] == 'D' || Inert(s[i])
  }

  lemma DayLettersConcat(a: string, b: string)
    requires DayLettersOnly(a) && DayLettersOnly(b)
    ensures DayLettersOnly(a + b)
  {
  }

  /**
   * Only the first occurrence of a token is replaced: in a pattern whose
   * other letters are inert, everything after the first `DD`, further `DD`s
   * included, is kept as it is.
   */
  lemma DayReplacedOnce(t: LocalTime, pre: string, rest: string)
    requires InertText(pre) && DayLettersOnly(rest)
    ensures GenerateTimestamp(Some(pre + "DD" + rest), t) == pre + DayText(t) + rest
  {
    var f := pre + "DD" + rest;
    DayLettersConcat(pre, "DD");
    DayLettersConcat(pre + "DD", rest);
    NoTokenNoChange(f, "YYYY", YearText(t));
    NoTokenNoChange(f, "MM", MonthText(t));
    ReplaceAfterInert(pre, "DD", DayText(t), rest);
    var r := pre + DayText(t) + rest;
    FieldsAreInert(t);
    DayLettersConcat(pre, DayText(t));
    DayLettersConcat(pre + DayText(t), rest);
    NoTokenNoChange(r, "HH", HoursText(t));
    NoTokenNoChange(r, "mm", MinutesText(t));
    NoTokenNoChange(r, "ss", SecondsText(t));
    NoTokenNoChange(r, "SSS", MillisecondsText(t));
  }

  /** The spelling of `DD/DD`, with its literals fixed by preconditions as for the default pattern. */
  lemma SpellRepeatedDay(f: string, e: string, rest: string)
    requires f == "DD/DD" && e == "" && rest == "/DD"
    ensures f == e + "DD" + rest && InertText(e) && DayLettersOnly(rest)
  {
  }

  /** `DD/DD` becomes the day, a slash, and `DD` still. */
  lemma RepeatedDayExample(f: string, t: LocalTime)
    requires f == "DD/DD"
    ensures GenerateTimestamp(Some(f), t) == DayText(t) + "/DD"
  {
    SpellRepeatedDay(f, "", "/DD");
    DayReplacedOnce(t, "", "/DD");
  }
}
