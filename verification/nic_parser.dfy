/**
 * NICParser: Sri Lankan National Identity Card numbers in the old layout
 * (nine digits and V or X) and the new layout (twelve digits). The birth
 * year and a day of year come from fixed digit positions; women's day of
 * year is coded with 500 added.
 */
module NicParser {
  import opened Common
  import opened Dates
  import opened Digits

  /** The exceptions extractDOB throws, one per guard. */
  datatype NicError =
    | NullNic
    | InvalidFormat(nic: string)
    | InvalidYear(year: int)
    | InvalidDayOfYear(day: int)
    | DateOutOfRange(year: int, day: int)

  /** String.trim removes every character up to U+0020 from both ends. */
  predicate IsTrimmable(c: char) {
    c <= ' '
  }

  function TrimStart(s: string): (t: string)
    ensures |t| <= |s| && t == s[|s| - |t|..]
    ensures forall i :: 0 <= i < |s| - |t| ==> IsTrimmable(s[i])
    ensures t == [] || !IsTrimmable(t[0])
  {
    if |s| > 0 && IsTrimmable(s[0]) then TrimStart(s[1..]) else s
  }

  function TrimEnd(s: string): (t: string)
    ensures |t| <= |s| && t == s[..|t|]
    ensures forall i :: |t| <= i < |s| ==> IsTrimmable(s[i])
    ensures t == [] || !IsTrimmable(t[|t| - 1])
  {
    if |s| > 0 && IsTrimmable(s[|s| - 1]) then TrimEnd(s[..|s| - 1]) else s
  }

  /** String.trim: the longest middle part of s that starts and ends with a non-blank. */
  function Trim(s: string): (t: string)
    ensures exists i, j :: (0 <= i <= j <= |s| && t == s[i..j] &&
      (forall k :: 0 <= k < i ==> IsTrimmable(s[k])) &&
      (forall k :: j <= k < |s| ==> IsTrimmable(s[k])))
    ensures t == [] || (!IsTrimmable(t[0]) && !IsTrimmable(t[|t| - 1]))
  {
    var a := TrimStart(s);
    var t := TrimEnd(a);
    assert t == s[|s| - |a|..|s| - |a| + |t|];
    t
  }

  /** Trimming a trimmed string changes nothing (extractDOB trims again what processCSV trimmed). */
  lemma TrimIdempotent(s: string)
    ensures Trim(Trim(s)) == Trim(s)
  {
    var t := Trim(s);
    assert TrimStart(t) == t;
    assert TrimEnd(t) == t;
  }

  /** Upper-casing of one character; only ASCII letters are mapped. */
  function UpperChar(c: char): (u: char)
    ensures 'a' <= c <= 'z' ==> u as int == c as int - 32
    ensures !('a' <= c <= 'z') ==> u == c
  {
    if 'a' <= c <= 'z' then (c as int - 32) as char else c
  }

  /** String.toUpperCase, restricted to ASCII letters. */
  function ToUpper(s: string): (u: string)
    ensures |u| == |s|
    ensures forall i :: 0 <= i < |s| ==> u[i] == UpperChar(s[i])
  {
    if s == [] then [] else [UpperChar(s[0])] + ToUpper(s[1..])
  }

  /** The text the parser matches against: nic.trim().toUpperCase(). */
  function Normalize(nic: string): string {
    ToUpper(Trim(nic))
  }

  /** The regular expression \d{9}[VX]. */
  predicate IsOldFormat(s: string) {
    |s| == 10 && AllDigits(s[..9]) && (s[9] == 'V' || s[9] == 'X')
  }

  /** The regular expression \d{12}. */
  predicate IsNewFormat(s: string) {
    |s| == 12 && AllDigits(s)
  }

  /** The birth year and the raw (gender-coded) day of year read from a number. */
  datatype NicFields = NicFields(year: int, rawDay: int)

  /** The digit positions of both layouts, applied to an already normalised number. */
  function Fields(s: string): (f: Option<NicFields>)
    ensures f.Some? <==> IsOldFormat(s) || IsNewFormat(s)
    ensures IsOldFormat(s) ==>
      f.value.year == 1900 + 10 * DigitValue(s[0]) + DigitValue(s[1]) &&
      f.value.rawDay == 100 * DigitValue(s[2]) + 10 * DigitValue(s[3]) + DigitValue(s[4])
    ensures IsNewFormat(s) ==>
      f.value.year == 1000 * DigitValue(s[0]) + 100 * DigitValue(s[1]) + 10 * DigitValue(s[2]) + DigitValue(s[3]) &&
      f.value.rawDay == 100 * DigitValue(s[4]) + 10 * DigitValue(s[5]) + DigitValue(s[6])
  {
    if IsOldFormat(s) then
      ParseDigitsPositions(s[0..2]);
      ParseDigitsPositions(s[2..5]);
      Some(NicFields(1900 + DigitsValue(s[0..2]), DigitsValue(s[2..5])))
    else if IsNewFormat(s) then
      ParseDigitsPositions(s[0..4]);
      ParseDigitsPositions(s[4..7]);
      Some(NicFields(DigitsValue(s[0..4]), DigitsValue(s[4..7])))
    else
      None
  }

  /** Positional values of two-, three- and four-digit numbers. */
  lemma ParseDigitsPositions(s: string)
    requires AllDigits(s) && 2 <= |s| <= 4
    ensures |s| == 2 ==> DigitsValue(s) == 10 * DigitValue(s[0]) + DigitValue(s[1])
    ensures |s| == 3 ==> DigitsValue(s) == 100 * DigitValue(s[0]) + 10 * DigitValue(s[1]) + DigitValue(s[2])
    ensures |s| == 4 ==>
      DigitsValue(s) == 1000 * DigitValue(s[0]) + 100 * DigitValue(s[1]) + 10 * DigitValue(s[2]) + DigitValue(s[3])
  {
    var p1 := s[..1];
    assert DigitsValue(p1) == DigitValue(s[0]) by {
      assert p1[..0] == [];
    }
    var p2 := s[..2];
    assert p2[..1] == p1;
    if |s| >= 3 {
      var p3 := s[..3];
      assert p3[..2] == p2;
      if |s| == 4 {
        assert s[..3] == p3;
      } else {
        assert s == p3;
      }
    } else {
      assert s == p2;
    }
  }

  /** The day of year after removing the +500 coding of women. */
  function AdjustedDay(rawDay: int): int {
    if rawDay > 500 then rawDay - 500 else rawDay
  }

  /**
   * NICParser.extractDOB with LocalDate.now() passed in as today: the date of
   * birth, or the exception the source throws. ExtractDobAcceptance and
   * ExtractDobDate state what it accepts and what it returns.
   */
  function ExtractDOB(nic: Option<string>, today: Date): (r: Result<Date, NicError>)
    ensures r.Success? ==> ValidDate(r.value)
  {
    match nic
    case None => Failure(NullNic)
    case Some(raw) =>
      var s := Normalize(raw);
      match Fields(s)
      case None => Failure(InvalidFormat(s))
      case Some(f) =>
        if f.year < 1900 || f.year > today.year then
          Failure(InvalidYear(f.year))
        else if f.rawDay < 1 || f.rawDay > 866 then
          Failure(InvalidDayOfYear(f.rawDay))
        else
          var day := AdjustedDay(f.rawDay);
          match OfYearDay(f.year, day)
          case None => Failure(DateOutOfRange(f.year, day))
          case Some(d) => Success(d)
  }

  /**
   * extractDOB succeeds exactly on a number in one of the two layouts whose
   * year lies in 1900..today's year and whose raw day, less 500 when above
   * 500, is a day of that year; a null number and a number in neither layout
   * fail with their own exceptions.
   */
  lemma ExtractDobAcceptance(nic: Option<string>, today: Date)
    ensures nic.None? ==> ExtractDOB(nic, today) == Failure(NullNic)
    ensures nic.Some? && Fields(Normalize(nic.value)).None? ==>
      ExtractDOB(nic, today) == Failure(InvalidFormat(Normalize(nic.value)))
    ensures ExtractDOB(nic, today).Success? <==>
      nic.Some? && Fields(Normalize(nic.value)).Some? &&
      var f := Fields(Normalize(nic.value)).value;
      1900 <= f.year <= today.year &&
      (1 <= f.rawDay <= DaysInYear(f.year) || 501 <= f.rawDay <= 500 + DaysInYear(f.year))
  {
    if nic.Some? {
      var s := Normalize(nic.value);
      match Fields(s) {
        case None =>
        case Some(f) =>
          if 1900 <= f.year <= today.year && 1 <= f.rawDay <= 866 {
            var day := AdjustedDay(f.rawDay);
            assert OfYearDay(f.year, day).Some? <==> 1 <= day <= DaysInYear(f.year);
          }
      }
    }
  }

  /** The extracted date lies in the coded year, on the coded day less the 500 of women. */
  lemma ExtractDobDate(nic: Option<string>, today: Date)
    requires ExtractDOB(nic, today).Success?
    ensures var f := Fields(Normalize(nic.value)).value;
      var d := ExtractDOB(nic, today).value;
      d.year == f.year && DayOfYear(d) == (if f.rawDay > 500 then f.rawDay - 500 else f.rawDay)
  {
  }

  /**
   * NICParser.extractGender: never throws; "Unknown" for null or a number in
   * neither layout, else "Female" exactly when the raw day is above 500.
   */
  function ExtractGender(nic: Option<string>): (g: string)
    ensures g == "Male" || g == "Female" || g == "Unknown"
  {
    match nic
    case None => "Unknown"
    case Some(raw) =>
      match Fields(Normalize(raw))
      case None => "Unknown"
      case Some(f) => if f.rawDay > 500 then "Female" else "Male"
  }

  lemma ExtractGenderCases(nic: Option<string>)
    ensures ExtractGender(nic) == "Unknown" <==> nic.None? || Fields(Normalize(nic.value)).None?
    ensures ExtractGender(nic) == "Female" <==>
      nic.Some? && Fields(Normalize(nic.value)).Some? && Fields(Normalize(nic.value)).value.rawDay > 500
  {
  }

  /** Whenever a date of birth is extracted, the gender is known, and it is female exactly for coded days. */
  lemma GenderKnownWhenDobExtracted(nic: Option<string>, today: Date)
    requires ExtractDOB(nic, today).Success?
    ensures ExtractGender(nic) != "Unknown"
    ensures ExtractGender(nic) == "Female" <==>
      DayOfYear(ExtractDOB(nic, today).value) + 500 == Fields(Normalize(nic.value)).value.rawDay
  {
    ExtractDobDate(nic, today);
  }

  /**
   * NICParser.calculateAge with LocalDate.now() passed in as today: 0 for a
   * date of birth after today, else the number of whole years since it.
   */
  function CalculateAge(dob: Date, today: Date): (age: int)
    requires ValidDate(dob) && ValidDate(today)
    ensures age >= 0
    ensures IsAfter(dob, today) ==> age == 0
    ensures !IsAfter(dob, today) ==>
      !IsAfter(Date(dob.year + age, dob.month, dob.day), today) &&
      IsAfter(Date(dob.year + age + 1, dob.month, dob.day), today)
  {
    if IsAfter(dob, today) then 0
    else
      PeriodYears(dob, today)
  }

  /** The documented example 823456789V: male, born on 11 December 1982. */
  lemma OldFormatExample(today: Date)
    requires today.year >= 1982
    ensures ExtractDOB(Some("823456789V"), today) == Success(Date(1982, 12, 11))
    ensures ExtractGender(Some("823456789V")) == "Male"
  {
    var s := "823456789V";
    ExampleFields(s);
    ExampleDayOfYear();
    OfYearDayOfDayOfYear(Date(1982, 12, 11));
  }

  lemma ExampleDayOfYear()
    ensures DayOfYear(Date(1982, 12, 11)) == 345
  {
    assert !IsLeapYear(1982);
  }

  lemma ExampleFields(s: string)
    requires s == "823456789V"
    ensures Fields(Normalize(s)) == Some(NicFields(1982, 345))
  {
    ExampleNormalized(s);
    assert IsOldFormat(s) by {
      assert AllDigits(s[..9]);
    }
  }

  lemma ExampleNormalized(s: string)
    requires s == "823456789V"
    ensures Normalize(s) == s
  {
    assert TrimStart(s) == s;
    assert TrimEnd(s) == s;
    var u := ToUpper(s);
    forall i | 0 <= i < |s| ensures u[i] == s[i] {
      assert UpperChar(s[i]) == s[i];
    }
  }
}
