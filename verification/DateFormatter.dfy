/** Printing and parsing dates as dd.mm.yyyy. */
module DateFormatter {
  import opened Tables
  import opened JsDate

  // ------------------------------------------------ decimal numbers

  predicate IsDigit(c: char) { '0' <= c <= '9' }

  function DigitOf(d: nat): char
    requires d < 10
  {
    (d + '0' as nat) as char
  }

  function ValueOf(c: char): nat
    requires IsDigit(c)
  {
    c as nat - '0' as nat
  }

  function Digits(n: nat): (s: string)
    ensures s != []
  {
    if n < 10 then [DigitOf(n)] else Digits(n / 10) + [DigitOf(n % 10)]
  }

  /** `String(n)`. */
  function ToString(n: int): string { if n < 0 then "-" + Digits(-n) else Digits(n) }

  function PadStart2(s: string): string { if |s| == 0 then "00" else if |s| == 1 then "0" + s else s }

  predicate AllDigits(s: string) { forall i :: 0 <= i < |s| ==> IsDigit(s[i]) }

  function ValueOfDigits(s: string): nat
    requires AllDigits(s)
  {
    if s == "" then 0 else 10 * ValueOfDigits(s[..|s| - 1]) + ValueOf(s[|s| - 1])
  }

  /** The leading digits of a string. */
  function DigitPrefix(s: string): (p: string)
    ensures p <= s && AllDigits(p)
  {
    if s != "" && IsDigit(s[0]) then [s[0]] + DigitPrefix(s[1..]) else ""
  }

  /** White space and line terminators of section 12 of ECMA-262. */
  predicate IsSpace(c: char) {
    c == '\t' || c == '\n' || c == '\U{000B}' || c == '\U{000C}' || c == '\r' || c == ' ' || c == '\U{00A0}'
    || c == '\U{1680}'
    || '\U{2000}' <= c <= '\U{200A}' || c == '\U{2028}' || c == '\U{2029}' || c == '\U{202F}' || c == '\U{205F}'
    || c == '\U{3000}'
    || c == '\U{FEFF}'
  }

  function TrimStart(s: string): string { if s != "" && IsSpace(s[0]) then TrimStart(s[1..]) else s }

  /** `parseInt(s, 10)`: leading space, a sign and the digits that follow; the rest is ignored. */
  function ParseInt(s: string): Option<int> {
    var t := TrimStart(s);
    var negative := t != "" && t[0] == '-';
    var body := if t != "" && (t[0] == '-' || t[0] == '+') then t[1..] else t;
    var digits := DigitPrefix(body);
    var value: int := ValueOfDigits(digits);
    if digits == "" then None else Some(if negative then -value else value)
  }

  lemma {:induction false} DigitsRead(n: nat)
    ensures AllDigits(Digits(n)) && ValueOfDigits(Digits(n)) == n
  {
    if n >= 10 {
      DigitsRead(n / 10);
      var s := Digits(n);
      assert s[..|s| - 1] == Digits(n / 10) && s[|s| - 1] == DigitOf(n % 10);
    } else {
      assert Digits(n)[..0] == "";
    }
  }

  lemma {:induction false} PrefixOfDigits(s: string)
    requires AllDigits(s)
    ensures DigitPrefix(s) == s
  {
    if s != "" { PrefixOfDigits(s[1..]); }
  }

  lemma ParseDigits(s: string)
    requires AllDigits(s) && s != ""
    ensures ParseInt(s) == Some(ValueOfDigits(s))
  {
    assert IsDigit(s[0]) && TrimStart(s) == s;
    PrefixOfDigits(s);
  }

  lemma {:induction false} LeadingZero(s: string)
    requires AllDigits(s)
    ensures AllDigits("0" + s) && ValueOfDigits("0" + s) == ValueOfDigits(s)
  {
    var t := "0" + s;
    if s == "" {
      assert t[..0] == "";
    } else {
      assert t[..|t| - 1] == "0" + s[..|s| - 1];
      LeadingZero(s[..|s| - 1]);
    }
  }

  /** `parseInt` undoes `String`, padded or not. */
  lemma ParseToString(n: int)
    ensures ParseInt(ToString(n)) == Some(n)
    ensures n >= 0 ==> ParseInt(PadStart2(ToString(n))) == Some(n) && AllDigits(PadStart2(ToString(n)))
  {
    if n >= 0 {
      DigitsRead(n);
      ParseDigits(Digits(n));
      LeadingZero(Digits(n));
      ParseDigits("0" + Digits(n));
    } else {
      DigitsRead(-n);
      var s := ToString(n);
      assert TrimStart(s) == s && s[1..] == Digits(-n);
      PrefixOfDigits(Digits(-n));
    }
  }

  // ------------------------------------------------ splitting at dots

  function Split(s: string): (parts: seq<string>)
    ensures parts != []
  {
    if s == "" then [""]
    else
      var rest := Split(s[1..]);
      if s[0] == '.' then [""] + rest else [[s[0]] + rest[0]] + rest[1..]
  }

  predicate NoDot(s: string) { forall i :: 0 <= i < |s| ==> s[i] != '.' }

  lemma {:induction false} SplitFirst(a: string, s: string)
    requires NoDot(a)
    ensures Split(a + "." + s) == [a] + Split(s)
    ensures Split(a) == [a]
  {
    var t := a + "." + s;
    if a == "" {
      assert t[1..] == s;
    } else {
      assert t[1..] == a[1..] + "." + s;
      SplitFirst(a[1..], s);
      assert [a[0]] + a[1..] == a;
    }
  }

  lemma SplitThree(a: string, b: string, c: string)
    requires NoDot(a) && NoDot(b) && NoDot(c)
    ensures Split(a + "." + b + "." + c) == [a, b, c]
  {
    assert a + "." + b + "." + c == a + "." + (b + "." + c);
    SplitFirst(a, b + "." + c);
    SplitFirst(b, c);
    SplitFirst(c, "");
  }

  // ------------------------------------------------ the two methods

  function ToDDMMYYYY(time: Time): string {
    if time.None? then "NaN.NaN.NaN"
    else
      var c := Fields(time.value);
      PadStart2(ToString(c.day)) + "." + PadStart2(ToString(c.month + 1)) + "." + ToString(c.year)
  }

  /** The date three numbers make; a part that is missing or not a number makes it invalid. */
  function FromDDMMYYYY(date: string): Time {
    var parts := Split(date);
    var day := ParseInt(parts[0]);
    var month := if |parts| > 1 then ParseInt(parts[1]) else None;
    var year := if |parts| > 2 then ParseInt(parts[2]) else None;
    if day.None? || month.None? || year.None? then None else NewDate(year.value, month.value - 1, day.value)
  }

  // ------------------------------------------------ parsing what was printed

  lemma DigitsHaveNoDot(s: string)
    requires AllDigits(s)
    ensures NoDot(s) && NoDot("-" + s)
  {
  }

  lemma ToStringHasNoDot(n: int)
    ensures NoDot(ToString(n))
  {
    DigitsRead(if n < 0 then -n else n);
    DigitsHaveNoDot(Digits(if n < 0 then -n else n));
  }

  /** Parsing a printed day, month and year gives the three numbers back. */
  lemma PartsOfPrinted(d: nat, m: nat, y: int)
    ensures var s := PadStart2(ToString(d)) + "." + PadStart2(ToString(m)) + "." + ToString(y);
            FromDDMMYYYY(s) == NewDate(y, m - 1, d)
  {
    ParseToString(d);
    ParseToString(m);
    ParseToString(y);
    DigitsHaveNoDot(PadStart2(ToString(d)));
    DigitsHaveNoDot(PadStart2(ToString(m)));
    ToStringHasNoDot(y);
    hide ToString, PadStart2, ParseInt, Split, NewDate;
    SplitThree(PadStart2(ToString(d)), PadStart2(ToString(m)), ToString(y));
  }

  function Midnight(t: int): int { MakeTime(Day(t), 0) }

  lemma MidnightIsValid(t: int)
    requires Valid(Some(t))
    ensures TimeClip(Midnight(t)) == Some(Midnight(t)) && Day(Midnight(t)) == Day(t)
  {
  }

  lemma LaterYearDiffers(c: Civil)
    requires RealDay(c)
    ensures MakeDay(c.year + 1900, c.month, c.day) > MakeDay(c.year, c.month, c.day)
  {
    hide DayFromYear, MonthOffset, Leap, MakeDay;
    YearsAscend(c.year + 1, c.year + 1900);
    MakeDayInYear(c.year, c.month, c.day);
    MakeDayInYear(c.year + 1900, c.month, c.day);
    MonthRange(Leap(c.year), c.month);
    MonthRange(Leap(c.year + 1900), c.month);
    YearStep(c.year);
  }

  lemma MonthRange(leap: bool, m: nat)
    requires m < 12
    ensures 0 <= MonthOffset(leap, m) <= 335 && MonthOffset(leap, m + 1) - MonthOffset(leap, m) <= 31
  {
  }

  /** Printing then parsing a date gives midnight of the same day if and only if its year is not one
      of 0 to 99, which the parser reads as 1900 to 1999. */
  lemma ParsePrinted(t: int)
    requires Valid(Some(t))
    ensures FromDDMMYYYY(ToDDMMYYYY(Some(t))) == Some(Midnight(t)) <==> !(0 <= Fields(t).year <= 99)
  {
    hide CivilOf, MakeDay, Day, MakeTime, FromDDMMYYYY, PadStart2, ToString, RealDay, TimeClip;
    var c := Fields(t);
    CivilFacts(Day(t));
    LaterYearDiffers(c);
    MidnightIsValid(t);
    assert c.month + 1 >= 0 && c.day >= 0 by { RealDayRange(c); }
    PartsOfPrinted(c.day, c.month + 1, c.year);
    var y := if 0 <= c.year <= 99 then 1900 + c.year else c.year;
    assert NewDate(c.year, c.month, c.day) == TimeClip(MakeTime(MakeDay(y, c.month, c.day), 0));
    OtherDayOtherTime(MakeDay(y, c.month, c.day), Day(t));
  }

  lemma RealDayRange(c: Civil)
    requires RealDay(c)
    ensures 1 <= c.day <= 31 && c.month < 12
  {
    hide Leap;
  }

  lemma OtherDayOtherTime(a: int, b: int)
    ensures a != b ==> TimeClip(MakeTime(a, 0)) != Some(MakeTime(b, 0))
  {
  }

  // ------------------------------------------------ printing what was parsed

  /** /^\\d{2}\\.\\d{2}\\.\\d{4}$/ */
  predicate IsDateString(s: string) {
    |s| == 10 && AllDigits(s[..2]) && s[2] == '.' && AllDigits(s[3..5]) && s[5] == '.' && AllDigits(s[6..])
  }

  function DayPart(s: string): nat
    requires IsDateString(s)
  {
    ValueOfDigits(s[..2])
  }

  function MonthPart(s: string): nat
    requires IsDateString(s)
  {
    ValueOfDigits(s[3..5])
  }

  function YearPart(s: string): nat
    requires IsDateString(s)
  {
    ValueOfDigits(s[6..])
  }

  lemma DateStringParts(s: string)
    requires IsDateString(s)
    ensures s == s[..2] + "." + s[3..5] + "." + s[6..]
    ensures FromDDMMYYYY(s) == NewDate(YearPart(s), MonthPart(s) - 1, DayPart(s))
  {
    hide Split, ParseInt, NewDate, ValueOfDigits, NoDot;
    assert s == s[..2] + "." + s[3..5] + "." + s[6..];
    DigitsHaveNoDot(s[..2]);
    DigitsHaveNoDot(s[3..5]);
    DigitsHaveNoDot(s[6..]);
    SplitThree(s[..2], s[3..5], s[6..]);
    ParseDigits(s[..2]);
    ParseDigits(s[3..5]);
    ParseDigits(s[6..]);
  }

  /** The day exists in the calendar. */
  predicate NamesRealDay(s: string)
    requires IsDateString(s)
  {
    MonthPart(s) >= 1 && RealDay(Civil(YearPart(s), MonthPart(s) - 1, DayPart(s)))
  }

  lemma {:induction false} ValueBound(s: string)
    requires AllDigits(s)
    ensures |s| == 1 ==> ValueOfDigits(s) < 10
    ensures |s| == 2 ==> ValueOfDigits(s) < 100
    ensures |s| == 3 ==> ValueOfDigits(s) < 1000
    ensures |s| == 4 ==> ValueOfDigits(s) < 10000
    decreases |s|
  {
    if s != "" { ValueBound(s[..|s| - 1]); }
  }

  lemma {:induction false} DigitsLength(n: nat)
    ensures n < 10 ==> |Digits(n)| == 1
    ensures 10 <= n < 100 ==> |Digits(n)| == 2
    ensures 100 <= n < 1000 ==> |Digits(n)| == 3
    ensures 1000 <= n < 10000 ==> |Digits(n)| == 4
    ensures n >= 10000 ==> |Digits(n)| > 4
    ensures n >= 10 ==> |Digits(n)| >= 2
    ensures n >= 1000 ==> |Digits(n)| >= 4
  {
    if n >= 10 { DigitsLength(n / 10); }
  }

  lemma {:induction false} SameValueSameDigits(a: string, b: string)
    requires AllDigits(a) && AllDigits(b) && |a| == |b| && ValueOfDigits(a) == ValueOfDigits(b)
    ensures a == b
    decreases |a|
  {
    if a != "" {
      SameValueSameDigits(a[..|a| - 1], b[..|b| - 1]);
      assert a == a[..|a| - 1] + [a[|a| - 1]] && b == b[..|b| - 1] + [b[|b| - 1]];
    }
  }

  /** Two digits print back as they were; four digits when they do not start with 0. */
  lemma PrintBack(s: string)
    requires AllDigits(s)
    ensures |s| == 2 ==> PadStart2(ToString(ValueOfDigits(s))) == s
    ensures |s| == 4 && ValueOfDigits(s) >= 1000 ==> ToString(ValueOfDigits(s)) == s
  {
    var n := ValueOfDigits(s);
    ValueBound(s);
    DigitsLength(n);
    DigitsRead(n);
    LeadingZero(Digits(n));
    if |s| == 2 { SameValueSameDigits(PadStart2(Digits(n)), s); }
    if |s| == 4 && n >= 1000 { SameValueSameDigits(Digits(n), s); }
  }

  lemma NewDateInRange(year: nat, month: int, day: nat)
    requires year < 10000 && -1 <= month < 99 && day < 100
    ensures NewDate(year, month, day).Some?
    ensures var y := if year <= 99 then 1900 + year else year;
            Day(NewDate(year, month, day).value) == MakeDay(y, month, day)
  {
    hide DayFromYear, Leap, MonthOffset;
    var y := if year <= 99 then 1900 + year else year;
    YearRange(y + month / 12);
    MonthRange(Leap(y + month / 12), month % 12);
  }

  lemma YearRange(y: int)
    requires -1 <= y <= 10010
    ensures -800_000 <= DayFromYear(y) <= 3_000_000
  {
  }

  lemma DateStringRange(s: string)
    requires IsDateString(s)
    ensures DayPart(s) < 100 && MonthPart(s) < 100 && YearPart(s) < 10000
  {
    ValueBound(s[..2]);
    ValueBound(s[3..5]);
    ValueBound(s[6..]);
  }

  /** Every string of the grammar parses to a valid date; it prints back as itself if and only if it
      names a real calendar day of the year 1000 or later. */
  lemma PrintParsed(s: string)
    requires IsDateString(s)
    ensures FromDDMMYYYY(s).Some?
    ensures ToDDMMYYYY(FromDDMMYYYY(s)) == s <==> NamesRealDay(s) && YearPart(s) >= 1000
  {
    hide CivilOf, MakeDay, Day, RealDay, FromDDMMYYYY, ToDDMMYYYY, ToString, PadStart2, ValueOfDigits, NewDate;
    DateStringParts(s);
    DateStringRange(s);
    NewDateInRange(YearPart(s), MonthPart(s) - 1, DayPart(s));
    var t := FromDDMMYYYY(s).value;
    var c := Fields(t);
    CivilFacts(Day(t));
    if NamesRealDay(s) && YearPart(s) >= 1000 {
      CivilOfMakeDay(Civil(YearPart(s), MonthPart(s) - 1, DayPart(s)));
      Printed(t);
      PrintBack(s[..2]);
      PrintBack(s[3..5]);
      PrintBack(s[6..]);
    }
    if ToDDMMYYYY(Some(t)) == s { PrintedIsReal(s, t); }
  }

  lemma Printed(t: int)
    ensures var c := Fields(t);
            ToDDMMYYYY(Some(t)) == PadStart2(ToString(c.day)) + "." + PadStart2(ToString(c.month + 1)) + "."
              + ToString(c.year)
  {
    hide CivilOf, PadStart2, ToString;
  }

  lemma SamePieces(a: string, b: string, c: string, s: string)
    requires IsDateString(s) && |a| == 2 && |b| == 2 && a + "." + b + "." + c == s
    ensures a == s[..2] && b == s[3..5] && c == s[6..]
  {
    var t := a + "." + b + "." + c;
    assert t[..2] == a && t[3..5] == b && t[6..] == c;
  }

  lemma TwoDigits(n: nat)
    requires n < 100
    ensures var s := PadStart2(ToString(n)); |s| == 2 && AllDigits(s) && ValueOfDigits(s) == n
  {
    DigitsLength(n);
    DigitsRead(n);
    LeadingZero(Digits(n));
  }

  lemma YearDigits(y: int)
    requires |ToString(y)| == 4 && AllDigits(ToString(y))
    ensures y >= 1000 && ValueOfDigits(ToString(y)) == y
  {
    assert y < 0 ==> ToString(y) == "-" + Digits(-y);
    assert y >= 0 by { assert IsDigit(ToString(y)[0]); }
    DigitsLength(y);
    DigitsRead(y);
  }

  /** What is printed names the real day it was printed from. */
  lemma PrintedIsReal(s: string, t: int)
    requires IsDateString(s) && ToDDMMYYYY(Some(t)) == s
    ensures NamesRealDay(s) && YearPart(s) >= 1000
  {
    hide CivilOf, MakeDay, Day, RealDay, ToDDMMYYYY, ToString, PadStart2, ValueOfDigits;
    var c := Fields(t);
    CivilFacts(Day(t));
    RealDayRange(c);
    Printed(t);
    TwoDigits(c.day);
    TwoDigits(c.month + 1);
    SamePieces(PadStart2(ToString(c.day)), PadStart2(ToString(c.month + 1)), ToString(c.year), s);
    YearDigits(c.year);
    assert Civil(YearPart(s), MonthPart(s) - 1, DayPart(s)) == c;
  }
}
