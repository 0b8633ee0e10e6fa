/** Air dates: reading the text "05 Jan. 2023" the way
    datetime.strptime(text, '%d %b. %Y') does, and writing a date the way
    strftime('%Y-%m-%d') does ("2023-01-05"). */
module Airdate {
  import opened Common
  import opened PyStr

  datatype Date = Date(year: int, month: int, day: int)

  predicate IsLeapYear(y: int) {
    y % 4 == 0 && (y % 100 != 0 || y % 400 == 0)
  }

  function DaysInMonth(y: int, m: int): (n: int)
    requires 1 <= m <= 12
    ensures 28 <= n <= 31
  {
    if m == 2 then (if IsLeapYear(y) then 29 else 28)
    else if m == 4 || m == 6 || m == 9 || m == 11 then 30
    else 31
  }

  /** The dates a Python datetime can hold. */
  predicate ValidDate(d: Date) {
    1 <= d.year <= 9999 && 1 <= d.month <= 12 && 1 <= d.day <= DaysInMonth(d.year, d.month)
  }

  /** The English month abbreviations %b accepts, in month order, as the
      page writes them. */
  const MonthAbbrs: seq<string> :=
    ["Jan", "Feb", "Mar", "Apr", "May", "Jun", "Jul", "Aug", "Sep", "Oct", "Nov", "Dec"]

  /** The same abbreviations lower-cased: %b matches regardless of case. */
  const MonthKeys: seq<string> :=
    ["jan", "feb", "mar", "apr", "may", "jun", "jul", "aug", "sep", "oct", "nov", "dec"]

  function LowerString(s: string): (r: string)
    ensures |r| == |s|
    ensures forall i :: 0 <= i < |s| ==> r[i] == Lower(s[i])
  {
    if s == [] then [] else [Lower(s[0])] + LowerString(s[1..])
  }

  /** The number of the month whose key is key, searching from month k + 1. */
  function MonthFrom(key: string, k: nat): (m: Option<int>)
    requires k <= 12
    ensures m.Some? ==> k < m.value <= 12 && MonthKeys[m.value - 1] == key
    ensures m.Some? ==> forall j :: k <= j < m.value - 1 ==> MonthKeys[j] != key
    ensures m.None? ==> forall j :: k <= j < 12 ==> MonthKeys[j] != key
    decreases 12 - k
  {
    if k == 12 then None
    else if MonthKeys[k] == key then Some(k + 1)
    else MonthFrom(key, k + 1)
  }

  /** %b: the month number of an abbreviation, in any letter case. */
  function MonthNumber(name: string): (m: Option<int>)
    ensures m.Some? ==> 1 <= m.value <= 12 && LowerString(name) == MonthKeys[m.value - 1]
    ensures m.None? ==> forall j :: 0 <= j < 12 ==> LowerString(name) != MonthKeys[j]
  {
    MonthFrom(LowerString(name), 0)
  }

  function DigitValue(c: char): (n: int)
    requires IsDigit(c)
    ensures 0 <= n < 10
  {
    c as int - '0' as int
  }

  function DigitChar(n: int): (c: char)
    requires 0 <= n < 10
    ensures IsDigit(c) && DigitValue(c) == n
  {
    ('0' as int + n) as char
  }

  /** The value of a string of decimal digits. */
  function Number(s: string): (n: int)
    requires forall i :: 0 <= i < |s| ==> IsDigit(s[i])
    ensures 0 <= n
  {
    if s == [] then 0 else 10 * Number(s[..|s| - 1]) + DigitValue(s[|s| - 1])
  }

  /** A token strptime's day pattern 3[01]|[12]\d|0[1-9]|[1-9]| [1-9] accepts:
      two digits worth 1 to 31, one digit from 1 to 9, or a space and one
      digit from 1 to 9. */
  predicate IsDayToken(t: string) {
    (|t| == 2 && IsDigit(t[0]) && IsDigit(t[1]) && 1 <= Number(t) <= 31) ||
    (|t| == 1 && '1' <= t[0] <= '9') ||
    (|t| == 2 && t[0] == ' ' && '1' <= t[1] <= '9')
  }

  /** The day a day token names: the value of its digits. */
  function DayValue(t: string): int
    requires IsDayToken(t)
  {
    if t[0] == ' ' then Number(t[1..]) else Number(t)
  }

  /** %d followed by the whitespace the format's space stands for: the day
      and the length of its token. The token is the day token that the text
      starts with and that whitespace follows; there is none exactly when no
      day token followed by whitespace starts the text. */
  function DayToken(s: string): (r: Option<(int, nat)>)
    ensures r.Some? ==> 1 <= r.value.0 <= 31 && 1 <= r.value.1 < |s| && IsSpace(s[r.value.1])
    ensures r.Some? ==> IsDayToken(s[..r.value.1]) && r.value.0 == DayValue(s[..r.value.1])
    ensures r.None? ==> forall k :: 0 < k < |s| && IsSpace(s[k]) ==> !IsDayToken(s[..k])
  {
    if |s| >= 2 && IsDigit(s[0]) && IsDigit(s[1]) then
      var v := Number(s[..2]);
      if 1 <= v <= 31 && |s| >= 3 && IsSpace(s[2]) then Some((v, 2)) else None
    else if |s| >= 2 && '1' <= s[0] <= '9' && IsSpace(s[1]) then
      assert s[..1][..0] == [] && Number(s[..1]) == DigitValue(s[0]);
      Some((Number(s[..1]), 1))
    else if |s| >= 3 && s[0] == ' ' && '1' <= s[1] <= '9' && IsSpace(s[2]) then
      assert s[..2][1..] == s[1..2] && s[1..2][..0] == [] && Number(s[1..2]) == DigitValue(s[1]);
      Some((Number(s[1..2]), 2))
    else None
  }

  /** s without its leading whitespace. */
  function SkipSpaces(s: string): (r: string)
    ensures |r| <= |s| && r == s[|s| - |r|..]
    ensures AllSpace(s[..|s| - |r|])
    ensures r != [] ==> !IsSpace(r[0])
  {
    s[LeadingSpaces(s)..]
  }

  /** datetime.strptime(text, '%d %b. %Y'): a day, whitespace, a month
      abbreviation, '.', whitespace, exactly four digits and nothing after
      them, naming a date that exists; anything else is a ValueError. */
  function ParseAirdate(text: string): (r: Result<Date>)
    ensures r.Ok? ==> ValidDate(r.value)
    ensures r.Err? ==> r.error == BadAirdate(text)
  {
    match DayToken(text)
    case None => Err(BadAirdate(text))
    case Some((day, k)) => ParseMonthYear(text, day, SkipSpaces(text[k..]))
  }

  /** What follows the '.' of the month: whitespace, then the year in
      exactly four digits ending the text. */
  predicate YearPart(v: string, year: int) {
    0 <= year < 10000 && |v| > 4 && AllSpace(v[..|v| - 4]) && v[|v| - 4..] == Pad4(year)
  }

  /** What follows the day and the whitespace after it: the month's
      abbreviation in any letter case, '.', and the year part. */
  predicate MonthPart(u: string, month: int, year: int) {
    1 <= month <= 12 && |u| >= 4 && LowerString(u[..3]) == MonthKeys[month - 1] && u[3] == '.' &&
    YearPart(u[4..], year)
  }

  /** The rest of the format once the day and the whitespace after it are
      read: u must start with the month abbreviation and '.'. */
  function ParseMonthYear(text: string, day: int, u: string): (r: Result<Date>)
    ensures r.Ok? ==> ValidDate(r.value) && r.value.day == day && MonthPart(u, r.value.month, r.value.year)
    ensures r.Err? ==> r.error == BadAirdate(text)
  {
    if |u| < 4 || u[3] != '.' then Err(BadAirdate(text))
    else match MonthNumber(u[..3])
      case None => Err(BadAirdate(text))
      case Some(month) => ParseYear(text, day, month, u[4..])
  }

  /** The rest of the format after the month's '.': whitespace, then exactly
      four digits ending the text, which together with the day and month
      must name a date that exists. */
  function ParseYear(text: string, day: int, month: int, v: string): (r: Result<Date>)
    ensures r.Ok? ==> ValidDate(r.value) && r.value.day == day && r.value.month == month
    ensures r.Ok? ==> YearPart(v, r.value.year)
    ensures r.Err? ==> r.error == BadAirdate(text)
  {
    var y := SkipSpaces(v);
    if |y| == |v| || |y| != 4 || !IsDigits(y) then Err(BadAirdate(text))
    else
      DigitsArePad4(y);
      if ValidDate(Date(Number(y), month, day)) then Ok(Date(Number(y), month, day))
      else Err(BadAirdate(text))
  }

  lemma NumberSnoc(s: string, c: char)
    requires forall i :: 0 <= i < |s| ==> IsDigit(s[i])
    requires IsDigit(c)
    ensures Number(s + [c]) == 10 * Number(s) + DigitValue(c)
  {
    assert (s + [c])[..|s|] == s;
  }

  lemma NumberOfTwo(s: string, t: string)
    requires forall i :: 0 <= i < |s| ==> IsDigit(s[i])
    requires |t| == 2 && IsDigits(t)
    ensures Number(s + t) == 100 * Number(s) + Number(t)
  {
    NumberSnoc(s, t[0]);
    NumberSnoc(s + [t[0]], t[1]);
    assert s + t == s + [t[0]] + [t[1]];
    NumberSnoc([], t[0]);
    assert t == [] + [t[0]] + [t[1]];
    NumberSnoc([t[0]], t[1]);
  }

  function Pad2(n: int): (r: string)
    requires 0 <= n < 100
    ensures |r| == 2 && IsDigits(r) && Number(r) == n
  {
    var r := [DigitChar(n / 10), DigitChar(n % 10)];
    NumberOfTwo([], r);
    assert [] + r == r;
    r
  }

  function Pad4(n: int): (r: string)
    requires 0 <= n < 10000
    ensures |r| == 4 && IsDigits(r) && Number(r) == n
  {
    var hi, lo := Pad2(n / 100), Pad2(n % 100);
    NumberOfTwo(hi, lo);
    hi + lo
  }

  lemma DigitCharOfValue(c: char)
    requires IsDigit(c)
    ensures DigitChar(DigitValue(c)) == c
  {
  }

  /** Two digits are the padding of their value. */
  lemma DigitsArePad2(t: string)
    requires |t| == 2 && IsDigits(t)
    ensures Number(t) < 100 && Pad2(Number(t)) == t
  {
    assert t[..1][..0] == [];
    assert Number(t[..1]) == DigitValue(t[0]);
    var n := Number(t);
    assert n == 10 * DigitValue(t[0]) + DigitValue(t[1]);
    assert n / 10 == DigitValue(t[0]) && n % 10 == DigitValue(t[1]);
    DigitCharOfValue(t[0]);
    DigitCharOfValue(t[1]);
  }

  /** Four digits are the padding of their value. */
  lemma DigitsArePad4(y: string)
    requires |y| == 4 && IsDigits(y)
    ensures Number(y) < 10000 && Pad4(Number(y)) == y
  {
    var hi, lo := y[..2], y[2..];
    assert y == hi + lo;
    NumberOfTwo(hi, lo);
    DigitsArePad2(hi);
    DigitsArePad2(lo);
    var n := Number(y);
    assert n / 100 == Number(hi) && n % 100 == Number(lo);
  }

  /** strftime('%Y-%m-%d'): the year in four digits, the month and day in
      two, separated by '-'; the three fields read back as the date. */
  function IsoDate(d: Date): (r: string)
    requires ValidDate(d)
    ensures |r| == 10 && r[4] == '-' && r[7] == '-'
    ensures IsDigits(r[..4]) && IsDigits(r[5..7]) && IsDigits(r[8..])
    ensures Number(r[..4]) == d.year && Number(r[5..7]) == d.month && Number(r[8..]) == d.day
  {
    var r := Pad4(d.year) + "-" + Pad2(d.month) + "-" + Pad2(d.day);
    assert r[..4] == Pad4(d.year) && r[5..7] == Pad2(d.month) && r[8..] == Pad2(d.day);
    r
  }

  /** The text the season page shows for a day, a month and a year, such
      as "05 Jan. 2023"; the fields need not name a date that exists. */
  function DisplayText(year: int, month: int, day: int): string
    requires 0 <= year < 10000 && 1 <= month <= 12 && 1 <= day <= 31
  {
    Pad2(day) + " " + MonthAbbrs[month - 1] + ". " + Pad4(year)
  }

  /** Lower-casing an abbreviation gives its key. */
  lemma KeyOfAbbr(m: int)
    requires 1 <= m <= 12
    ensures LowerString(MonthAbbrs[m - 1]) == MonthKeys[m - 1]
  {
    var a := MonthAbbrs[m - 1];
    assert |a| == 3 && 'A' <= a[0] <= 'Z' && 'a' <= a[1] <= 'z' && 'a' <= a[2] <= 'z';
    assert (a[0] as int + 32) as char == MonthKeys[m - 1][0];
    assert a[1..] == MonthKeys[m - 1][1..];
  }

  /** No two months share a key. */
  lemma KeysDistinct()
    ensures forall i, j :: 0 <= i < j < 12 ==> MonthKeys[i] != MonthKeys[j]
  {
    forall i, j | 0 <= i < j < 12 ensures MonthKeys[i] != MonthKeys[j] {
      assert MonthKeys[i][1] != MonthKeys[j][1] || MonthKeys[i][2] != MonthKeys[j][2];
    }
  }

  /** %b reads each abbreviation back as its month. */
  lemma MonthNumberOfAbbr(m: int)
    requires 1 <= m <= 12
    ensures MonthNumber(MonthAbbrs[m - 1]) == Some(m)
  {
    KeyOfAbbr(m);
    KeysDistinct();
    var r := MonthNumber(MonthAbbrs[m - 1]);
    assert r.Some?;
    assert MonthKeys[r.value - 1] == MonthKeys[m - 1];
  }

  /** Whitespace followed by a non-blank string skips to that string. */
  lemma SkipOneSpace(t: string)
    requires t != [] && !IsSpace(t[0])
    ensures SkipSpaces([' '] + t) == t
  {
    var s := [' '] + t;
    assert s[1] == t[0];
    assert LeadingSpaces(s) == 1;
  }

  /** The part of a display text after the day and the space after it. */
  function MonthYearText(year: int, month: int): string
    requires 0 <= year < 10000 && 1 <= month <= 12
  {
    MonthAbbrs[month - 1] + ". " + Pad4(year)
  }

  /** What strptime makes of a display text: the date it names, or a
      ValueError when that date does not exist. */
  function Reading(text: string, year: int, month: int, day: int): Result<Date> {
    if ValidDate(Date(year, month, day)) then Ok(Date(year, month, day)) else Err(BadAirdate(text))
  }

  lemma ParseYearOfDisplay(text: string, year: int, month: int, day: int)
    requires 0 <= year < 10000
    ensures ParseYear(text, day, month, [' '] + Pad4(year)) == Reading(text, year, month, day)
  {
    var digits := Pad4(year);
    assert !IsSpace(digits[0]);
    SkipOneSpace(digits);
  }

  lemma ParseMonthYearOfDisplay(text: string, year: int, month: int, day: int)
    requires 0 <= year < 10000 && 1 <= month <= 12
    ensures ParseMonthYear(text, day, MonthYearText(year, month)) == Reading(text, year, month, day)
  {
    var abbr := MonthAbbrs[month - 1];
    var u := MonthYearText(year, month);
    assert |abbr| == 3;
    assert u[..3] == abbr && u[3] == '.';
    MonthNumberOfAbbr(month);
    assert u[4..] == [' '] + Pad4(year);
    ParseYearOfDisplay(text, year, month, day);
  }

  lemma DayOfDisplay(year: int, month: int, day: int)
    requires 0 <= year < 10000 && 1 <= month <= 12 && 1 <= day <= 31
    ensures DayToken(DisplayText(year, month, day)) == Some((day, 2))
    ensures SkipSpaces(DisplayText(year, month, day)[2..]) == MonthYearText(year, month)
  {
    var text := DisplayText(year, month, day);
    var u := MonthYearText(year, month);
    assert text == Pad2(day) + ([' '] + u);
    assert text[2..] == [' '] + u;
    assert !IsSpace(MonthAbbrs[month - 1][0]);
    SkipOneSpace(u);
  }

  /** A display text reads as the date its fields name exactly when that
      date exists, and as a ValueError otherwise. */
  lemma ParseDisplayText(year: int, month: int, day: int)
    requires 0 <= year < 10000 && 1 <= month <= 12 && 1 <= day <= 31
    ensures ParseAirdate(DisplayText(year, month, day)).Ok? <==> ValidDate(Date(year, month, day))
    ensures ParseAirdate(DisplayText(year, month, day)).Ok? ==>
      ParseAirdate(DisplayText(year, month, day)).value == Date(year, month, day)
  {
    var text := DisplayText(year, month, day);
    DayOfDisplay(year, month, day);
    ParseMonthYearOfDisplay(text, year, month, day);
  }

  /** Every date reads back from the text the page shows for it. */
  lemma ParseDateText(d: Date)
    requires ValidDate(d)
    ensures ParseAirdate(DisplayText(d.year, d.month, d.day)) == Ok(d)
  {
    ParseDisplayText(d.year, d.month, d.day);
  }

  /** The start of the pattern strptime builds for '%d %b. %Y': a day
      token worth day ending at i, then whitespace up to j. */
  predicate DayAt(text: string, day: int, i: nat, j: nat) {
    0 < i < j <= |text| && IsDayToken(text[..i]) && DayValue(text[..i]) == day && AllSpace(text[i..j])
  }

  /** The rest of the pattern from j on: the month's abbreviation in any
      letter case, '.', whitespace, and four digits that end the text. */
  predicate MonthYearAt(text: string, month: int, year: int, j: nat) {
    j + 4 < |text| - 4 &&
    1 <= month <= 12 && LowerString(text[j..j + 3]) == MonthKeys[month - 1] && text[j + 3] == '.' &&
    AllSpace(text[j + 4..|text| - 4]) &&
    0 <= year < 10000 && text[|text| - 4..] == Pad4(year)
  }

  /** The whole pattern, with the day token ending at i and the month
      starting at j. */
  predicate FormatAt(text: string, d: Date, i: nat, j: nat) {
    DayAt(text, d.day, i, j) && MonthYearAt(text, d.month, d.year, j)
  }

  /** The text matches the format as a whole and names the date d, which
      exists. */
  predicate MatchesFormat(text: string, d: Date) {
    ValidDate(d) && exists i: nat, j: nat | i < j < |text| :: FormatAt(text, d, i, j)
  }

  /** A day token followed by whitespace is the one DayToken reads. */
  lemma DayTokenOf(s: string, i: nat)
    requires 0 < i < |s| && IsDayToken(s[..i]) && IsSpace(s[i])
    ensures DayToken(s) == Some((DayValue(s[..i]), i))
  {
    var t := s[..i];
    if t[0] == ' ' {
      assert t[1..] == s[1..2];
    } else if |t| == 2 {
      assert t == s[..2];
    } else {
      assert t == s[..1];
    }
  }

  /** Whitespace up to a character that is not whitespace is skipped. */
  lemma SkipAllSpace(s: string, n: nat)
    requires n < |s| && AllSpace(s[..n]) && !IsSpace(s[n])
    ensures SkipSpaces(s) == s[n..]
  {
  }

  /** %b reads any letter case of an abbreviation as its month. */
  lemma MonthNumberOfKey(name: string, m: int)
    requires 1 <= m <= 12 && LowerString(name) == MonthKeys[m - 1]
    ensures MonthNumber(name) == Some(m)
  {
    KeysDistinct();
    var r := MonthNumber(name);
    assert r.Some?;
    assert MonthKeys[r.value - 1] == MonthKeys[m - 1];
  }

  lemma YearPartParses(text: string, day: int, month: int, v: string, year: int)
    requires YearPart(v, year) && ValidDate(Date(year, month, day))
    ensures ParseYear(text, day, month, v) == Ok(Date(year, month, day))
  {
    var digits := Pad4(year);
    assert v[|v| - 4] == digits[0];
    SkipAllSpace(v, |v| - 4);
  }

  lemma MonthPartParses(text: string, day: int, u: string, month: int, year: int)
    requires MonthPart(u, month, year) && ValidDate(Date(year, month, day))
    ensures ParseMonthYear(text, day, u) == Ok(Date(year, month, day))
  {
    MonthNumberOfKey(u[..3], month);
    YearPartParses(text, day, month, u[4..], year);
  }

  /** The month part at position j, restated on the whole text. */
  lemma MonthPartAt(text: string, j: nat, month: int, year: int)
    requires j <= |text|
    ensures MonthPart(text[j..], month, year) <==> MonthYearAt(text, month, year, j)
  {
    var u := text[j..];
    if |u| >= 4 {
      assert u[..3] == text[j..j + 3] && u[4..] == text[j + 4..];
      var v := u[4..];
      if |v| > 4 {
        assert v[..|v| - 4] == text[j + 4..|text| - 4] && v[|v| - 4..] == text[|text| - 4..];
      }
    }
  }

  /** The day token DayToken reads, and the whitespace after it, lie before
      the text SkipSpaces skips to. */
  lemma DayAtOfToken(text: string) returns (j: nat)
    requires DayToken(text).Some?
    ensures DayAt(text, DayToken(text).value.0, DayToken(text).value.1, j)
    ensures SkipSpaces(text[DayToken(text).value.1..]) == text[j..]
  {
    var k := DayToken(text).value.1;
    var rest := text[k..];
    var u := SkipSpaces(rest);
    j := |text| - |u|;
    assert rest[0] == text[k] && IsSpace(rest[0]);
    assert text[k..j] == rest[..|rest| - |u|];
  }

  /** From a day token ending at i, skipping whitespace leads to j. */
  lemma SkipToMonth(text: string, i: nat, j: nat)
    requires i < j < |text| && AllSpace(text[i..j]) && !IsSpace(text[j])
    ensures SkipSpaces(text[i..]) == text[j..]
  {
    var rest := text[i..];
    assert rest[..j - i] == text[i..j];
    assert rest[j - i..] == text[j..];
    SkipAllSpace(rest, j - i);
  }

  /** A text the format matches reads as the date it names. */
  lemma MatchIsParsed(text: string, d: Date, i: nat, j: nat)
    requires ValidDate(d) && FormatAt(text, d, i, j)
    ensures ParseAirdate(text) == Ok(d)
  {
    DayTokenOf(text, i);
    var key := MonthKeys[d.month - 1];
    assert LowerString(text[j..j + 3])[0] == key[0] && IsLetter(key[0]);
    SkipToMonth(text, i, j);
    MonthPartAt(text, j, d.month, d.year);
    MonthPartParses(text, d.day, text[j..], d.month, d.year);
  }

  /** A text that reads as a date is laid out as the format says. */
  lemma ParsedMatches(text: string, d: Date) returns (i: nat, j: nat)
    requires ParseAirdate(text) == Ok(d)
    ensures FormatAt(text, d, i, j)
  {
    i := DayToken(text).value.1;
    j := DayAtOfToken(text);
    assert ParseMonthYear(text, d.day, text[j..]) == Ok(d);
    MonthPartAt(text, j, d.month, d.year);
  }

  /** strptime accepts exactly the texts the format matches: the text reads
      as d exactly when it is laid out as the format says and names d. */
  lemma ParseAirdateIff(text: string, d: Date)
    ensures ParseAirdate(text) == Ok(d) <==> MatchesFormat(text, d)
  {
    if ParseAirdate(text) == Ok(d) {
      var i, j := ParsedMatches(text, d);
    }
    if MatchesFormat(text, d) {
      var i: nat, j: nat :| FormatAt(text, d, i, j);
      MatchIsParsed(text, d, i, j);
    }
  }

  /** A text the format does not match for any date is a ValueError. */
  lemma NoMatchIsError(text: string)
    requires forall d :: !MatchesFormat(text, d)
    ensures ParseAirdate(text) == Err(BadAirdate(text))
  {
    if ParseAirdate(text).Ok? {
      ParseAirdateIff(text, ParseAirdate(text).value);
    }
  }

  lemma DisplayOfExample()
    ensures DisplayText(2023, 1, 5) == "05 Jan. 2023"
  {
    assert Pad2(5) == "05" && MonthAbbrs[0] == "Jan";
    assert Pad2(20) == "20" && Pad2(23) == "23";
    assert Pad4(2023) == "2023";
  }

  lemma IsoOfExample()
    ensures IsoDate(Date(2023, 1, 5)) == "2023-01-05"
  {
    assert Pad2(5) == "05" && Pad2(1) == "01";
    assert Pad2(20) == "20" && Pad2(23) == "23";
  }

  /** The example date: "05 Jan. 2023" is rewritten as "2023-01-05". */
  lemma ReformatExample()
    ensures ParseAirdate("05 Jan. 2023") == Ok(Date(2023, 1, 5))
    ensures IsoDate(Date(2023, 1, 5)) == "2023-01-05"
  {
    DisplayOfExample();
    IsoOfExample();
    ParseDateText(Date(2023, 1, 5));
  }

  lemma DisplayOfSecondExample()
    ensures DisplayText(2024, 3, 12) == "12 Mar. 2024"
  {
    assert Pad2(12) == "12" && MonthAbbrs[2] == "Mar";
    assert Pad2(20) == "20" && Pad2(24) == "24";
    assert Pad4(2024) == "2024";
  }

  lemma IsoOfSecondExample()
    ensures IsoDate(Date(2024, 3, 12)) == "2024-03-12"
  {
    assert Pad2(12) == "12" && Pad2(3) == "03";
    assert Pad2(20) == "20" && Pad2(24) == "24";
  }

  /** The date of the next episode in the end-to-end example. */
  lemma SecondExample()
    ensures ParseAirdate("12 Mar. 2024") == Ok(Date(2024, 3, 12))
    ensures IsoDate(Date(2024, 3, 12)) == "2024-03-12"
  {
    DisplayOfSecondExample();
    IsoOfSecondExample();
    ParseDateText(Date(2024, 3, 12));
  }

  /** strptime reads the month in any letter case and a day without its
      leading zero. */
  lemma LowerCaseExample()
    ensures ParseAirdate("5 jan. 2023") == Ok(Date(2023, 1, 5))
  {
    var text := "5 jan. 2023";
    assert Pad4(2023) == "2023";
    assert LowerString(text[2..5]) == MonthKeys[0];
    MatchIsParsed(text, Date(2023, 1, 5), 1, 2);
  }

  /** Without the '.' after the month the text does not match. */
  lemma MissingDotExample()
    ensures ParseAirdate("05 Jan 2023") == Err(BadAirdate("05 Jan 2023"))
  {
    var text := "05 Jan 2023";
    assert IsDayToken(text[..2]) && IsSpace(text[2]);
    DayTokenOf(text, 2);
    SkipToMonth(text, 2, 3);
    assert text[3..][3] == ' ';
  }

  /** A day the month does not have, 29 February of a year that is not a
      leap year, is a ValueError. */
  lemma NoLeapDay(year: int)
    requires 1 <= year < 10000 && !IsLeapYear(year)
    ensures ParseAirdate(DisplayText(year, 2, 29)).Err?
  {
    ParseDisplayText(year, 2, 29);
  }
}
