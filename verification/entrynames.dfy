/** The name of an entry file, built from a date and read back from it with the
    one layout `2006-01-02-Journal-Entry-for-Jan-2.md` (Go's reference-date
    notation: zero-padded four-digit year, two-digit month, two-digit day, the
    fixed words, the three-letter month name and the unpadded day), and the
    pattern that recognises entry files while scanning a directory.

    A path is a sequence of characters (Unicode code points): the regular
    expression works rune by rune, so this is the level at which `\D` and `.`
    consume one character. */
module EntryNames {

  import opened Wrappers

  /** A calendar day, the part of a `time.Time` that a name records. */
  datatype Date = Date(year: int, month: int, day: int)

  predicate IsLeap(year: int) {
    year % 4 == 0 && (year % 100 != 0 || year % 400 == 0)
  }

  function DaysIn(month: int, year: int): int
    requires 1 <= month <= 12
  {
    if month == 2 then (if IsLeap(year) then 29 else 28)
    else if month == 4 || month == 6 || month == 9 || month == 11 then 30
    else 31
  }

  /** A day of the Gregorian calendar whose year the layout's four-digit year
      field can hold. */
  predicate ValidDate(d: Date) {
    && 0 <= d.year <= 9999
    && 1 <= d.month <= 12
    && 1 <= d.day <= DaysIn(d.month, d.year)
  }

  const ShortMonthNames: seq<string> :=
    ["Jan", "Feb", "Mar", "Apr", "May", "Jun", "Jul", "Aug", "Sep", "Oct", "Nov", "Dec"]

  /** The literal text between the numeric date and the month name. */
  const Infix: string := "-Journal-Entry-for-"
  const Extension: string := ".md"
  const Separator: char := '/'

  predicate IsDigit(c: char) {
    '0' <= c <= '9'
  }

  function Digit(n: int): char
    requires 0 <= n < 10
  {
    ('0' as int + n) as char
  }

  function DigitValue(c: char): int
    requires IsDigit(c)
  {
    c as int - '0' as int
  }

  /** `appendInt(b, n, 4)`: four digits, zero-padded. */
  function Zero4(n: int): string
    requires 0 <= n <= 9999
  {
    [Digit(n / 1000), Digit(n / 100 % 10), Digit(n / 10 % 10), Digit(n % 10)]
  }

  /** `appendInt(b, n, 2)`: two digits, zero-padded. */
  function Zero2(n: int): string
    requires 0 <= n <= 99
  {
    [Digit(n / 10), Digit(n % 10)]
  }

  /** `appendInt(b, n, 0)`: no padding. */
  function Unpadded(n: int): string
    requires 0 <= n <= 99
  {
    if n < 10 then [Digit(n)] else Zero2(n)
  }

  /** `t.Format(entryFormat)`, the entry's file name for day `d`. */
  function Format(d: Date): string
    requires ValidDate(d)
  {
    Zero4(d.year) + ("-" + (Zero2(d.month) + ("-" + (Zero2(d.day) + (Infix +
      (ShortMonthNames[d.month - 1] + ("-" + (Unpadded(d.day) + Extension))))))))
  }

  /** The path `New` gives a new entry: the directory, the separator, the name. */
  function EntryPath(dir: string, d: Date): string
    requires ValidDate(d)
  {
    dir + [Separator] + Format(d)
  }

  // ---------------------------------------------------------------------------
  // `time.Parse(entryFormat, name)`, written out for this layout.

  /** A number read from the front of a string and what follows it. */
  datatype Field = Field(value: int, rest: string)

  /** Go's `skip`: the literal must come next, byte for byte. */
  function Skip(s: string, lit: string): (r: Option<string>)
    ensures r.Some? <==> |lit| <= |s| && s[..|lit|] == lit
    ensures r.Some? ==> s == lit + r.value
  {
    if |lit| <= |s| && s[..|lit|] == lit then Some(s[|lit|..]) else None
  }

  /** The `2006` element: four characters, all of them digits. */
  function LongYear(s: string): (r: Option<Field>)
    ensures r.Some? ==> 0 <= r.value.value <= 9999 && |s| >= 4 && r.value.rest == s[4..]
  {
    if |s| >= 4 && IsDigit(s[0]) && IsDigit(s[1]) && IsDigit(s[2]) && IsDigit(s[3]) then
      Some(Field(1000 * DigitValue(s[0]) + 100 * DigitValue(s[1]) + 10 * DigitValue(s[2])
                 + DigitValue(s[3]), s[4..]))
    else None
  }

  /** Go's `getnum`: one or two digits; with `fixed`, exactly two. */
  function GetNum(s: string, fixed: bool): (r: Option<Field>)
    ensures r.Some? ==> 0 <= r.value.value <= 99
  {
    if |s| == 0 || !IsDigit(s[0]) then None
    else if |s| == 1 || !IsDigit(s[1]) then
      (if fixed then None else Some(Field(DigitValue(s[0]), s[1..])))
    else Some(Field(10 * DigitValue(s[0]) + DigitValue(s[1]), s[2..]))
  }

  predicate IsLetter(c: char) {
    'a' <= c <= 'z' || 'A' <= c <= 'Z'
  }

  function Lower(c: char): char {
    if 'A' <= c <= 'Z' then (c as int + 32) as char else c
  }

  /** Go's `match`: equality ignoring the case of ASCII letters. */
  predicate EqualFold(a: string, b: string)
    requires |a| == |b|
  {
    forall j :: 0 <= j < |a| ==>
      a[j] == b[j] || (IsLetter(a[j]) && IsLetter(b[j]) && Lower(a[j]) == Lower(b[j]))
  }

  /** Go's `lookup(shortMonthNames, s)`, searching the table from index `i`;
      the field value is the month number. */
  function LookupMonth(s: string, i: nat): (r: Option<Field>)
    ensures r.Some? ==> i < r.value.value <= 12 && |s| >= 3 && r.value.rest == s[3..]
    decreases 12 - i
  {
    if i >= 12 then None
    else if |s| >= 3 && EqualFold(s[..3], ShortMonthNames[i]) then Some(Field(i + 1, s[3..]))
    else LookupMonth(s, i + 1)
  }

  /** The date a file name encodes, or `None` for Go's `*time.ParseError`. The
      layout names the month and the day twice; as in Go, the later element
      overwrites the earlier one, the earlier month must still lie in 1..12, and
      only the final day is checked against the month's length. */
  function ParseName(name: string): (r: Option<Date>)
    ensures r.Some? ==> ValidDate(r.value)
  {
    var year :- LongYear(name);
    var s1 :- Skip(year.rest, "-");
    var zeroMonth :- GetNum(s1, true);
    if zeroMonth.value < 1 || 12 < zeroMonth.value then None
    else ParseFromDay(year.value, zeroMonth.rest)
  }

  /** The layout from the `-02` element on, up to and including `Jan`. */
  function ParseFromDay(year: int, s: string): (r: Option<Date>)
    requires 0 <= year <= 9999
    ensures r.Some? ==> ValidDate(r.value)
  {
    var s2 :- Skip(s, "-");
    var zeroDay :- GetNum(s2, true);
    var s3 :- Skip(zeroDay.rest, Infix);
    var month :- LookupMonth(s3, 0);
    ParseDay(year, month.value, month.rest)
  }

  /** The layout's tail `-2.md`: the unpadded day, which must exist in the
      month, and nothing after the extension. */
  function ParseDay(year: int, month: int, s: string): (r: Option<Date>)
    requires 0 <= year <= 9999 && 1 <= month <= 12
    ensures r.Some? ==> ValidDate(r.value)
  {
    var s4 :- Skip(s, "-");
    var day :- GetNum(s4, false);
    var s5 :- Skip(day.rest, Extension);
    if s5 != [] then None
    else if day.value < 1 || DaysIn(month, year) < day.value then None
    else Some(Date(year, month, day.value))
  }

  // ---------------------------------------------------------------------------
  // `filepath.Base` with '/' as the only separator.

  function TrimTrailingSeparators(p: string): (r: string)
    ensures r == [] || r[|r| - 1] != Separator
  {
    if p != [] && p[|p| - 1] == Separator then TrimTrailingSeparators(p[..|p| - 1]) else p
  }

  /** The characters after the last separator. */
  function LastElement(p: string): (r: string)
    ensures Separator !in r
  {
    if p == [] || p[|p| - 1] == Separator then [] else LastElement(p[..|p| - 1]) + [p[|p| - 1]]
  }

  /** The last element of a path: "." for the empty path, "/" for a path of
      separators only, otherwise the last element once trailing separators
      are gone. */
  function Base(path: string): (b: string)
    ensures b != []
    ensures b == [Separator] || Separator !in b
  {
    if path == [] then "."
    else
      var p := TrimTrailingSeparators(path);
      if p == [] then [Separator] else LastElement(p)
  }

  /** `Entry.Date`: the date named by the last element of the entry's path. */
  function EntryDate(path: string): Option<Date> {
    ParseName(Base(path))
  }

  // ---------------------------------------------------------------------------
  // Recognition: `\d{4}-\d{2}-\d{2}-Journal-Entry-for-\D{3}-\d{1,2}.md`, matched
  // anywhere in the path. The `.` is not escaped, so it stands for any one
  // character other than a newline.

  predicate AllDigits(s: string) {
    forall i :: 0 <= i < |s| ==> IsDigit(s[i])
  }

  /** `t` as a whole is one match of the pattern: 37 characters with a one-digit
      day, 38 with a two-digit day. */
  predicate IsMatch(t: string) {
    && (|t| == 37 || |t| == 38)
    && AllDigits(t[..4]) && t[4] == '-'
    && AllDigits(t[5..7]) && t[7] == '-'
    && AllDigits(t[8..10])
    && t[10..29] == Infix
    && !IsDigit(t[29]) && !IsDigit(t[30]) && !IsDigit(t[31])
    && t[32] == '-'
    && AllDigits(t[33..|t| - 3])
    && t[|t| - 3] != '\n'
    && t[|t| - 2..] == "md"
  }

  /** A match begins at the front of `s`. */
  predicate MatchesAtStart(s: string) {
    (|s| >= 37 && IsMatch(s[..37])) || (|s| >= 38 && IsMatch(s[..38]))
  }

  /** `IsEntry`: an unanchored search, trying each start position in turn. */
  function IsEntry(path: string): bool
    decreases |path|
  {
    if |path| < 37 then false
    else MatchesAtStart(path) || IsEntry(path[1..])
  }

  /** Some piece of `s` is a match. */
  ghost predicate HasMatch(s: string) {
    exists i, j :: 0 <= i <= j <= |s| && IsMatch(s[i..j])
  }

  // ---------------------------------------------------------------------------
  // Format, then parse.

  lemma ZeroPaddedYear(y: int, rest: string)
    requires 0 <= y <= 9999
    ensures LongYear(Zero4(y) + rest) == Some(Field(y, rest))
  {
    var s := Zero4(y) + rest;
    assert s[..4] == Zero4(y) && s[4..] == rest;
    FourDigits(y);
  }

  /** The four digits `Zero4` writes add back up to the number. */
  lemma FourDigits(y: int)
    requires 0 <= y <= 9999
    ensures 1000 * (y / 1000) + 100 * (y / 100 % 10) + 10 * (y / 10 % 10) + y % 10 == y
  {
    var q1 := y / 10;
    var q2 := q1 / 10;
    var q3 := q2 / 10;
    assert y == 10 * q1 + y % 10;
    assert q1 == 10 * q2 + q1 % 10;
    assert q2 == 10 * q3 + q2 % 10;
    assert y == 100 * q2 + (10 * (q1 % 10) + y % 10);
    assert q2 == y / 100;
    assert y == 1000 * q3 + (100 * (q2 % 10) + 10 * (q1 % 10) + y % 10);
    assert q3 == y / 1000;
  }

  lemma ZeroPaddedNumber(n: int, rest: string, fixed: bool)
    requires 0 <= n <= 99
    ensures GetNum(Zero2(n) + rest, fixed) == Some(Field(n, rest))
  {
    var s := Zero2(n) + rest;
    assert s[0] == Digit(n / 10) && s[1] == Digit(n % 10) && s[2..] == rest;
  }

  lemma UnpaddedNumber(n: int, rest: string)
    requires 0 <= n <= 99
    requires rest == [] || !IsDigit(rest[0])
    ensures GetNum(Unpadded(n) + rest, false) == Some(Field(n, rest))
  {
    if n < 10 {
      var s := Unpadded(n) + rest;
      assert s[0] == Digit(n) && s[1..] == rest;
    } else {
      ZeroPaddedNumber(n, rest, false);
    }
  }

  lemma SkipLiteral(lit: string, rest: string)
    ensures Skip(lit + rest, lit) == Some(rest)
  {
    assert (lit + rest)[..|lit|] == lit && (lit + rest)[|lit|..] == rest;
  }

  /** No two month names are equal, even ignoring case. */
  lemma MonthNamesDistinct(i: nat, j: nat)
    requires i < 12 && j < 12 && i != j
    ensures !EqualFold(ShortMonthNames[i], ShortMonthNames[j])
  {
    var a, b := ShortMonthNames[i], ShortMonthNames[j];
    if a[0] != b[0] {
      assert !(a[0] == b[0] || (IsLetter(a[0]) && IsLetter(b[0]) && Lower(a[0]) == Lower(b[0])));
    } else if a[1] != b[1] {
      assert !(a[1] == b[1] || (IsLetter(a[1]) && IsLetter(b[1]) && Lower(a[1]) == Lower(b[1])));
    } else {
      assert !(a[2] == b[2] || (IsLetter(a[2]) && IsLetter(b[2]) && Lower(a[2]) == Lower(b[2])));
    }
  }

  lemma {:induction false} LookupOwnName(m: int, rest: string, i: nat)
    requires 1 <= m <= 12 && i <= m - 1
    ensures LookupMonth(ShortMonthNames[m - 1] + rest, i) == Some(Field(m, rest))
    decreases 12 - i
  {
    var s := ShortMonthNames[m - 1] + rest;
    assert s[..3] == ShortMonthNames[m - 1] && s[3..] == rest;
    if i < m - 1 {
      MonthNamesDistinct(m - 1, i);
      LookupOwnName(m, rest, i + 1);
    }
  }

  /** Parsing a formatted name gives back the day it was formatted from. */
  lemma ParseFormat(d: Date)
    requires ValidDate(d)
    ensures ParseName(Format(d)) == Some(d)
  {
    var r8 := Unpadded(d.day) + Extension;
    var r7 := "-" + r8;
    var r6 := ShortMonthNames[d.month - 1] + r7;
    var r5 := Infix + r6;
    var r4 := Zero2(d.day) + r5;
    var r3 := "-" + r4;
    var r2 := Zero2(d.month) + r3;
    var r1 := "-" + r2;
    assert Format(d) == Zero4(d.year) + r1;
    ZeroPaddedYear(d.year, r1);
    SkipLiteral("-", r2);
    ZeroPaddedNumber(d.month, r3, true);
    SkipLiteral("-", r4);
    ZeroPaddedNumber(d.day, r5, true);
    SkipLiteral(Infix, r6);
    LookupOwnName(d.month, r7, 0);
    SkipLiteral("-", r8);
    UnpaddedNumber(d.day, Extension);
    SkipLiteral(Extension, []);
    assert Extension + [] == Extension;
  }

  lemma {:induction false} LastElementAfterSeparator(dir: string, name: string)
    requires Separator !in name
    ensures LastElement(dir + [Separator] + name) == name
    decreases |name|
  {
    var p := dir + [Separator] + name;
    if name == [] {
      assert p[|p| - 1] == Separator;
    } else {
      var name' := name[..|name| - 1];
      assert p[..|p| - 1] == dir + [Separator] + name';
      LastElementAfterSeparator(dir, name');
      assert name == name' + [name[|name| - 1]];
    }
  }

  /** The last element of `dir/name` is `name`, whatever `dir` is. */
  lemma BaseOfJoin(dir: string, name: string)
    requires name != [] && Separator !in name
    ensures Base(dir + [Separator] + name) == name
  {
    var p := dir + [Separator] + name;
    assert p[|p| - 1] == name[|name| - 1];
    assert TrimTrailingSeparators(p) == p;
    LastElementAfterSeparator(dir, name);
  }

  lemma FormatHasNoSeparator(d: Date)
    requires ValidDate(d)
    ensures Format(d) != [] && Separator !in Format(d)
  {
    var m := ShortMonthNames[d.month - 1];
    assert Separator !in m;
    assert Separator !in Zero4(d.year) && Separator !in Zero2(d.month) && Separator !in Zero2(d.day);
    assert Separator !in Unpadded(d.day);
  }

  /** `Date()` on a path built by `New` in any directory gives back the day the
      path was built for: the one layout serves both directions. */
  lemma DateOfEntryPath(dir: string, d: Date)
    requires ValidDate(d)
    ensures EntryDate(EntryPath(dir, d)) == Some(d)
  {
    FormatHasNoSeparator(d);
    BaseOfJoin(dir, Format(d));
    ParseFormat(d);
  }

  // ---------------------------------------------------------------------------
  // Recognition.

  /** The unanchored search finds a match exactly when some piece of the path
      is one. */
  lemma {:induction false} IsEntryIffHasMatch(s: string)
    ensures IsEntry(s) <==> HasMatch(s)
    decreases |s|
  {
    if |s| < 37 {
      ShortHasNoMatch(s);
    } else {
      IsEntryIffHasMatch(s[1..]);
      if MatchesAtStart(s) {
        StartIsMatch(s);
      }
      if HasMatch(s[1..]) {
        LaterMatch(s);
      }
      if HasMatch(s) {
        StartOrLater(s);
      }
    }
  }

  lemma ShortHasNoMatch(s: string)
    requires |s| < 37
    ensures !HasMatch(s)
  {
    forall i, j | 0 <= i <= j <= |s| ensures !IsMatch(s[i..j]) {
    }
  }

  lemma StartIsMatch(s: string)
    requires MatchesAtStart(s)
    ensures HasMatch(s)
  {
    if |s| >= 37 && IsMatch(s[..37]) {
      assert s[0..37] == s[..37];
    } else {
      assert s[0..38] == s[..38];
    }
  }

  lemma LaterMatch(s: string)
    requires s != [] && HasMatch(s[1..])
    ensures HasMatch(s)
  {
    var u := s[1..];
    var i, j :| 0 <= i <= j <= |u| && IsMatch(u[i..j]);
    SliceOfTail(s, i + 1, j + 1);
    MatchWitness(s, i + 1, j + 1);
  }

  lemma StartOrLater(s: string)
    requires s != [] && HasMatch(s)
    ensures MatchesAtStart(s) || HasMatch(s[1..])
  {
    var i, j :| 0 <= i <= j <= |s| && IsMatch(s[i..j]);
    if i == 0 {
      MatchAtStart(s, j);
    } else {
      SliceOfTail(s, i, j);
      MatchWitness(s[1..], i - 1, j - 1);
    }
  }

  lemma SliceOfTail(s: string, i: int, j: int)
    requires 1 <= i <= j <= |s|
    ensures s[1..][i - 1..j - 1] == s[i..j]
  {
  }

  lemma MatchWitness(s: string, i: int, j: int)
    requires 0 <= i <= j <= |s| && IsMatch(s[i..j])
    ensures HasMatch(s)
  {
  }

  lemma MatchAtStart(s: string, j: nat)
    requires j <= |s| && IsMatch(s[0..j])
    ensures MatchesAtStart(s)
  {
    assert s[..j] == s[0..j];
    if j == 37 {
      assert IsMatch(s[..37]);
    } else {
      assert IsMatch(s[..38]);
    }
  }

  /** Text before or after a recognised path (a directory, say) never makes it
      unrecognised. */
  lemma IsEntryExtend(prefix: string, s: string, suffix: string)
    requires IsEntry(s)
    ensures IsEntry(prefix + s + suffix)
  {
    IsEntryIffHasMatch(s);
    var i, j :| 0 <= i <= j <= |s| && IsMatch(s[i..j]);
    var t := prefix + s + suffix;
    assert t[|prefix| + i..|prefix| + j] == s[i..j];
    IsEntryIffHasMatch(t);
  }

  lemma ShortMonthNameHasNoDigit(m: int)
    requires 1 <= m <= 12
    ensures |ShortMonthNames[m - 1]| == 3
    ensures !IsDigit(ShortMonthNames[m - 1][0]) && !IsDigit(ShortMonthNames[m - 1][1])
    ensures !IsDigit(ShortMonthNames[m - 1][2])
  {
    var name := ShortMonthNames[m - 1];
    assert forall i :: 0 <= i < 12 ==>
      |ShortMonthNames[i]| == 3 && !IsDigit(ShortMonthNames[i][0]) &&
      !IsDigit(ShortMonthNames[i][1]) && !IsDigit(ShortMonthNames[i][2]);
  }

  lemma ZeroPaddedDigits(n: int)
    requires 0 <= n <= 99
    ensures |Zero2(n)| == 2 && AllDigits(Zero2(n))
    ensures 1 <= |Unpadded(n)| <= 2 && AllDigits(Unpadded(n))
  {
  }

  /** Every generated name is, as a whole, one match of the pattern. */
  lemma FormatIsMatch(d: Date)
    requires ValidDate(d)
    ensures IsMatch(Format(d))
  {
    ShortMonthNameHasNoDigit(d.month);
    ZeroPaddedDigits(d.month);
    ZeroPaddedDigits(d.day);
    var year, month, day := Zero4(d.year), Zero2(d.month), Zero2(d.day);
    var name, day2 := ShortMonthNames[d.month - 1], Unpadded(d.day);
    var t := "-" + (day2 + Extension);
    assert t[1..|t| - 3] == day2 && t[|t| - 3..] == Extension;
    var s := "-" + (day + (Infix + (name + t)));
    Positions(s, day, name, t);
    TailPositions(s, t);
    var n := Format(d);
    assert n == year + ("-" + (month + s));
    HeadPositions(n, year, month + s, month, s);
    HeadThenTail(n, s);
  }

  lemma GetNumDigits(s: string, fixed: bool)
    requires GetNum(s, fixed).Some?
    ensures var k := |s| - |GetNum(s, fixed).value.rest|;
      && 1 <= k <= 2 && (fixed ==> k == 2)
      && AllDigits(s[..k]) && s == s[..k] + GetNum(s, fixed).value.rest
  {
  }

  lemma {:induction false} LookupMonthNoDigit(s: string, i: nat)
    requires LookupMonth(s, i).Some?
    ensures |s| >= 3 && !IsDigit(s[0]) && !IsDigit(s[1]) && !IsDigit(s[2])
    ensures s == s[..3] + LookupMonth(s, i).value.rest
    decreases 12 - i
  {
    if EqualFold(s[..3], ShortMonthNames[i]) {
      ShortMonthNameHasNoDigit(i + 1);
      assert s[..3][0] == s[0] && s[..3][1] == s[1] && s[..3][2] == s[2];
    } else {
      LookupMonthNoDigit(s, i + 1);
    }
  }

  /** Every name `Date()` accepts is one that `IsEntry` recognises. */
  lemma ParsedNameIsMatch(n: string)
    requires ParseName(n).Some?
    ensures IsMatch(n)
  {
    var year := LongYear(n).value;
    var s1 := Skip(year.rest, "-").value;
    var zeroMonth := GetNum(s1, true).value;
    YearDigits(n);
    GetNumDigits(s1, true);
    var s := zeroMonth.rest;
    assert ParseFromDay(year.value, s).Some?;
    FromDayPieces(year.value, s);
    HeadPositions(n, n[..4], s1, s1[..2], s);
    HeadThenTail(n, s);
  }

  lemma HeadPositions(n: string, year: string, s1: string, month: string, s: string)
    requires |year| == 4 && n == year + ("-" + s1) && |month| == 2 && s1 == month + s
    ensures |n| == 7 + |s| && n[..4] == year && n[4] == '-' && n[5..7] == month && n[7..] == s
  {
  }

  lemma YearDigits(n: string)
    requires LongYear(n).Some?
    ensures |n| >= 4 && AllDigits(n[..4]) && n == n[..4] + LongYear(n).value.rest
  {
  }

  /** What `ParseFromDay` accepts, position by position. */
  lemma FromDayPieces(year: int, s: string)
    requires 0 <= year <= 9999 && ParseFromDay(year, s).Some?
    ensures 30 <= |s| <= 31 && s[0] == '-' && AllDigits(s[1..3]) && s[3..22] == Infix
    ensures !IsDigit(s[22]) && !IsDigit(s[23]) && !IsDigit(s[24])
    ensures s[25] == '-' && AllDigits(s[26..|s| - 3]) && s[|s| - 3..] == Extension
  {
    var s2 := Skip(s, "-").value;
    var zeroDay := GetNum(s2, true).value;
    GetNumDigits(s2, true);
    var r2 := zeroDay.rest;
    var s3 := Skip(r2, Infix).value;
    var month := LookupMonth(s3, 0).value;
    LookupMonthNoDigit(s3, 0);
    var t := month.rest;
    DayPieces(year, month.value, t);
    assert s == "-" + (s2[..2] + (Infix + (s3[..3] + t)));
    Positions(s, s2[..2], s3[..3], t);
    TailPositions(s, t);
  }

  lemma Positions(s: string, day: string, name: string, t: string)
    requires |day| == 2 && |name| == 3 && s == "-" + (day + (Infix + (name + t)))
    ensures |s| == 25 + |t| && s[0] == '-' && s[1..3] == day && s[3..22] == Infix
    ensures s[22..25] == name && s[25..] == t
  {
  }

  lemma TailPositions(s: string, t: string)
    requires |s| == 25 + |t| && s[25..] == t
    requires 5 <= |t| && t[0] == '-' && AllDigits(t[1..|t| - 3]) && t[|t| - 3..] == Extension
    ensures s[25] == '-' && AllDigits(s[26..|s| - 3]) && s[|s| - 3..] == Extension
  {
    assert s[26..|s| - 3] == t[1..|t| - 3];
  }

  /** What `ParseDay` accepts: a dash, one or two digits, the extension. */
  lemma DayPieces(year: int, month: int, s: string)
    requires 0 <= year <= 9999 && 1 <= month <= 12 && ParseDay(year, month, s).Some?
    ensures 5 <= |s| <= 6 && s[0] == '-' && AllDigits(s[1..|s| - 3]) && s[|s| - 3..] == Extension
  {
    var s4 := Skip(s, "-").value;
    var day := GetNum(s4, false).value;
    GetNumDigits(s4, false);
    var s5 := Skip(day.rest, Extension).value;
    assert s5 == [];
    assert day.rest == Extension + s5;
    var k := |s4| - |day.rest|;
    assert s == "-" + (s4[..k] + Extension);
    assert s[1..|s| - 3] == s4[..k];
  }

  /** The year and the zero-padded month in front of what `ParseFromDay`
      accepts make one match of the pattern. */
  lemma HeadThenTail(n: string, s: string)
    requires |n| == 7 + |s| && AllDigits(n[..4]) && n[4] == '-' && AllDigits(n[5..7]) && n[7..] == s
    requires 30 <= |s| <= 31 && s[0] == '-' && AllDigits(s[1..3]) && s[3..22] == Infix
    requires !IsDigit(s[22]) && !IsDigit(s[23]) && !IsDigit(s[24])
    requires s[25] == '-' && AllDigits(s[26..|s| - 3]) && s[|s| - 3..] == Extension
    ensures IsMatch(n)
  {
    assert n[7] == s[0] && n[8..10] == s[1..3] && n[10..29] == s[3..22];
    assert n[29] == s[22] && n[30] == s[23] && n[31] == s[24] && n[32] == s[25];
    assert n[33..|n| - 3] == s[26..|s| - 3];
    assert n[|n| - 3] == s[|s| - 3] == '.';
    assert n[|n| - 2..] == s[|s| - 2..] == "md";
  }

  /** Every path `New` builds is recognised as an entry. */
  lemma EntryPathIsEntry(dir: string, d: Date)
    requires ValidDate(d)
    ensures IsEntry(EntryPath(dir, d))
  {
    var t := Format(d);
    FormatIsMatch(d);
    assert t[0..|t|] == t;
    IsEntryIffHasMatch(t);
    IsEntryExtend(dir + [Separator], t, []);
    assert dir + [Separator] + t + [] == EntryPath(dir, d);
  }

  /** Every base name `Date` accepts is also recognised as an entry. */
  lemma ParsedNameIsEntry(n: string)
    requires ParseName(n).Some?
    ensures IsEntry(n)
  {
    ParsedNameIsMatch(n);
    assert n[0..|n|] == n;
    IsEntryIffHasMatch(n);
  }
}
