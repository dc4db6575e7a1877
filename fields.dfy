/** The validated fields of a contact: whitespace trimming as `str.strip()`,
    the phone number (exactly ten digits once trimmed) and the birthday
    (text in DD.MM.YYYY naming a real calendar date), with the DD.MM.YYYY
    rendering the program prints. */
module Fields {
  import opened Outcomes
  import opened Calendar

  /** The characters `str.isspace()` accepts, as inclusive ranges of code points. */
  const SpaceRanges: seq<(char, char)> := [
    ('\t', '\r'), ('\U{1C}', ' '), ('\U{85}', '\U{85}'), ('\U{A0}', '\U{A0}'),
    ('\U{1680}', '\U{1680}'), ('\U{2000}', '\U{200A}'), ('\U{2028}', '\U{2029}'),
    ('\U{202F}', '\U{202F}'), ('\U{205F}', '\U{205F}'), ('\U{3000}', '\U{3000}')
  ]

  /** `c` lies in one of `ranges`. */
  predicate InRanges(c: char, ranges: seq<(char, char)>)
  {
    ranges != [] && (ranges[0].0 <= c <= ranges[0].1 || InRanges(c, ranges[1..]))
  }

  predicate IsSpace(c: char)
  {
    InRanges(c, SpaceRanges)
  }

  lemma {:induction false} NotInRanges(c: char, ranges: seq<(char, char)>)
    requires forall k :: 0 <= k < |ranges| ==> c < ranges[k].0 || ranges[k].1 < c
    ensures !InRanges(c, ranges)
  {
    if ranges != [] {
      NotInRanges(c, ranges[1..]);
    }
  }

  /** Visible ASCII characters, digits among them, are not whitespace. */
  lemma VisibleIsNotSpace(c: char)
    requires '!' <= c <= '~'
    ensures !IsSpace(c)
  {
    NotInRanges(c, SpaceRanges);
  }

  /** The first position at or after `i` that holds no whitespace, or |s|. */
  function SkipSpaces(s: string, i: nat): (r: nat)
    requires i <= |s|
    ensures i <= r <= |s|
    ensures forall k :: i <= k < r ==> IsSpace(s[k])
    ensures r < |s| ==> !IsSpace(s[r])
    decreases |s| - i
  {
    if i < |s| && IsSpace(s[i]) then SkipSpaces(s, i + 1) else i
  }

  /** Going back from `j` to no further than `lo`: one past the last position
      that holds no whitespace, or `lo`. */
  function SkipSpacesBack(s: string, lo: nat, j: nat): (r: nat)
    requires lo <= j <= |s|
    ensures lo <= r <= j
    ensures forall k :: r <= k < j ==> IsSpace(s[k])
    ensures lo < r ==> !IsSpace(s[r - 1])
  {
    if lo < j && IsSpace(s[j - 1]) then SkipSpacesBack(s, lo, j - 1) else j
  }

  /** As `str.strip()`: the text between leading and trailing whitespace. */
  function Strip(s: string): (r: string)
    ensures |r| <= |s|
    ensures r == [] || (!IsSpace(r[0]) && !IsSpace(r[|r| - 1]))
    ensures r == [] <==> forall k :: 0 <= k < |s| ==> IsSpace(s[k])
  {
    var start := SkipSpaces(s, 0);
    s[start..SkipSpacesBack(s, start, |s|)]
  }

  /** What stripping keeps is one slice of the text, with only whitespace
      before and after it. */
  lemma StripIsSlice(s: string) returns (i: nat)
    ensures i + |Strip(s)| <= |s| && Strip(s) == s[i..i + |Strip(s)|]
    ensures forall k :: 0 <= k < i ==> IsSpace(s[k])
    ensures forall k :: i + |Strip(s)| <= k < |s| ==> IsSpace(s[k])
  {
    i := SkipSpaces(s, 0);
  }

  /** Stripping keeps exactly the slice between whitespace-only padding:
      strip(pad1 + t + pad2) == t whenever t starts and ends with a non-space. */
  lemma StripOfPadded(s: string, i: nat, j: nat)
    requires i < j <= |s|
    requires forall k :: 0 <= k < i ==> IsSpace(s[k])
    requires forall k :: j <= k < |s| ==> IsSpace(s[k])
    requires !IsSpace(s[i]) && !IsSpace(s[j - 1])
    ensures Strip(s) == s[i..j]
  {
    var start := SkipSpaces(s, 0);
    assert start <= i;
    FirstNonSpaceUnique(s, i, start);
    var end := SkipSpacesBack(s, start, |s|);
    assert j <= end;
    LastNonSpaceUnique(s, j - 1, end - 1);
  }

  /** Only one position can be the first non-whitespace character. */
  lemma FirstNonSpaceUnique(s: string, a: nat, b: nat)
    requires a < |s| && b < |s|
    requires forall k :: 0 <= k < a ==> IsSpace(s[k])
    requires forall k :: 0 <= k < b ==> IsSpace(s[k])
    requires !IsSpace(s[a]) && !IsSpace(s[b])
    ensures a == b
  {
  }

  /** Only one position can be the last non-whitespace character. */
  lemma LastNonSpaceUnique(s: string, a: nat, b: nat)
    requires a < |s| && b < |s|
    requires forall k :: a < k < |s| ==> IsSpace(s[k])
    requires forall k :: b < k < |s| ==> IsSpace(s[k])
    requires !IsSpace(s[a]) && !IsSpace(s[b])
    ensures a == b
  {
  }

  /** Stripping twice is stripping once: a stored value is already trimmed. */
  lemma StripIdempotent(s: string)
    ensures Strip(Strip(s)) == Strip(s)
  {
    var r := Strip(s);
    if r != [] {
      StripOfPadded(r, 0, |r|);
    }
  }

  predicate IsDigit(c: char)
  {
    '0' <= c <= '9'
  }

  /** What `Phone` stores: exactly ten ASCII digits. */
  predicate IsPhoneNumber(v: string)
  {
    |v| == 10 && forall k :: 0 <= k < |v| ==> IsDigit(v[k])
  }

  /** As the `Phone` constructor: trim, then accept exactly ten digits;
      anything else raises "Incorrect phone number format.". */
  function ParsePhone(raw: string): (r: Result<string>)
    ensures r.Ok? ==> IsPhoneNumber(r.value)
    ensures r.Err? ==> r.error == InvalidPhone
  {
    var v := Strip(raw);
    if IsPhoneNumber(v) then Ok(v) else Err(InvalidPhone)
  }

  /** The phone validator accepts exactly ten digits surrounded by whitespace,
      and stores the ten digits: the first direction. */
  lemma PhoneAcceptsPaddedDigits(raw: string, i: nat)
    requires i + 10 <= |raw|
    requires forall k :: 0 <= k < i ==> IsSpace(raw[k])
    requires forall k :: i <= k < i + 10 ==> IsDigit(raw[k])
    requires forall k :: i + 10 <= k < |raw| ==> IsSpace(raw[k])
    ensures ParsePhone(raw) == Ok(raw[i..i + 10])
  {
    VisibleIsNotSpace(raw[i]);
    VisibleIsNotSpace(raw[i + 9]);
    StripOfPadded(raw, i, i + 10);
  }

  /** ...and the converse: whatever it accepts is ten digits with only whitespace
      around them, and the stored value is those digits. */
  lemma PhoneAcceptedIsPaddedDigits(raw: string) returns (i: nat)
    requires ParsePhone(raw).Ok?
    ensures i + 10 <= |raw| && ParsePhone(raw).value == raw[i..i + 10]
    ensures forall k :: 0 <= k < i ==> IsSpace(raw[k])
    ensures forall k :: i <= k < i + 10 ==> IsDigit(raw[k])
    ensures forall k :: i + 10 <= k < |raw| ==> IsSpace(raw[k])
  {
    var v := ParsePhone(raw).value;
    i := StripIsSlice(raw);
    forall k | i <= k < i + 10
      ensures IsDigit(raw[k])
    {
      assert raw[k] == v[k - i];
    }
  }

  /** A stored phone number validates again to itself. */
  lemma PhoneStoredValueRevalidates(raw: string)
    requires ParsePhone(raw).Ok?
    ensures ParsePhone(ParsePhone(raw).value) == ParsePhone(raw)
  {
    StripIdempotent(raw);
  }

  function DigitChar(n: int): char
    requires 0 <= n <= 9
  {
    ('0' as int + n) as char
  }

  function DigitValue(c: char): int
    requires IsDigit(c)
  {
    c as int - '0' as int
  }

  /** `n` as two decimal digits, zero-padded, as `%d` and `%m` print it. */
  function TwoDigits(n: int): string
    requires 0 <= n <= 99
  {
    [DigitChar(n / 10), DigitChar(n % 10)]
  }

  /** `n` as four decimal digits, zero-padded, as `%Y` prints it. */
  function FourDigits(n: int): string
    requires 0 <= n <= 9999
  {
    TwoDigits(n / 100) + TwoDigits(n % 100)
  }

  /** `strftime('%d.%m.%Y')`. */
  function FormatDate(d: Date): (s: string)
    requires ValidDate(d)
    ensures |s| == 10 && s[2] == '.' && s[5] == '.'
  {
    TwoDigits(d.day) + "." + TwoDigits(d.month) + "." + FourDigits(d.year)
  }

  /** Text of the literal shape DD.MM.YYYY. */
  predicate IsDateShape(s: string)
  {
    |s| == 10 && s[2] == '.' && s[5] == '.'
    && forall k :: 0 <= k < 10 && k != 2 && k != 5 ==> IsDigit(s[k])
  }

  /** `strptime(s, '%d.%m.%Y')` for the zero-padded form: the shape, then a real date. */
  function ParseDate(s: string): (r: Option<Date>)
    ensures r.Some? ==> IsDateShape(s) && ValidDate(r.value)
  {
    if IsDateShape(s) then
      var day := 10 * DigitValue(s[0]) + DigitValue(s[1]);
      var month := 10 * DigitValue(s[3]) + DigitValue(s[4]);
      var year := 1000 * DigitValue(s[6]) + 100 * DigitValue(s[7]) + 10 * DigitValue(s[8]) + DigitValue(s[9]);
      var d := Date(year, month, day);
      if ValidDate(d) then Some(d) else None
    else
      None
  }

  /** As the `Birthday` constructor on text: trim; empty text and anything
      that is not a real date in DD.MM.YYYY raise the one message
      "Invalid date format. Use DD.MM.YYYY". */
  function ParseBirthday(raw: string): (r: Result<Date>)
    ensures r.Ok? ==> ValidDate(r.value)
    ensures r.Err? ==> r.error == InvalidDate
  {
    var s := Strip(raw);
    if s == [] then Err(InvalidDate)
    else
      match ParseDate(s)
      case Some(d) => Ok(d)
      case None => Err(InvalidDate)
  }

  /** Empty and whitespace-only text is rejected with the format message. */
  lemma BirthdayRejectsBlank(raw: string)
    requires forall k :: 0 <= k < |raw| ==> IsSpace(raw[k])
    ensures ParseBirthday(raw) == Err(InvalidDate)
  {
  }

  lemma TwoDigitsRoundTrip(n: int)
    requires 0 <= n <= 99
    ensures IsDigit(TwoDigits(n)[0]) && IsDigit(TwoDigits(n)[1])
    ensures 10 * DigitValue(TwoDigits(n)[0]) + DigitValue(TwoDigits(n)[1]) == n
  {
  }

  lemma FourDigitsRoundTrip(n: int)
    requires 0 <= n <= 9999
    ensures forall k :: 0 <= k < 4 ==> IsDigit(FourDigits(n)[k])
    ensures 1000 * DigitValue(FourDigits(n)[0]) + 100 * DigitValue(FourDigits(n)[1])
            + 10 * DigitValue(FourDigits(n)[2]) + DigitValue(FourDigits(n)[3]) == n
  {
    var high, low := n / 100, n % 100;
    assert n == 100 * high + low;
    TwoDigitsRoundTrip(high);
    TwoDigitsRoundTrip(low);
    var s := FourDigits(n);
    assert s[0] == TwoDigits(high)[0] && s[1] == TwoDigits(high)[1];
    assert s[2] == TwoDigits(low)[0] && s[3] == TwoDigits(low)[1];
  }

  lemma TwoDigitsOfDigits(a: char, b: char)
    requires IsDigit(a) && IsDigit(b)
    ensures TwoDigits(10 * DigitValue(a) + DigitValue(b)) == [a, b]
  {
  }

  lemma FourDigitsOfDigits(a: char, b: char, c: char, e: char)
    requires IsDigit(a) && IsDigit(b) && IsDigit(c) && IsDigit(e)
    ensures FourDigits(1000 * DigitValue(a) + 100 * DigitValue(b) + 10 * DigitValue(c) + DigitValue(e)) == [a, b, c, e]
  {
    var high, low := 10 * DigitValue(a) + DigitValue(b), 10 * DigitValue(c) + DigitValue(e);
    var n := 100 * high + low;
    assert n / 100 == high && n % 100 == low;
    TwoDigitsOfDigits(a, b);
    TwoDigitsOfDigits(c, e);
  }

  /** The rendering has the DD.MM.YYYY shape and its digits read back as the date. */
  lemma FormatDateDigits(d: Date)
    requires ValidDate(d)
    ensures var s := FormatDate(d);
      && IsDateShape(s)
      && 10 * DigitValue(s[0]) + DigitValue(s[1]) == d.day
      && 10 * DigitValue(s[3]) + DigitValue(s[4]) == d.month
      && 1000 * DigitValue(s[6]) + 100 * DigitValue(s[7]) + 10 * DigitValue(s[8]) + DigitValue(s[9]) == d.year
  {
    var s := FormatDate(d);
    var dd, mm, yyyy := TwoDigits(d.day), TwoDigits(d.month), FourDigits(d.year);
    TwoDigitsRoundTrip(d.day);
    TwoDigitsRoundTrip(d.month);
    FourDigitsRoundTrip(d.year);
    assert s[0] == dd[0] && s[1] == dd[1] && s[2] == '.' && s[3] == mm[0] && s[4] == mm[1] && s[5] == '.';
    assert s[6] == yyyy[0] && s[7] == yyyy[1] && s[8] == yyyy[2] && s[9] == yyyy[3];
  }

  /** Formatting a date and parsing it back gives the same date. */
  lemma BirthdayRoundTrip(d: Date)
    requires ValidDate(d)
    ensures ParseBirthday(FormatDate(d)) == Ok(d)
  {
    var s := FormatDate(d);
    FormatDateDigits(d);
    assert ParseDate(s) == Some(d);
    VisibleIsNotSpace(s[0]);
    VisibleIsNotSpace(s[9]);
    StripOfPadded(s, 0, 10);
    assert s[0..10] == s;
  }

  lemma ParsedDateIsCanonical(s: string)
    requires ParseDate(s).Some?
    ensures FormatDate(ParseDate(s).value) == s
  {
    var d := ParseDate(s).value;
    assert IsDigit(s[0]) && IsDigit(s[1]) && IsDigit(s[3]) && IsDigit(s[4]);
    assert IsDigit(s[6]) && IsDigit(s[7]) && IsDigit(s[8]) && IsDigit(s[9]);
    TwoDigitsOfDigits(s[0], s[1]);
    TwoDigitsOfDigits(s[3], s[4]);
    FourDigitsOfDigits(s[6], s[7], s[8], s[9]);
    assert TwoDigits(d.day) == [s[0], s[1]];
    assert TwoDigits(d.month) == [s[3], s[4]];
    assert FourDigits(d.year) == [s[6], s[7], s[8], s[9]];
    assert s == [s[0], s[1]] + "." + [s[3], s[4]] + "." + [s[6], s[7], s[8], s[9]];
  }

  /** Whatever the birthday parser accepts is, once trimmed, the canonical
      DD.MM.YYYY rendering of the date it stores. */
  lemma BirthdayAcceptsOnlyCanonical(raw: string)
    requires ParseBirthday(raw).Ok?
    ensures FormatDate(ParseBirthday(raw).value) == Strip(raw)
  {
    ParsedDateIsCanonical(Strip(raw));
  }

  /** Examples: a canonical date is accepted... */
  lemma BirthdayAcceptsExample()
    ensures ParseBirthday("15.03.1990") == Ok(Date(1990, 3, 15))
  {
    assert FormatDate(Date(1990, 3, 15)) == "15.03.1990";
    BirthdayRoundTrip(Date(1990, 3, 15));
  }

  /** ...and empty or malformed text fails with the format message. */
  lemma BirthdayRejectsExamples()
    ensures ParseBirthday("") == Err(InvalidDate)
    ensures ParseBirthday("not-a-date") == Err(InvalidDate)
  {
    var bad := "not-a-date";
    VisibleIsNotSpace(bad[0]);
    VisibleIsNotSpace(bad[9]);
    StripOfPadded(bad, 0, 10);
    assert bad[0..10] == bad;
    assert !IsDateShape(bad);
  }
}
