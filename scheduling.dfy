/** The date rules of `AddressBook.get_upcoming_birthdays`: the birthday's
    next occurrence (this year, or next year once this year's has passed),
    the seven-day window starting today, and the move of a weekend birthday
    to the following Monday. `Schedule` is the whole query over the records
    in the ledger's iteration order; the first failing record aborts it. */
module Scheduling {
  import opened Outcomes
  import opened Calendar
  import opened Fields

  /** What the query reads from one record: its raw name and its birthday. */
  datatype Contact = Contact(name: string, birthday: Option<Date>)

  /** One item of the query's output: {"name": …, "congratulation_date": "DD.MM.YYYY"}. */
  datatype Entry = Entry(name: string, congratulationDate: string)

  /** The last day of the window, counted in days after today. */
  const LastWindowDay := 6

  predicate ValidContact(c: Contact)
  {
    c.birthday.Some? ==> ValidDate(c.birthday.value)
  }

  predicate ValidContacts(cs: seq<Contact>)
  {
    forall i :: 0 <= i < |cs| ==> ValidContact(cs[i])
  }

  /** The birthday moved into today's year, and into the next year when that
      date is already before today; `replace(year=…)` errors propagate. */
  function Occurrence(birthday: Date, today: Date): (r: Result<Date>)
    requires ValidDate(birthday) && ValidDate(today)
    ensures r.Ok? ==> && ValidDate(r.value) && r.value.month == birthday.month && r.value.day == birthday.day
                      && (r.value.year == today.year || r.value.year == today.year + 1)
  {
    match ReplaceYear(birthday, today.year)
    case Err(e) => Err(e)
    case Ok(thisYear) =>
      if Before(thisYear, today) then ReplaceYear(thisYear, today.year + 1) else Ok(thisYear)
  }

  /** The occurrence is the birthday's month and day in today's year or the
      next, never before today, and in the next year only when this year's
      date has passed. */
  lemma OccurrenceIsNext(birthday: Date, today: Date)
    requires ValidDate(birthday) && ValidDate(today)
    requires Occurrence(birthday, today).Ok?
    ensures var o := Occurrence(birthday, today).value;
      && ValidDate(o) && o.month == birthday.month && o.day == birthday.day
      && !Before(o, today) && DayNumber(o) >= DayNumber(today)
      && (o.year == today.year || o.year == today.year + 1)
      && (o.year == today.year + 1 <==> Before(Date(today.year, birthday.month, birthday.day), today))
  {
    var o := Occurrence(birthday, today).value;
    BeforeIsDayNumberOrder(o, today);
  }

  /** The occurrence fails exactly when a Feb 29 birthday is moved into a
      common year, or when this year's date has passed and the next year is
      either 10000 or, for a Feb 29 birthday, a common year. */
  lemma OccurrenceFailsExactly(birthday: Date, today: Date)
    requires ValidDate(birthday) && ValidDate(today)
    ensures var leapDay := birthday.month == 2 && birthday.day == 29;
      Occurrence(birthday, today).Err?
      <==> ((leapDay && !IsLeapYear(today.year))
            || (Before(Date(today.year, birthday.month, birthday.day), today)
                && (today.year == MaxYear || (leapDay && !IsLeapYear(today.year + 1)))))
  {
  }

  /** With the current code a Feb 29 birthday fails the query on every day
      after Feb 29 of a leap year: the following year is never a leap year. */
  lemma LeapDayBirthdayFailsAfterLeapDay(birthday: Date, today: Date)
    requires ValidDate(birthday) && ValidDate(today)
    requires birthday.month == 2 && birthday.day == 29
    requires IsLeapYear(today.year) && Before(Date(today.year, 2, 29), today)
    ensures Occurrence(birthday, today).Err?
  {
    OccurrenceFailsExactly(birthday, today);
    assert !IsLeapYear(today.year + 1);
  }

  /** The occurrence shifted off a weekend: Saturday + 2 days, Sunday + 1 day. */
  function CongratulationDate(occurrence: Date): (r: Result<Date>)
    requires ValidDate(occurrence)
    ensures r.Ok? ==> && ValidDate(r.value)
                      && DayNumber(r.value) - DayNumber(occurrence)
                         == (if Weekday(occurrence) == Saturday then 2 else if Weekday(occurrence) == Sunday then 1 else 0)
  {
    var w := Weekday(occurrence);
    if w == Saturday then AddDays(occurrence, 2)
    else if w == Sunday then AddDays(occurrence, 1)
    else Ok(occurrence)
  }

  /** The last two representable days are a Thursday and a Friday, so a
      weekend date always has room for its shift. */
  lemma WeekendLeavesRoom(d: Date)
    requires ValidDate(d) && Weekday(d) >= Saturday
    ensures DayNumber(d) + (if Weekday(d) == Saturday then 2 else 1) <= DayNumber(MaxDate)
  {
    DayNumberAtMost(d);
    MaxDateIsFriday();
    var n, last := DayNumber(d), DayNumber(MaxDate);
    assert last == 3652059;
    assert n != last && n != last - 1;
  }

  /** A date `k` days later is `k` places further round the week. */
  lemma WeekdayAfter(d: Date, e: Date, k: nat)
    requires ValidDate(d) && ValidDate(e) && DayNumber(e) == DayNumber(d) + k
    ensures Weekday(e) == (Weekday(d) + k) % 7
  {
    ShiftMod7(DayNumber(d) + 6, k);
  }

  lemma ShiftMod7(n: int, k: int)
    ensures (n + k) % 7 == (n % 7 + k) % 7
  {
    var q := n / 7;
    assert n + k == 7 * q + (n % 7 + k);
  }

  /** The shift never runs past 9999-12-31, moves a Saturday by two days and
      a Sunday by one day, both to the following Monday, and leaves weekdays
      alone; so the result is never a weekend day. */
  lemma CongratulationIsWeekday(occurrence: Date)
    requires ValidDate(occurrence)
    ensures CongratulationDate(occurrence).Ok?
    ensures var c := CongratulationDate(occurrence).value;
      && ValidDate(c)
      && 0 <= DayNumber(c) - DayNumber(occurrence) <= 2
      && Weekday(c) != Saturday && Weekday(c) != Sunday
      && (Weekday(occurrence) >= Saturday ==> Weekday(c) == Monday)
      && (Weekday(occurrence) < Saturday ==> c == occurrence)
  {
    var w := Weekday(occurrence);
    if w == Saturday {
      WeekendLeavesRoom(occurrence);
      var r := AddDays(occurrence, 2);
      assert r.Ok? && CongratulationDate(occurrence) == r;
      WeekdayAfter(occurrence, r.value, 2);
    } else if w == Sunday {
      WeekendLeavesRoom(occurrence);
      var r := AddDays(occurrence, 1);
      assert r.Ok? && CongratulationDate(occurrence) == r;
      WeekdayAfter(occurrence, r.value, 1);
    }
  }

  /** One loop iteration of the query for one record: nothing for a record
      without a birthday or whose occurrence is outside today .. today + 6,
      otherwise the record's name with the formatted congratulation date. */
  function UpcomingFor(c: Contact, today: Date): (r: Result<Option<Entry>>)
    requires ValidContact(c) && ValidDate(today)
    ensures r.Ok? && r.value.Some? ==> c.birthday.Some? && r.value.value.name == c.name
    ensures c.birthday.None? ==> r == Ok(None)
  {
    match c.birthday
    case None => Ok(None)
    case Some(b) =>
      match Occurrence(b, today)
      case Err(e) => Err(e)
      case Ok(occurrence) =>
        var daysUntil := DayNumber(occurrence) - DayNumber(today);
        if 0 <= daysUntil <= LastWindowDay then
          match CongratulationDate(occurrence)
          case Err(e) => Err(e)
          case Ok(congratulation) => Ok(Some(Entry(c.name, FormatDate(congratulation))))
        else
          Ok(None)
  }

  /** An emitted entry belongs to a record with a birthday, whose next
      occurrence is 0 to 6 days from today, and carries a congratulation date
      0 to 2 days after the occurrence that is neither a Saturday nor a Sunday:
      the occurrence itself on a weekday, the following Monday on a weekend. */
  lemma UpcomingEntryIsSound(c: Contact, today: Date) returns (occurrence: Date, congratulation: Date)
    requires ValidContact(c) && ValidDate(today)
    requires UpcomingFor(c, today).Ok? && UpcomingFor(c, today).value.Some?
    ensures c.birthday.Some? && Occurrence(c.birthday.value, today) == Ok(occurrence)
    ensures occurrence.month == c.birthday.value.month && occurrence.day == c.birthday.value.day
    ensures !Before(occurrence, today)
    ensures 0 <= DayNumber(occurrence) - DayNumber(today) <= LastWindowDay
    ensures ValidDate(congratulation) && 0 <= DayNumber(congratulation) - DayNumber(occurrence) <= 2
    ensures Weekday(congratulation) != Saturday && Weekday(congratulation) != Sunday
    ensures Weekday(occurrence) >= Saturday ==> Weekday(congratulation) == Monday
    ensures Weekday(occurrence) < Saturday ==> congratulation == occurrence
    ensures UpcomingFor(c, today).value.value == Entry(c.name, FormatDate(congratulation))
  {
    occurrence := Occurrence(c.birthday.value, today).value;
    OccurrenceIsNext(c.birthday.value, today);
    CongratulationIsWeekday(occurrence);
    congratulation := CongratulationDate(occurrence).value;
  }

  /** A record is left out only when it has no birthday or its next
      occurrence is more than 6 days away. */
  lemma UpcomingSkipIsSound(c: Contact, today: Date)
    requires ValidContact(c) && ValidDate(today)
    requires UpcomingFor(c, today) == Ok(None)
    ensures c.birthday.Some? ==>
      Occurrence(c.birthday.value, today).Ok?
      && DayNumber(Occurrence(c.birthday.value, today).value) - DayNumber(today) > LastWindowDay
  {
    if c.birthday.Some? {
      OccurrenceIsNext(c.birthday.value, today);
      CongratulationIsWeekday(Occurrence(c.birthday.value, today).value);
    }
  }

  /** A record fails the query exactly when its birthday's occurrence fails. */
  lemma UpcomingFailsExactly(c: Contact, today: Date)
    requires ValidContact(c) && ValidDate(today)
    ensures UpcomingFor(c, today).Err? <==> c.birthday.Some? && Occurrence(c.birthday.value, today).Err?
  {
    if c.birthday.Some? && Occurrence(c.birthday.value, today).Ok? {
      CongratulationIsWeekday(Occurrence(c.birthday.value, today).value);
    }
  }

  /** The whole query over the records in iteration order: the entries of
      the records in the window, or the first record's error. */
  function Schedule(cs: seq<Contact>, today: Date): (r: Result<seq<Entry>>)
    requires ValidContacts(cs) && ValidDate(today)
    ensures r.Ok? ==> |r.value| <= |cs|
  {
    if cs == [] then Ok([])
    else
      match Schedule(cs[..|cs| - 1], today)
      case Err(e) => Err(e)
      case Ok(upcoming) =>
        match UpcomingFor(cs[|cs| - 1], today)
        case Err(e) => Err(e)
        case Ok(None) => Ok(upcoming)
        case Ok(Some(entry)) => Ok(upcoming + [entry])
  }

  /** The query over one more record extends the query over the records
      before it by that record's outcome. */
  lemma ScheduleStep(cs: seq<Contact>, i: nat, today: Date)
    requires ValidContacts(cs) && ValidDate(today) && i < |cs|
    ensures Schedule(cs[..i + 1], today)
      == match Schedule(cs[..i], today)
         case Err(e) => Err(e)
         case Ok(upcoming) =>
           match UpcomingFor(cs[i], today)
           case Err(e) => Err(e)
           case Ok(None) => Ok(upcoming)
           case Ok(Some(entry)) => Ok(upcoming + [entry])
  {
    var prefix := cs[..i + 1];
    assert prefix[..i] == cs[..i] && prefix[i] == cs[i];
  }

  /** One step of the loop over the records: from the query over the first
      `i` records, record `i` either ends the whole query with its error or
      extends the query's output by its entry, if any. */
  lemma ScheduleAdvance(cs: seq<Contact>, i: nat, today: Date, upcoming: seq<Entry>)
    requires ValidContacts(cs) && ValidDate(today) && i < |cs|
    requires Schedule(cs[..i], today) == Ok(upcoming)
    ensures match UpcomingFor(cs[i], today)
      case Err(e) => Schedule(cs, today) == Err(e)
      case Ok(None) => Schedule(cs[..i + 1], today) == Ok(upcoming)
      case Ok(Some(entry)) => Schedule(cs[..i + 1], today) == Ok(upcoming + [entry])
  {
    ScheduleStep(cs, i, today);
    if UpcomingFor(cs[i], today).Err? {
      ScheduleErrorPersists(cs, i + 1, today);
    }
  }

  /** Once a prefix of the records fails, the whole query fails with that error. */
  lemma {:induction false} ScheduleErrorPersists(cs: seq<Contact>, k: nat, today: Date)
    requires ValidContacts(cs) && ValidDate(today)
    requires k <= |cs| && Schedule(cs[..k], today).Err?
    ensures Schedule(cs, today) == Schedule(cs[..k], today)
    decreases |cs| - k
  {
    if k < |cs| {
      var front := cs[..|cs| - 1];
      assert front[..k] == cs[..k];
      ScheduleErrorPersists(front, k, today);
    } else {
      assert cs[..k] == cs;
    }
  }

  /** Every entry the query emits is the entry of one of the records. */
  lemma {:induction false} ScheduleEntryFromRecord(cs: seq<Contact>, today: Date, j: nat) returns (i: nat)
    requires ValidContacts(cs) && ValidDate(today)
    requires Schedule(cs, today).Ok? && j < |Schedule(cs, today).value|
    ensures i < |cs| && UpcomingFor(cs[i], today) == Ok(Some(Schedule(cs, today).value[j]))
  {
    var front := cs[..|cs| - 1];
    var upcoming := Schedule(front, today).value;
    if j < |upcoming| {
      i := ScheduleEntryFromRecord(front, today, j);
    } else {
      i := |cs| - 1;
    }
  }

  /** When the query succeeds, every record succeeded and every record in the
      window has its entry in the output. */
  lemma {:induction false} ScheduleKeepsEveryUpcoming(cs: seq<Contact>, today: Date, i: nat)
    requires ValidContacts(cs) && ValidDate(today)
    requires Schedule(cs, today).Ok? && i < |cs|
    ensures UpcomingFor(cs[i], today).Ok?
    ensures UpcomingFor(cs[i], today).value.Some? ==> UpcomingFor(cs[i], today).value.value in Schedule(cs, today).value
  {
    var front := cs[..|cs| - 1];
    if i < |cs| - 1 {
      ScheduleKeepsEveryUpcoming(front, today, i);
    }
  }

  /** When the query fails, it fails with the error of the first failing record. */
  lemma {:induction false} ScheduleFailsAtFirstError(cs: seq<Contact>, today: Date) returns (i: nat)
    requires ValidContacts(cs) && ValidDate(today)
    requires Schedule(cs, today).Err?
    ensures i < |cs| && UpcomingFor(cs[i], today) == Err(Schedule(cs, today).error)
    ensures forall k :: 0 <= k < i ==> UpcomingFor(cs[k], today).Ok?
  {
    var front := cs[..|cs| - 1];
    if Schedule(front, today).Err? {
      i := ScheduleFailsAtFirstError(front, today);
    } else {
      i := |cs| - 1;
      forall k | 0 <= k < i
        ensures UpcomingFor(cs[k], today).Ok?
      {
        ScheduleKeepsEveryUpcoming(front, today, k);
      }
    }
  }

  /** The property the query promises, for each emitted entry: it names a
      record with a birthday whose occurrence is 0 to 6 days ahead, and its
      congratulation date, 0 to 2 days after that, is never a weekend day: it
      is the occurrence itself on a weekday and the following Monday otherwise. */
  lemma ScheduledEntriesAreUpcoming(cs: seq<Contact>, today: Date, j: nat)
    returns (i: nat, occurrence: Date, congratulation: Date)
    requires ValidContacts(cs) && ValidDate(today)
    requires Schedule(cs, today).Ok? && j < |Schedule(cs, today).value|
    ensures i < |cs| && cs[i].birthday.Some?
    ensures Occurrence(cs[i].birthday.value, today) == Ok(occurrence)
    ensures 0 <= DayNumber(occurrence) - DayNumber(today) <= LastWindowDay
    ensures ValidDate(congratulation) && 0 <= DayNumber(congratulation) - DayNumber(occurrence) <= 2
    ensures Weekday(congratulation) != Saturday && Weekday(congratulation) != Sunday
    ensures Weekday(occurrence) >= Saturday ==> Weekday(congratulation) == Monday
    ensures Weekday(occurrence) < Saturday ==> congratulation == occurrence
    ensures Schedule(cs, today).value[j] == Entry(cs[i].name, FormatDate(congratulation))
  {
    i := ScheduleEntryFromRecord(cs, today, j);
    occurrence, congratulation := UpcomingEntryIsSound(cs[i], today);
  }

  /** Year rollover: on 2024-12-30 a 2 January birthday falls on Thursday
      2025-01-02, three days ahead, and is emitted unchanged. */
  lemma RolloverExample()
    ensures Occurrence(Date(1990, 1, 2), Date(2024, 12, 30)) == Ok(Date(2025, 1, 2))
    ensures UpcomingFor(Contact("ann", Some(Date(1990, 1, 2))), Date(2024, 12, 30))
            == Ok(Some(Entry("ann", "02.01.2025")))
  {
    var today, occurrence := Date(2024, 12, 30), Date(2025, 1, 2);
    assert DayNumber(today) == 739250 && DayNumber(occurrence) == 739253;
    assert Weekday(occurrence) == 3;
    assert FormatDate(occurrence) == "02.01.2025";
  }

  /** 2024-06-16 is a Sunday, congratulated on Monday 2024-06-17. */
  lemma SundayShiftExample()
    ensures Weekday(Date(2024, 6, 16)) == Sunday
    ensures CongratulationDate(Date(2024, 6, 16)) == Ok(Date(2024, 6, 17))
  {
    var sunday, monday := Date(2024, 6, 16), Date(2024, 6, 17);
    assert DayNumber(sunday) == 739053;
    assert NextDay(sunday) == monday;
    assert AddDays(sunday, 1) == Ok(monday);
  }

  /** Window edge: on Monday 2024-06-10 a birthday on Sunday 06-16, six
      days ahead, is emitted for Monday 06-17. */
  lemma WeekendShiftExample()
    ensures UpcomingFor(Contact("bob", Some(Date(1985, 6, 16))), Date(2024, 6, 10))
            == Ok(Some(Entry("bob", "17.06.2024")))
  {
    var today, sunday, monday := Date(2024, 6, 10), Date(2024, 6, 16), Date(2024, 6, 17);
    SundayShiftExample();
    assert DayNumber(sunday) - DayNumber(today) == 6;
    assert FormatDate(monday) == "17.06.2024";
  }

  /** Window edge: on 2024-06-10 a birthday on 06-17, seven days ahead, is not emitted. */
  lemma WindowEndExample()
    ensures UpcomingFor(Contact("eve", Some(Date(1985, 6, 17))), Date(2024, 6, 10)) == Ok(None)
  {
    var today, monday := Date(2024, 6, 10), Date(2024, 6, 17);
    assert DayNumber(today) == 739047 && DayNumber(monday) == 739054;
  }
}
