# Contact ledger with an upcoming-birthdays query, in Dafny

This project models the in-memory core of a console contact assistant
(`agent.py`) and proves properties of it:

- **Fields** (`fields.dfy`): the `Phone` validator (trim with `str.strip()`,
  then exactly ten digits) and the `Birthday` validator (trim, reject empty
  text, parse `DD.MM.YYYY` into a real calendar date, one error kind for
  every failure), with the `%d.%m.%Y` rendering the program prints.
- **Calendar** (`calendar.dfy`): Python `date` semantics the query relies
  on: years 1 to 9999, the ordinal day number of `toordinal()` computed with
  Python's own closed form, `weekday()`, tuple comparison,
  `replace(year=…)` with its two error cases, and `+ timedelta(days=k)`
  with its overflow past 9999-12-31.
- **Records** (`records.dfy`): `Record` is a class whose phone list and
  birthday change in place. It supports append, replace-first-match,
  find-first-match, delete-first-match, set-birthday and the display line.
- **Ledger** (`ledger.dfy`): `AddressBook` is a class holding a map from the
  raw name to the record. Beside the map it keeps the key order that Python
  dictionaries iterate in. It supports add/overwrite, lookup, delete, and
  `get_upcoming_birthdays` as a loop over the records.
- **Scheduling** (`scheduling.dfy`): the query's date rules as pure
  functions, and `Schedule`, the whole query over a sequence of records:
  - the next occurrence: this year, or next year once this year's date has
    passed;
  - the seven-day window from today through today + 6;
  - the move of a Saturday birthday by two days and a Sunday birthday by one
    day, to Monday;
  - the first raising record aborts the query.
- **Handlers** (`handlers.dfy`): the `add`, `change` and `add-birthday`
  commands. Each fetches the record first and then mutates that same record.

`today` is a parameter of the query; the program reads it from the clock.
Errors that the program raises are `Err(kind)` or `Fail(kind)` results
(`outcomes.dfy`); a handler's normal reply text is `Ok(text)`.

Two behaviours of the code are kept as written:

- `Record.__str__` prints the raw name, not the title-cased one (agent.py:76).
- A 29 February birthday has no fallback date. `date.replace` raises when
  the target year is not a leap year, and that error aborts the whole query.
  `LeapDayBirthdayFailsAfterLeapDay` shows that, as written, this happens on
  every day after 29 February of a leap year.

## Model

| member | source | states |
|---|---|---|
| Calendar.DayNumber | agent.py:122 | the ordinal of a date as `date.toordinal()`, 0001-01-01 being day 1; `DayNumberWithinYear`, `NextDay` and `BeforeIsDayNumberOrder` state what it means |
| Calendar.Weekday | agent.py:131-132 | `date.weekday()`, Monday 0 to Sunday 6, read off the ordinal; `WeekdayAfter` and `MaxDateIsFriday` pin it down |
| Calendar.Before | agent.py:118 | `a < b` on dates as the lexicographic order of (year, month, day); `BeforeIsDayNumberOrder` ties it to the ordinals |
| Calendar.DayNumberWithinYear | agent.py:122 | every date of year y has an ordinal after all days of the earlier years and within y's own length |
| Calendar.DaysBeforeYearStep | agent.py:122 | Python's closed-form count of days before a year grows by exactly that year's length (365, or 366 in a leap year), so ordinals count days one by one |
| Calendar.NextDay | agent.py:134 | the day after a date other than 9999-12-31 is a valid date whose ordinal is one more |
| Calendar.BeforeIsDayNumberOrder | agent.py:118 | `a < b` on dates (tuple order) holds exactly when a's ordinal is smaller, and two dates are equal exactly when their ordinals are |
| Calendar.AddDays | agent.py:132-137 | `d + timedelta(days=k)` succeeds exactly when the ordinal stays within 9999-12-31; it then gives the valid date k days later, and otherwise raises an overflow error |
| Calendar.ReplaceYear | agent.py:115 | `replace(year=y)` succeeds exactly when y is in 1..9999 and the day exists in that month of y; the result keeps month and day and has year y; a failure reports the year error when the year is out of range and the day error otherwise, since the year is checked first |
| Calendar.MaxDateIsFriday | agent.py:132-137 | 9999-12-31 is ordinal 3652059 and a Friday |
| Fields.Strip | agent.py:22 | the result is no longer than the input, begins and ends with a non-space character, and is empty exactly when the input is all whitespace |
| Fields.StripIsSlice | agent.py:22 | the stripped text is one slice of the input with only whitespace before and after it |
| Fields.StripOfPadded | agent.py:22 | stripping text that is a non-space-bounded slice padded with whitespace gives exactly that slice |
| Fields.StripIdempotent | agent.py:22 | stripping twice is stripping once |
| Fields.ParsePhone | agent.py:21-25 | an accepted phone is ten digits; a rejected one fails with the invalid-phone error |
| Fields.PhoneAcceptsPaddedDigits | agent.py:22-25 | ten digits with only whitespace around them are accepted, and the stored value is those ten digits |
| Fields.PhoneAcceptedIsPaddedDigits | agent.py:22-25 | conversely, every accepted input is ten digits with only whitespace around them, and the stored value is those digits |
| Fields.PhoneStoredValueRevalidates | agent.py:22-25 | a stored phone number validates again to itself |
| Fields.FormatDate | agent.py:75 | `strftime('%d.%m.%Y')`: ten characters with dots at positions 2 and 5; `FormatDateDigits` and `BirthdayRoundTrip` give its digits and its inverse |
| Fields.ParseDate | agent.py:37 | `strptime(s, '%d.%m.%Y')` for the zero-padded form: a date is returned only for text of the DD.MM.YYYY shape naming a real calendar date |
| Fields.ParseBirthday | agent.py:29-40 | an accepted birthday is a valid calendar date; every failure is the one invalid-date error |
| Fields.BirthdayRejectsBlank | agent.py:34-36 | empty and whitespace-only text is rejected with the invalid-date error |
| Fields.FormatDateDigits | agent.py:75 | the `%d.%m.%Y` rendering has the DD.MM.YYYY shape and its digit groups read back as day, month and year |
| Fields.BirthdayRoundTrip | agent.py:37 | parsing the `%d.%m.%Y` rendering of any valid date gives back that date |
| Fields.ParsedDateIsCanonical | agent.py:37 | a DD.MM.YYYY text that parses is exactly the rendering of the date it names |
| Fields.BirthdayAcceptsOnlyCanonical | agent.py:34-37 | for any accepted birthday, rendering the stored date gives back the trimmed input |
| Fields.BirthdayAcceptsExample | agent.py:29-40 | "15.03.1990" is accepted as 1990-03-15 |
| Fields.BirthdayRejectsExamples | agent.py:34-40 | "" and "not-a-date" are rejected with the invalid-date error |
| Scheduling.Occurrence | agent.py:115-119 | a successful occurrence is a valid date with the birthday's month and day, in today's year or the next |
| Scheduling.OccurrenceIsNext | agent.py:115-119 | the occurrence keeps the birthday's month and day, is never before today, and is in today's year, or in the next year exactly when this year's date has passed |
| Scheduling.OccurrenceFailsExactly | agent.py:115-119 | the occurrence raises exactly when a 29 February birthday meets a common year, or when this year's date has passed and year + 1 is out of range or not a leap year for a 29 February birthday |
| Scheduling.LeapDayBirthdayFailsAfterLeapDay | agent.py:115-119 | a 29 February birthday makes the occurrence raise on every day after 29 February of a leap year |
| Scheduling.CongratulationDate | agent.py:128-137 | a successful shift gives a valid date two days after a Saturday occurrence, one day after a Sunday one, and the occurrence itself otherwise |
| Scheduling.WeekendLeavesRoom | agent.py:132-137 | a Saturday or Sunday is at least two or one days, respectively, before 9999-12-31, so the weekend shift cannot overflow |
| Scheduling.WeekdayAfter | agent.py:132-137 | a date k days later is k places further round the week |
| Scheduling.CongratulationIsWeekday | agent.py:128-137 | the weekend shift never overflows; a Saturday or Sunday occurrence moves to the following Monday, a weekday one stays as it is, so the result is never a weekend day and is 0 to 2 days after the occurrence |
| Scheduling.UpcomingFor | agent.py:108-143 | an emitted entry carries the record's own name and exists only for a record with a birthday; a record without one is skipped |
| Scheduling.UpcomingEntryIsSound | agent.py:107-143 | an emitted entry belongs to a record with a birthday whose occurrence is 0 to 6 days ahead, and carries the rendering of the occurrence itself on a weekday or of the following Monday on a weekend |
| Scheduling.UpcomingSkipIsSound | agent.py:108-126 | a record is skipped only when it has no birthday or its occurrence is more than 6 days ahead |
| Scheduling.UpcomingFailsExactly | agent.py:112-137 | one record makes the query raise exactly when its occurrence raises |
| Scheduling.Schedule | agent.py:105-145 | the whole query over the records in iteration order; on success it emits at most one entry per record |
| Scheduling.ScheduleStep | agent.py:107-143 | the query over one more record extends the query over the records before it by that record's outcome |
| Scheduling.ScheduleAdvance | agent.py:107-143 | one iteration of the loop: the next record either ends the whole query with its error or extends the output by its entry, if any |
| Scheduling.ScheduleErrorPersists | agent.py:107-145 | once the records so far raise, the whole query raises that same error |
| Scheduling.ScheduleEntryFromRecord | agent.py:140-143 | every emitted entry is the entry of one of the records |
| Scheduling.ScheduleKeepsEveryUpcoming | agent.py:107-143 | when the query succeeds, every record succeeded and every record in the window has its entry in the output |
| Scheduling.ScheduleFailsAtFirstError | agent.py:107-145 | when the query raises, it raises the error of the first raising record; every record before it succeeded |
| Scheduling.ScheduledEntriesAreUpcoming | agent.py:104-145 | each emitted entry names a record with a birthday whose occurrence is 0 to 6 days ahead; its date is that occurrence on a weekday and the following Monday on a weekend, never a Saturday or Sunday |
| Scheduling.RolloverExample | agent.py:115-143 | on 2024-12-30 a 2 January birthday rolls over to 2025-01-02 and is emitted as "02.01.2025" |
| Scheduling.SundayShiftExample | agent.py:135-137 | 2024-06-16 is a Sunday and is congratulated on 2024-06-17 |
| Scheduling.WeekendShiftExample | agent.py:122-143 | on 2024-06-10 a birthday on Sunday 06-16 (6 days out) is emitted as "17.06.2024" |
| Scheduling.WindowEndExample | agent.py:122-126 | on 2024-06-10 a birthday on 06-17 (7 days out) is not emitted |
| Records.FirstIndex | agent.py:53-54 | the first position holding the value, with no earlier position holding it, or none exactly when the value is absent |
| Records.WithoutFirst | agent.py:64-69 | the list after `del self.phones[i]` at the first match, or unchanged without one; `WithoutFirstRemovesOneCopy` states what it removes |
| Records.WithoutFirstRemovesOneCopy | agent.py:64-69 | deleting the first match removes exactly one copy when there is one (length minus one, multiset minus that value) and nothing otherwise, and the result is the list with the element at the first matching index cut out, the rest in order |
| Records.JoinedPhoneAt | agent.py:76 | the `'; '`-joined list of ten-digit phones holds the i-th phone at offset 12·i and has length 12·n − 2 |
| Records.Render | agent.py:74-76 | the line `__str__` builds from a name, a phone list and an optional birthday; `RenderLayout` and `RenderPhoneAt` state its layout |
| Records.RenderLayout | agent.py:74-76 | for any record, with or without phones: the line starts with "Contact name: " and the raw name, continues with the joined phones (12·n − 2 characters, none when there are no phones), and ends with ", birthday: DD.MM.YYYY" exactly when there is a birthday |
| Records.RenderPhoneAt | agent.py:76 | the i-th phone sits at a fixed offset of the line, so the line lists every phone in order |
| Records.Record.ToString | agent.py:74-76 | `__str__` on a record: `Render` of its current name, phones and birthday |
| Records.Record.constructor | agent.py:44-47 | a new record has the given name, no phones and no birthday |
| Records.Record.AddPhone | agent.py:49-50 | a valid phone is appended at the end with earlier phones untouched; an invalid one raises and leaves the list unchanged |
| Records.Record.EditPhone | agent.py:52-56 | only the first phone equal to the old value is replaced by the validated new one; without a match nothing changes and the new value is not validated; an invalid new value raises and changes nothing |
| Records.Record.FindPhone | agent.py:58-62 | a phone is found exactly when the value is in the list, and the phone found has that value |
| Records.Record.RemovePhone | agent.py:64-69 | returns true exactly when the value is present, and the list becomes the list without its first match |
| Records.Record.AddBirthday | agent.py:71-72 | valid text sets or overwrites the birthday; invalid text raises and keeps the old birthday |
| Ledger.WithoutFirstOfDistinct | agent.py:89-90 | on a key order without repetitions, deleting the first copy of a key leaves exactly the other keys, still without repetitions, in their old relative order (by `WithoutFirstRemovesOneCopy`), and changes nothing when the key is absent |
| Ledger.ContactsOf | agent.py:107 | the query sees one (name, birthday) pair per key, in iteration order |
| Ledger.AddressBook.constructor | agent.py:80-81 | a new ledger is empty |
| Ledger.AddressBook.Contacts | agent.py:107 | the records the query iterates all carry valid birthdays |
| Ledger.AddressBook.AddRecord | agent.py:83-84 | the record is stored under its raw name, replacing any earlier one; other keys are unchanged; a new name goes to the end of the iteration order and an existing one keeps its place |
| Ledger.AddressBook.Find | agent.py:86-87 | a record is found exactly when the name is a key, and it is the record stored under that name |
| Ledger.AddressBook.FindOrAdd | agent.py:192-197 | an existing record is returned with the ledger unchanged; otherwise a fresh empty record is stored under the name and returned |
| Ledger.AddressBook.Delete | agent.py:89-90 | exactly the key is removed from the map, and the iteration order loses that key's one copy with the rest in their order; an absent key raises and changes nothing |
| Ledger.AddressBook.GetUpcomingBirthdays | agent.py:104-145 | the loop returns exactly the query over the records in iteration order: the entries of the records in the window, or the first record's error |
| Handlers.AddContact | agent.py:188-200 | too few arguments raise; an existing name keeps its record, its birthday and its earlier phones; a new name gets a fresh record that stays even when the phone is rejected; a non-empty phone is validated and appended; other records are untouched |
| Handlers.ChangeContact | agent.py:203-220 | too few arguments and an unknown name give their messages; a missing old phone gives "Phone … not found for contact …" and leaves the phones unchanged; otherwise only the first match is replaced, or an invalid new phone raises; no birthday and no other record changes |
| Handlers.AddBirthday | agent.py:254-267 | too few arguments and an unknown name give their messages; otherwise valid text sets the contact's birthday and invalid text raises with it unchanged; no phones and no other record change |

## Left out

- Fields.ParsePhone: accepts only ASCII digits. Python's `str.isdigit()` also accepts other Unicode decimal digits and superscripts; modelling those would need Unicode tables.
- Fields.ParseBirthday: accepts only the zero-padded `DD.MM.YYYY` form in ASCII digits, through `Fields.ParseDate`. `strptime` also accepts one-digit days and months, and any Unicode decimal digit where its pattern has `\d`; its matching rules belong to the library.
- Fields.ParseDate: accepts only zero-padded DD.MM.YYYY in ASCII digits. `strptime(s, '%d.%m.%Y')` also accepts one-digit days and months ("5.3.1990") and any Unicode decimal digit where its pattern has `\d`; modelling those would need its regular expressions and Unicode tables.
- Fields.FormatDate: prints the year as four zero-padded digits. What `strftime('%Y')` prints for years below 1000 depends on the platform.
- The `Birthday` branch that takes a ready `datetime` (agent.py:31-32): the handlers only pass text.
- Records.Record.FindPhone: returns the matching phone's value rather than the `Phone` object. The handler only tests the result against `None` (agent.py:216), so the value serves as well as the object.
- `Name.__str__` title-casing (agent.py:17): Unicode case mapping is a library behaviour, and the core never renders through it.
- The `input_error` decorator (agent.py:163-178): errors are `Err`/`Fail` results naming the exception's kind, not the text it would print. Unpacking too few arguments in `add_contact` is `MissingArguments`.
- `datetime.today()` (agent.py:104): the clock is replaced by the `today` parameter.
- `save_data` and `load_data` (agent.py:148-160): file I/O with pickle.
- `parse_input` and `main` (agent.py:181-185, 303-346): console input, output and command dispatch.
- `show_phone`, `show_all`, `show_birthday` and `birthdays` (agent.py:223-300): text rendering only.
- The rest of the `UserDict` interface of `AddressBook`: the core uses only the operations modelled here.
