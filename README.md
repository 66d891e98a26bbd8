# Address book: a verified model

This project models the core of a small command-line address book, and proves
properties of that model. The core has four parts.

- **Validated fields.** A `Name` is any non-empty string. A `Phone` is exactly
  ten decimal digits. A `Birthday` is a `DD.MM.YYYY` string that names a real
  Gregorian date.
- **Contact record.** A `Record` holds a name, an ordered list of distinct
  phone numbers and an optional birthday. It adds, finds, removes and edits
  phones in place, sets the birthday, and renders itself as text.
- **Address book.** An insertion-ordered dictionary from a contact's name to
  its record. It supports insert-or-replace, lookup and delete.
- **Upcoming birthdays.** The scan `get_upcoming_birthdays(days)`. For each
  record with a birthday, it moves the birthday into the reference year, or
  into the next year if it has already passed that year. It keeps the
  birthday if it falls between 0 and `days` days ahead. A birthday on a
  Saturday or Sunday is congratulated on the following Monday. The scan
  returns the name and the `DD.MM.YYYY` congratulation date of each kept
  record, in the book's order.

The modules follow that structure.

- `Wrappers` holds `Option`, `Result` and `Outcome`.
- `Calendar` models Python's `datetime.date`:
  - ordinals, with 0001-01-01 as day 1;
  - weekdays, with Monday as 0;
  - comparison, and adding days.
- `Fields` holds:
  - the three validators;
  - the `%d.%m.%Y` parser and writer.
- `Lists` holds "remove the first occurrence" and "no duplicates".
- `Records` holds:
  - the `Record` class;
  - the phone list as a value;
  - the two behaviours of the source that are modelled as written.
- `Scheduling` states the birthday scan as functions of (name, birthday)
  pairs:
  - `Step` handles one record;
  - `Upcoming` handles the whole book.
- `Book` holds:
  - the `AddressBook` class;
  - the scan's loop, proved equal to `Upcoming`.
- `Scenarios` holds:
  - concrete cases of the scan, with Monday 10 June 2024 as the reference
    date;
  - one phone edit.

A failing field constructor in the source raises `ValueError`. Here it
becomes a `Failure` or `Fail` value that carries a `ContactError`:
`InvalidName`, `InvalidPhone` or `InvalidDate`. The `ValueError` that
`edit_phone` raises for an old number it cannot find becomes `PhoneNotFound`.
A `Record` holds plain strings rather than wrapper objects. Its invariant `Valid()` says that each
stored string passed its validator.

The reference date of the scan is a parameter (`today`), not a clock read.

The source raises `ValueError` in two cases when it moves a birthday to
another year:

- a 29 February birthday and a non-leap target year;
- a target year past 9999.

Both raises sit outside the scan's `try` block, so they abort the whole scan.
The model returns `Failure(DayOutOfRange)` or `Failure(YearOutOfRange)` for the
whole scan in those cases.

## Model

| member | source | states |
|---|---|---|
| Fields.MakeName | AddressBook.py:25-29 | Succeeds exactly for a non-empty string and keeps it unchanged; otherwise fails with `InvalidName`. |
| Fields.MakePhone | AddressBook.py:32-36 | Succeeds exactly when the string has ten characters, all ASCII digits, and keeps it unchanged; otherwise fails with `InvalidPhone`. |
| Fields.MakeBirthday | AddressBook.py:39-47 | Succeeds exactly when the `%d.%m.%Y` parser reads the string, and keeps the string unchanged; otherwise fails with `InvalidDate`. |
| Fields.ParseDate | AddressBook.py:44 | Whatever the parser reads is a real date: year 1..9999, month 1..12, and a day that exists in that month and year. |
| Fields.ParseDateSpellings | AddressBook.py:44 | For a real date `d`, the parser reads `s` as `d` exactly when `s` is one of `d`'s spellings. Day and month each take one or two digits (two when the value is 10 or more), separated by dots, followed by a four-digit year. |
| Fields.ValidBirthdayIff | AddressBook.py:40-47 | A birthday string is accepted exactly when it spells some real Gregorian date, so 29 February is accepted only in leap years. |
| Fields.ParseWithUnique | AddressBook.py:44 | At most one day-width/month-width layout reads a given string. |
| Fields.ParseWithSound | AddressBook.py:44 | What a layout reads is a real date that the string spells in that layout. |
| Fields.ParseWithComplete | AddressBook.py:44 | Every spelling of a real date is read back by its layout as that date. |
| Fields.Render | AddressBook.py:131 | `strftime("%d.%m.%Y")` writes ten characters, with dots at positions 2 and 5. |
| Fields.RenderRoundTrip | AddressBook.py:116-131 | What `strftime` writes, `strptime` with the same format reads back as the same date, and it is a valid birthday. |
| Fields.ValueOfNumeral | AddressBook.py:131 | A zero-padded numeral that is wide enough for its number reads back as that number. |
| Fields.NumeralOfValue | AddressBook.py:116 | A digit string is the zero-padded numeral of its value at its own width. |
| Calendar.DaysInMonth | AddressBook.py:44 | A month has 28 to 31 days; it has 29 exactly for February of a Gregorian leap year. |
| Calendar.BeforeIsEarlierOrdinal | AddressBook.py:121 | On real dates, the `<` comparison agrees with comparison of ordinals. |
| Calendar.NextDayNumber | AddressBook.py:128 | The next day is well formed and has the next ordinal. |
| Calendar.NextDayValid | AddressBook.py:128 | The next day of any real date other than 9999-12-31 is a real date. |
| Calendar.AddDaysNumber | AddressBook.py:128 | Adding `k` days adds `k` to the ordinal. |
| Calendar.WeekdayAfter | AddressBook.py:127-128 | `k` days later, the weekday has advanced by `k` modulo 7. |
| Calendar.LastDateIsFriday | AddressBook.py:127-128 | 9999-12-31 is a Friday, so moving a weekend to Monday never leaves the calendar. |
| Calendar.DaysBeforeYearMonotone | AddressBook.py:124 | Ordinals of year starts increase with the year, by at least 365 days per year. |
| Calendar.DaysBeforeMonthMonotone | AddressBook.py:124 | Ordinals of month starts increase with the month within a year. |
| Calendar.DayNumberInYear | AddressBook.py:124 | A date's ordinal lies within its year's span of ordinals. |
| Scheduling.ReplaceYear | AddressBook.py:119-122 | `replace(year=y)` fails exactly when `y` is outside 1..9999, or when the date is 29 February and `y` is not a leap year. Otherwise it gives the same month and day in `y`. |
| Scheduling.NextOccurrenceIsFirst | AddressBook.py:119-122 | The occurrence keeps the month and day, is not before `today`, and falls in `today`'s year or the next. Every same-day date in an earlier year is before `today`. |
| Scheduling.NextOccurrenceFails | AddressBook.py:119-122 | Moving the birthday fails in exactly two cases: (1) 29 February, when the current year is not a leap year or its 29 February has passed; (2) a birthday already passed in year 9999. |
| Scheduling.DaysUntilNonNegative | AddressBook.py:124-126 | The days until the occurrence are never negative. |
| Scheduling.CongratulationDayFacts | AddressBook.py:127-128 | The congratulation day is a valid weekday. A weekday is unchanged. A Saturday moves 2 days and a Sunday 1 day, to the following Monday. |
| Scheduling.StepIncludes | AddressBook.py:124-126 | A record whose birthday can be moved is reported exactly when its occurrence is at most `days` days ahead. |
| Scheduling.StepReminder | AddressBook.py:126-132 | A reminder carries the record's name and a readable `DD.MM.YYYY` date. That date is a weekday between 0 and `days + 2` days after `today`. |
| Scheduling.UpcomingNoBirthdays | AddressBook.py:112-133 | A book with no birthdays, including an empty book, gives an empty result. |
| Scheduling.UpcomingFailsIff | AddressBook.py:112-132 | The scan fails exactly when the step of some record fails. |
| Scheduling.UpcomingFailurePersists | AddressBook.py:112-132 | Once the records up to some point fail, the whole scan fails with the same error. |
| Scheduling.UpcomingConcat | AddressBook.py:112-129 | Results keep the book's order: the reminders of two consecutive runs of records are concatenated. |
| Scheduling.UpcomingSound | AddressBook.py:126-132 | Every reminder in the result is the one the step of some record produces. |
| Scheduling.UpcomingComplete | AddressBook.py:126-132 | Every record whose step produces a reminder has that reminder in the result. |
| Scheduling.UpcomingDates | AddressBook.py:126-132 | Every reported date is a readable weekday within `days + 2` days of `today`, for a contact that has a birthday. |
| Scheduling.UpcomingExtendsAt | AddressBook.py:129-132 | One more record extends a clean scan by that record's reminder, if it has one. |
| Scheduling.UpcomingFailsAt | AddressBook.py:119-122 | A record that fails after a clean prefix makes the whole scan fail with that record's error. |
| Lists.RemoveFirstAt | AddressBook.py:74-82 | Removing a value whose first occurrence is at `i` gives the list before `i` followed by the list after `i`. |
| Lists.RemoveFirstAbsent | AddressBook.py:76 | Removing an absent value changes nothing. |
| Lists.RemoveFirstMultiset | AddressBook.py:74 | Removal takes out exactly one copy of a present value. |
| Lists.RemoveFirstDistinct | AddressBook.py:74-82 | Removal from a duplicate-free list keeps it duplicate-free and takes out exactly that value. |
| Records.WithPhoneSpec | AddressBook.py:59-60 | Adding a number keeps the earlier entries in order and leaves the number in the list exactly once. A new number is appended at the end; a present number leaves the list unchanged. |
| Records.WithPhoneIdempotent | AddressBook.py:57-60 | Adding a number twice is the same as adding it once. |
| Records.DuplicatesAsWritten | AddressBook.py:58-60 | As written, the duplicate check compares a fresh object by identity. So adding any number that is already stored stores it a second time, and the result differs from the value-equality rule `WithPhone`. |
| Records.DuplicateAsWritten | AddressBook.py:59-60 | As written, adding `0501234567` twice stores it twice. |
| Records.RemoveAbsentAsWritten | AddressBook.py:72-73 | As written, removing an absent number raises instead of returning `False`. |
| Records.SplitJoinPhones | AddressBook.py:91 | The `'; '`-joined phone list that `__str__` prints reads back as the same list. |
| Records.Record.constructor | AddressBook.py:51-54 | A new record has the given name, no phones and no birthday. |
| Records.Record.Create | AddressBook.py:51-52 | Creation fails with `InvalidName` exactly for the empty name. Otherwise it gives a fresh record with no phones and no birthday. |
| Records.Record.AddPhone | AddressBook.py:57-60 | A valid number is added by the duplicate rule and the call reports success. An invalid number fails with `InvalidPhone` and leaves the list unchanged. |
| Records.Record.AddBirthday | AddressBook.py:62-63 | A valid birthday string replaces the birthday. An invalid one fails with `InvalidDate` and leaves the birthday unchanged. |
| Records.Record.FindPhone | AddressBook.py:65-69 | Finds the number exactly when it is in the list. |
| Records.Record.RemovePhone | AddressBook.py:71-76 | Returns true exactly when the number was present, and removes its first occurrence while keeping the rest in order. An absent number gives false and no change. |
| Records.Record.EditPhone | AddressBook.py:78-84 | An absent old number fails with `PhoneNotFound` and changes nothing. Otherwise the old number is removed and then the new one is added by the duplicate rule. An invalid new number fails with `InvalidPhone` after the removal. |
| Book.ValuesInOrder | AddressBook.py:112 | Lists the records of the dictionary in the order of its keys. |
| Book.AddressBook.constructor | AddressBook.py:95 | A new book is empty. |
| Book.AddressBook.AddRecord | AddressBook.py:97-98 | The dictionary maps the record's name to the record, and every other key is unchanged. A new name goes to the end of the iteration order. |
| Book.AddressBook.Find | AddressBook.py:100-101 | Gives the record stored under the name exactly when the name is a key, and nothing otherwise. |
| Book.AddressBook.Delete | AddressBook.py:103-105 | Removes exactly that key and its place in the order. An absent name changes nothing. |
| Book.AddressBook.Records | AddressBook.py:112 | `data.values()`: one record per key, in insertion order, each stored under its own name. |
| Book.AddressBook.UpcomingBirthdays | AddressBook.py:108-133 | The loop's result is exactly `Upcoming` over the book's (name, birthday) pairs in insertion order, so every `Scheduling.Upcoming*` lemma applies to it. The window `days` defaults to 7. |
| Book.Congratulate | AddressBook.py:113-132 | The loop body for one record is exactly `Step` for that record's name and birthday. |
| Scenarios.LaterThisWeek | AddressBook.py:119-131 | On Monday 10 June 2024, with a 7-day window, a birthday of 12.06.1985 is reported as 12.06.2024. |
| Scenarios.AlreadyPassed | AddressBook.py:121-126 | On 10 June 2024, a birthday of 08.06.1990 moves to 2025 and is not reported. |
| Scenarios.WeekendMovesPastWindow | AddressBook.py:126-128 | With a 5-day window, a birthday that falls on Saturday 15 June 2024 is reported as Monday 17.06.2024, which is 7 days away. |
| Scenarios.LeapDayInCommonYear | AddressBook.py:119 | On 10 June 2023, a birthday of 29.02.2000 makes the scan fail with `DayOutOfRange`. |
| Scenarios.OnTheDay | AddressBook.py:121-131 | On 10 June 2024, with a window of 0 days, a birthday of 10.06.1990 is reported as 10.06.2024: a birthday on the reference date is not rolled over, and both window bounds include it. |
| Scenarios.WeekAhead | AddressBook.py:108 | Called without a window, the scan is the one with a 7-day window. |
| Scenarios.EditOnlyPhone | AddressBook.py:78-84 | Editing the only phone `1111111111` to `2222222222` leaves just `2222222222`. |

## Left out

- The read-print loop `main` (AddressBook.py:215-255). It is console input and output.
- The `input_error` decorator (AddressBook.py:4-16), the command handlers and their messages (AddressBook.py:135-199), and `parse_input` (AddressBook.py:204-210). These are presentation glue around the core. The `birthdays` handler also reads a dictionary key `'birthday'` that the scan never produces (AddressBook.py:198).
- `date.today()` (AddressBook.py:110). It is a clock read; the reference date is the parameter `today` instead.
- The `Field` wrapper objects (AddressBook.py:18-22). Fields are stored as the validated strings themselves.
- `Fields.MakePhone`: `str.isdigit` also accepts non-ASCII digits. The model accepts only `'0'..'9'`.
- `Fields.ParseDate`: `strptime` allows a space-padded day (`" 5.06.2024"`) and treats non-ASCII digits as digits. The model reads only the ASCII grammar of a 1- or 2-digit day, a 1- or 2-digit month and a 4-digit year.
- `Fields.Render`: a four-digit year is assumed for `%Y`. Some platforms write years below 1000 with fewer digits.
- `Records.Record.Describe` (`__str__`, AddressBook.py:90-92) has no contract of its own. Its phone part is covered by `Records.SplitJoinPhones`.
- `Records.Record.AddPhone`: duplicates are compared by value, not by object identity as written (see Findings).
- `Records.Record.RemovePhone`: an absent number returns false rather than raising, as the source evidently intends (see Findings).
- `Book.AddressBook.UpcomingBirthdays`: `AddressBook.Valid()` does not require its records' `Record.Valid()`, so the scan does not assume that a stored birthday is readable. `Step` skips a birthday it cannot read, as lines 115-118 do.
- Days until a birthday use the proleptic ordinal. `timedelta` arithmetic on `date` values agrees with it, and the model has no time zones.
- `UserDict` internals other than an insertion-ordered map keyed by name.

## Findings

| source | as written | input that shows it | evidently intended | confidence | as-written member | corrected member |
|---|---|---|---|---|---|---|
| AddressBook.py:58-60 | `phone not in self.phones` compares a fresh `Phone` object with the stored ones. `Field` defines no `__eq__` (AddressBook.py:18-22), so the comparison is by identity and the check never matches. | `add_phone("0501234567")` twice stores the number twice. | Value equality: adding a number already present leaves the list unchanged. | not executed | Records.DuplicatesAsWritten | Records.WithPhoneIdempotent |
| AddressBook.py:72-76 | `find_phone` returns `None` for an absent number, and `p.value` then raises `AttributeError`, so `return False` is unreachable. | `remove_phone("0000000000")` on a record without that number raises. | An absent number returns `False` and changes nothing. | not executed | Records.RemoveAbsentAsWritten | Records.Record.RemovePhone |
