/**
 * The upcoming-birthdays computation of `AddressBook.get_upcoming_birthdays`,
 * one contact at a time and over the whole book, as functions of the
 * contacts' (name, birthday) pairs in the book's order, the window length
 * `days` and the reference date `today`.
 */
module Scheduling {
  import opened Wrappers
  import opened Calendar
  import opened Fields

  /** Why `date.replace(year=...)` raises `ValueError`. */
  datatype DateError = YearOutOfRange | DayOutOfRange

  /** What the scan sees of one record: its name and its birthday text, if set. */
  datatype Entry = Entry(name: string, birthday: Option<string>)

  /** One element of the result: `{"name": ..., "congratulation_date": ...}`. */
  datatype Reminder = Reminder(name: string, congratulationDate: string)

  /** `d.replace(year=y)`: the same month and day in year `y`, if that date exists. */
  function ReplaceYear(d: Date, y: int): (r: Result<Date, DateError>)
    requires ValidDate(d)
    ensures r.Failure? <==> !(MinYear <= y <= MaxYear) || (d.month == 2 && d.day == 29 && !IsLeapYear(y))
    ensures r.Success? ==> ValidDate(r.value) && r.value == Date(y, d.month, d.day)
  {
    if !(MinYear <= y <= MaxYear) then Failure(YearOutOfRange)
    else if d.day > DaysInMonth(y, d.month) then Failure(DayOutOfRange)
    else Success(Date(y, d.month, d.day))
  }

  /**
   * The birthday moved into `today`'s year, or into the following year when
   * that date is already strictly before `today`.
   */
  function NextOccurrence(b: Date, today: Date): Result<Date, DateError>
    requires ValidDate(b) && ValidDate(today)
  {
    match ReplaceYear(b, today.year)
    case Failure(e) => Failure(e)
    case Success(c) => if Before(c, today) then ReplaceYear(c, today.year + 1) else Success(c)
  }

  /** A Saturday or a Sunday moves on to the following Monday; a weekday stays. */
  function CongratulationDay(c: Date): Date
    requires ValidDate(c)
  {
    if Weekday(c) >= 5 then AddDays(c, 7 - Weekday(c)) else c
  }

  /**
   * One pass of the loop: no birthday or an unreadable one is skipped; a
   * birthday whose occurrence falls 0..days days after `today` yields a
   * reminder dated on its congratulation day.
   */
  function Step(e: Entry, days: int, today: Date): Result<Option<Reminder>, DateError>
    requires ValidDate(today)
  {
    if e.birthday.None? then Success(None)
    else match ParseDate(e.birthday.value)
      case None => Success(None)
      case Some(b) =>
        match NextOccurrence(b, today)
        case Failure(err) => Failure(err)
        case Success(c) =>
          var until := DayNumber(c) - DayNumber(today);
          if 0 <= until <= days then
            CongratulationDayFacts(c);
            Success(Some(Reminder(e.name, Render(CongratulationDay(c)))))
          else Success(None)
  }

  /** Appends one step's reminder to the scan so far; the first error wins. */
  function Extend(acc: Result<seq<Reminder>, DateError>, step: Result<Option<Reminder>, DateError>)
    : Result<seq<Reminder>, DateError>
  {
    match acc
    case Failure(err) => Failure(err)
    case Success(rs) =>
      match step
      case Failure(err) => Failure(err)
      case Success(None) => Success(rs)
      case Success(Some(x)) => Success(rs + [x])
  }

  /** The whole scan: the reminders of the entries in order, or the first error raised. */
  function Upcoming(es: seq<Entry>, days: int, today: Date): Result<seq<Reminder>, DateError>
    requires ValidDate(today)
    decreases |es|
  {
    if es == [] then Success([])
    else Extend(Upcoming(es[..|es| - 1], days, today), Step(es[|es| - 1], days, today))
  }

  // ---------------------------------------------------------------------
  // One birthday

  /**
   * The occurrence keeps month and day, is not before `today`, lies in
   * `today`'s year or the next, and every same-day date in an earlier year
   * is already before `today`: it is the first occurrence on or after `today`.
   */
  lemma NextOccurrenceIsFirst(b: Date, today: Date)
    requires ValidDate(b) && ValidDate(today)
    requires NextOccurrence(b, today).Success?
    ensures var c := NextOccurrence(b, today).value;
      && ValidDate(c)
      && c.month == b.month && c.day == b.day
      && !Before(c, today)
      && (c.year == today.year || c.year == today.year + 1)
      && (forall y | y < c.year :: Before(Date(y, b.month, b.day), today))
  {
  }

  /**
   * The scan raises exactly for a 29 February birthday that would need a
   * non-leap year, and for a birthday already passed in year 9999.
   */
  lemma NextOccurrenceFails(b: Date, today: Date)
    requires ValidDate(b) && ValidDate(today)
    ensures NextOccurrence(b, today).Failure? <==>
      || (b.month == 2 && b.day == 29 && (!IsLeapYear(today.year) || Before(Date(today.year, 2, 29), today)))
      || (today.year == MaxYear && Before(Date(MaxYear, b.month, b.day), today))
  {
    if b.month == 2 && b.day == 29 && IsLeapYear(today.year) {
      assert !IsLeapYear(today.year + 1);
    }
  }

  /** Days from `today` to the occurrence are never negative, so only the upper bound filters. */
  lemma DaysUntilNonNegative(b: Date, today: Date)
    requires ValidDate(b) && ValidDate(today)
    requires NextOccurrence(b, today).Success?
    ensures DayNumber(NextOccurrence(b, today).value) - DayNumber(today) >= 0
  {
    var c := NextOccurrence(b, today).value;
    NextOccurrenceIsFirst(b, today);
    BeforeIsEarlierOrdinal(c, today);
  }

  /**
   * The congratulation day is a valid weekday: the date itself when it is one,
   * else the Monday after it (Saturday + 2, Sunday + 1).
   */
  lemma CongratulationDayFacts(c: Date)
    requires ValidDate(c)
    ensures var r := CongratulationDay(c);
      && ValidDate(r)
      && Weekday(r) < 5
      && (Weekday(c) < 5 ==> r == c)
      && (Weekday(c) == 5 ==> Weekday(r) == 0 && DayNumber(r) == DayNumber(c) + 2)
      && (Weekday(c) == 6 ==> Weekday(r) == 0 && DayNumber(r) == DayNumber(c) + 1)
  {
    if Weekday(c) == 5 {
      SaturdayToMonday(c);
    } else if Weekday(c) == 6 {
      SundayToMonday(c);
    }
  }

  /** A Saturday is two days before a Monday that is still a valid date. */
  lemma SaturdayToMonday(c: Date)
    requires ValidDate(c) && Weekday(c) == 5
    ensures ValidDate(AddDays(c, 2)) && Weekday(AddDays(c, 2)) == 0
    ensures DayNumber(AddDays(c, 2)) == DayNumber(c) + 2
  {
    LastDateIsFriday();
    NextDayValid(c);
    var n := NextDay(c);
    NextDayNumber(c);
    WeekdayAfter(c, n, 1);
    NextDayValid(n);
    NextDayNumber(n);
    assert AddDays(c, 2) == NextDay(n);
    WeekdayAfter(c, NextDay(n), 2);
  }

  /** A Sunday is one day before a Monday that is still a valid date. */
  lemma SundayToMonday(c: Date)
    requires ValidDate(c) && Weekday(c) == 6
    ensures ValidDate(AddDays(c, 1)) && Weekday(AddDays(c, 1)) == 0
    ensures DayNumber(AddDays(c, 1)) == DayNumber(c) + 1
  {
    LastDateIsFriday();
    NextDayValid(c);
    NextDayNumber(c);
    assert AddDays(c, 1) == NextDay(c);
    WeekdayAfter(c, NextDay(c), 1);
  }

  /** With the occurrence computed, a record is reported exactly when it falls at most `days` days ahead. */
  lemma StepIncludes(e: Entry, days: int, today: Date)
    requires ValidDate(today)
    requires e.birthday.Some? && ParseDate(e.birthday.value).Some?
    requires NextOccurrence(ParseDate(e.birthday.value).value, today).Success?
    ensures var c := NextOccurrence(ParseDate(e.birthday.value).value, today).value;
      && Step(e, days, today).Success?
      && (Step(e, days, today).value.Some? <==> DayNumber(c) - DayNumber(today) <= days)
  {
    DaysUntilNonNegative(ParseDate(e.birthday.value).value, today);
  }

  /**
   * A reported reminder carries the record's name and a `DD.MM.YYYY` date
   * that is a weekday between 0 and `days + 2` days after `today`.
   */
  lemma StepReminder(e: Entry, days: int, today: Date)
    requires ValidDate(today)
    requires Step(e, days, today).Success? && Step(e, days, today).value.Some?
    ensures var x := Step(e, days, today).value.value;
      && x.name == e.name
      && e.birthday.Some?
      && ParseDate(x.congratulationDate).Some?
      && var d := ParseDate(x.congratulationDate).value;
         Weekday(d) < 5 && 0 <= DayNumber(d) - DayNumber(today) <= days + 2
  {
    var b := ParseDate(e.birthday.value).value;
    var c := NextOccurrence(b, today).value;
    DaysUntilNonNegative(b, today);
    CongratulationDayFacts(c);
    RenderRoundTrip(CongratulationDay(c));
  }

  // ---------------------------------------------------------------------
  // The whole scan

  /** A book with no birthdays, in particular an empty one, has no upcoming birthdays. */
  lemma {:induction false} UpcomingNoBirthdays(es: seq<Entry>, days: int, today: Date)
    requires ValidDate(today)
    requires forall i | 0 <= i < |es| :: es[i].birthday.None?
    ensures Upcoming(es, days, today) == Success([])
    decreases |es|
  {
    if es != [] {
      UpcomingNoBirthdays(es[..|es| - 1], days, today);
    }
  }

  /** The scan fails exactly when the step for some entry fails. */
  lemma {:induction false} UpcomingFailsIff(es: seq<Entry>, days: int, today: Date)
    requires ValidDate(today)
    ensures Upcoming(es, days, today).Failure? <==>
      exists i | 0 <= i < |es| :: Step(es[i], days, today).Failure?
    decreases |es|
  {
    if es != [] {
      var init := es[..|es| - 1];
      UpcomingFailsIff(init, days, today);
      if exists i | 0 <= i < |init| :: Step(init[i], days, today).Failure? {
        var i :| 0 <= i < |init| && Step(init[i], days, today).Failure?;
        assert es[i] == init[i];
      }
      if exists i | 0 <= i < |es| :: Step(es[i], days, today).Failure? {
        var i :| 0 <= i < |es| && Step(es[i], days, today).Failure?;
        if i < |init| {
          assert init[i] == es[i];
        }
      }
    }
  }

  /** Once a prefix of the entries raises, the whole scan raises the same error. */
  lemma {:induction false} UpcomingFailurePersists(es: seq<Entry>, k: nat, days: int, today: Date)
    requires ValidDate(today)
    requires k <= |es| && Upcoming(es[..k], days, today).Failure?
    ensures Upcoming(es, days, today) == Upcoming(es[..k], days, today)
    decreases |es| - k
  {
    if k < |es| {
      var init := es[..|es| - 1];
      assert init[..k] == es[..k];
      UpcomingFailurePersists(init, k, days, today);
    } else {
      assert es[..k] == es;
    }
  }

  /** One more entry extends a clean scan by that entry's reminder, if any. */
  lemma UpcomingExtendsAt(es: seq<Entry>, i: nat, days: int, today: Date)
    requires ValidDate(today)
    requires i < |es| && Upcoming(es[..i], days, today).Success? && Step(es[i], days, today).Success?
    ensures var acc, st := Upcoming(es[..i], days, today).value, Step(es[i], days, today).value;
      Upcoming(es[..i + 1], days, today) == Success(if st.Some? then acc + [st.value] else acc)
  {
    assert es[..i + 1][..i] == es[..i];
  }

  /** If the entries before `i` scan cleanly and entry `i` raises, the scan raises that error. */
  lemma UpcomingFailsAt(es: seq<Entry>, i: nat, days: int, today: Date)
    requires ValidDate(today)
    requires i < |es| && Upcoming(es[..i], days, today).Success? && Step(es[i], days, today).Failure?
    ensures Upcoming(es, days, today) == Failure(Step(es[i], days, today).error)
  {
    assert es[..i + 1][..i] == es[..i];
    UpcomingFailurePersists(es, i + 1, days, today);
  }

  /** Results keep the book's order: the reminders of a concatenation are concatenated. */
  lemma {:induction false} UpcomingConcat(a: seq<Entry>, b: seq<Entry>, days: int, today: Date)
    requires ValidDate(today)
    requires Upcoming(a, days, today).Success? && Upcoming(b, days, today).Success?
    ensures Upcoming(a + b, days, today)
      == Success(Upcoming(a, days, today).value + Upcoming(b, days, today).value)
    decreases |b|
  {
    var ra := Upcoming(a, days, today).value;
    if b == [] {
      assert a + b == a;
      assert Upcoming(b, days, today) == Success([]);
      assert ra + [] == ra;
    } else {
      var init, last := b[..|b| - 1], b[|b| - 1];
      var st := Step(last, days, today);
      assert (a + b)[..|a + b| - 1] == a + init;
      assert (a + b)[|a + b| - 1] == last;
      assert Upcoming(a + b, days, today) == Extend(Upcoming(a + init, days, today), st);
      assert Upcoming(b, days, today) == Extend(Upcoming(init, days, today), st);
      var ri := Upcoming(init, days, today).value;
      UpcomingConcat(a, init, days, today);
      if st.Success? && st.value.Some? {
        assert ra + ri + [st.value.value] == ra + (ri + [st.value.value]);
      }
    }
  }

  /** Every reminder comes from the step of some entry. */
  lemma {:induction false} UpcomingSound(es: seq<Entry>, days: int, today: Date)
    requires ValidDate(today)
    requires Upcoming(es, days, today).Success?
    ensures var rs := Upcoming(es, days, today).value;
      forall j | 0 <= j < |rs| :: exists i | 0 <= i < |es| :: Step(es[i], days, today) == Success(Some(rs[j]))
    decreases |es|
  {
    if es != [] {
      var init := es[..|es| - 1];
      UpcomingSound(init, days, today);
      var rs := Upcoming(es, days, today).value;
      var acc := Upcoming(init, days, today).value;
      forall j | 0 <= j < |rs|
        ensures exists i | 0 <= i < |es| :: Step(es[i], days, today) == Success(Some(rs[j]))
      {
        if j < |acc| {
          var i :| 0 <= i < |init| && Step(init[i], days, today) == Success(Some(acc[j]));
          assert es[i] == init[i];
        } else {
          assert Step(es[|es| - 1], days, today) == Success(Some(rs[j]));
        }
      }
    }
  }

  /** Every entry whose step yields a reminder has that reminder in the result. */
  lemma {:induction false} UpcomingComplete(es: seq<Entry>, days: int, today: Date)
    requires ValidDate(today)
    requires Upcoming(es, days, today).Success?
    ensures forall i | 0 <= i < |es| && Step(es[i], days, today).Success? && Step(es[i], days, today).value.Some? ::
      Step(es[i], days, today).value.value in Upcoming(es, days, today).value
    decreases |es|
  {
    if es != [] {
      var init := es[..|es| - 1];
      UpcomingComplete(init, days, today);
      forall i | 0 <= i < |es| && Step(es[i], days, today).Success? && Step(es[i], days, today).value.Some?
        ensures Step(es[i], days, today).value.value in Upcoming(es, days, today).value
      {
        if i < |init| {
          assert init[i] == es[i];
        }
      }
    }
  }

  /**
   * Every reported date is a weekday within `days + 2` days of `today`, and
   * names a contact of the book that has a birthday.
   */
  lemma UpcomingDates(es: seq<Entry>, days: int, today: Date)
    requires ValidDate(today)
    requires Upcoming(es, days, today).Success?
    ensures var rs := Upcoming(es, days, today).value;
      forall j | 0 <= j < |rs| ::
        && (exists i | 0 <= i < |es| :: es[i].name == rs[j].name && es[i].birthday.Some?)
        && ParseDate(rs[j].congratulationDate).Some?
        && var d := ParseDate(rs[j].congratulationDate).value;
           Weekday(d) < 5 && 0 <= DayNumber(d) - DayNumber(today) <= days + 2
  {
    var rs := Upcoming(es, days, today).value;
    UpcomingSound(es, days, today);
    forall j | 0 <= j < |rs|
      ensures && (exists i | 0 <= i < |es| :: es[i].name == rs[j].name && es[i].birthday.Some?)
              && ParseDate(rs[j].congratulationDate).Some?
              && var d := ParseDate(rs[j].congratulationDate).value;
                 Weekday(d) < 5 && 0 <= DayNumber(d) - DayNumber(today) <= days + 2
    {
      var i :| 0 <= i < |es| && Step(es[i], days, today) == Success(Some(rs[j]));
      StepReminder(es[i], days, today);
    }
  }
}
