/**
 * Concrete cases of the upcoming-birthdays rule. The reference date is
 * Monday 10 June 2024 unless said otherwise; each case first establishes the
 * calendar facts it rests on, one small lemma per fact, and then applies the
 * general rule for its branch.
 */
module Scenarios {
  import opened Wrappers
  import opened Calendar
  import opened Fields
  import opened Scheduling
  import opened Records
  import opened Book

  const Today := Date(2024, 6, 10)

  // ---------------------------------------------------------------------
  // The rule, one branch at a time

  /** A written birthday reads back as the date it spells. */
  lemma Reads(s: string, d: Date)
    requires ValidDate(d) && Render(d) == s
    ensures ParseDate(s) == Some(d)
  {
    RenderRoundTrip(d);
  }

  /** An occurrence inside the window is reported on its congratulation day `shown`. */
  lemma StepReports(e: Entry, days: int, today: Date, b: Date, c: Date, shown: Date)
    requires ValidDate(today) && e.birthday.Some? && ParseDate(e.birthday.value) == Some(b)
    requires NextOccurrence(b, today) == Success(c) && ValidDate(c)
    requires 0 <= DayNumber(c) - DayNumber(today) <= days
    requires CongratulationDay(c) == shown && ValidDate(shown)
    ensures Step(e, days, today) == Success(Some(Reminder(e.name, Render(shown))))
  {
  }

  /** An occurrence outside the window is not reported. */
  lemma StepSkips(e: Entry, days: int, today: Date, b: Date, c: Date)
    requires ValidDate(today) && e.birthday.Some? && ParseDate(e.birthday.value) == Some(b)
    requires NextOccurrence(b, today) == Success(c)
    requires !(0 <= DayNumber(c) - DayNumber(today) <= days)
    ensures Step(e, days, today) == Success(None)
  {
  }

  // ---------------------------------------------------------------------
  // Calendar facts

  lemma TodayIsMonday()
    ensures ValidDate(Today) && Weekday(Today) == 0
  {
  }

  lemma Written12June1985() ensures Render(Date(1985, 6, 12)) == "12.06.1985" {}
  lemma Written12June2024() ensures Render(Date(2024, 6, 12)) == "12.06.2024" {}
  lemma Written8June1990() ensures Render(Date(1990, 6, 8)) == "08.06.1990" {}
  lemma Written15June1990() ensures Render(Date(1990, 6, 15)) == "15.06.1990" {}
  lemma Written17June2024() ensures Render(Date(2024, 6, 17)) == "17.06.2024" {}
  lemma Written10June1990() ensures Render(Date(1990, 6, 10)) == "10.06.1990" {}
  lemma Written10June2024() ensures Render(Date(2024, 6, 10)) == "10.06.2024" {}
  lemma Written29February2000() ensures Render(Date(2000, 2, 29)) == "29.02.2000" {}

  lemma TwoDaysAfterToday()
    ensures DayNumber(Date(2024, 6, 12)) == DayNumber(Today) + 2
  {
  }

  lemma FiveDaysAfterToday()
    ensures DayNumber(Date(2024, 6, 15)) == DayNumber(Today) + 5
  {
  }

  lemma NextEighthOfJune()
    ensures NextOccurrence(Date(1990, 6, 8), Today) == Success(Date(2025, 6, 8))
    ensures DayNumber(Date(2025, 6, 8)) == DayNumber(Today) + 363
  {
  }

  lemma SaturdayMovesToMonday()
    ensures CongratulationDay(Date(2024, 6, 15)) == Date(2024, 6, 17)
  {
    TodayIsMonday();
    FiveDaysAfterToday();
    WeekdayAfter(Today, Date(2024, 6, 15), 5);
    NextDayNumber(Date(2024, 6, 15));
    assert AddDays(Date(2024, 6, 15), 1) == Date(2024, 6, 16);
    assert AddDays(Date(2024, 6, 15), 2) == NextDay(Date(2024, 6, 16));
  }

  // ---------------------------------------------------------------------
  // The cases

  /** A birthday on the Wednesday of this week is reported on that Wednesday. */
  lemma LaterThisWeek()
    ensures Step(Entry("Bo", Some("12.06.1985")), 7, Today) == Success(Some(Reminder("Bo", "12.06.2024")))
  {
    var b, c := Date(1985, 6, 12), Date(2024, 6, 12);
    Written12June1985();
    Reads("12.06.1985", b);
    assert NextOccurrence(b, Today) == Success(c);
    TodayIsMonday();
    TwoDaysAfterToday();
    WeekdayAfter(Today, c, 2);
    StepReports(Entry("Bo", Some("12.06.1985")), 7, Today, b, c, c);
    Written12June2024();
  }

  /** A birthday on the reference date itself is reported even with a window of 0 days. */
  lemma OnTheDay()
    ensures Step(Entry("Ed", Some("10.06.1990")), 0, Today) == Success(Some(Reminder("Ed", "10.06.2024")))
  {
    var b := Date(1990, 6, 10);
    Written10June1990();
    Reads("10.06.1990", b);
    assert NextOccurrence(b, Today) == Success(Today);
    TodayIsMonday();
    StepReports(Entry("Ed", Some("10.06.1990")), 0, Today, b, Today, Today);
    Written10June2024();
  }

  /** A birthday two days ago has moved to next year, far outside the window. */
  lemma AlreadyPassed()
    ensures Step(Entry("Al", Some("08.06.1990")), 7, Today) == Success(None)
  {
    var b := Date(1990, 6, 8);
    Written8June1990();
    Reads("08.06.1990", b);
    NextEighthOfJune();
    StepSkips(Entry("Al", Some("08.06.1990")), 7, Today, b, Date(2025, 6, 8));
  }

  /**
   * A birthday on Saturday is congratulated on the following Monday, even
   * though that Monday is 7 days away and the window is only 5 days: the
   * window is checked before the date is moved.
   */
  lemma WeekendMovesPastWindow()
    ensures Step(Entry("Cy", Some("15.06.1990")), 5, Today) == Success(Some(Reminder("Cy", "17.06.2024")))
  {
    var b, c := Date(1990, 6, 15), Date(2024, 6, 15);
    Written15June1990();
    Reads("15.06.1990", b);
    assert NextOccurrence(b, Today) == Success(c);
    FiveDaysAfterToday();
    SaturdayMovesToMonday();
    StepReports(Entry("Cy", Some("15.06.1990")), 5, Today, b, c, Date(2024, 6, 17));
    Written17June2024();
  }

  /** In a non-leap year a 29 February birthday makes the scan raise. */
  lemma LeapDayInCommonYear()
    ensures Step(Entry("Di", Some("29.02.2000")), 7, Date(2023, 6, 10)) == Failure(DayOutOfRange)
  {
    var b := Date(2000, 2, 29);
    Written29February2000();
    Reads("29.02.2000", b);
    assert ReplaceYear(b, 2023) == Failure(DayOutOfRange);
  }

  /** Editing a contact's only phone replaces it, and the record keeps no trace of the old one. */
  method EditOnlyPhone() returns (phones: seq<string>)
    ensures phones == ["2222222222"]
  {
    var record := new Record("Ann");
    var added := record.AddPhone("1111111111");
    assert added == Pass && record.phones == ["1111111111"];
    var edited := record.EditPhone("1111111111", "2222222222");
    assert edited == Pass;
    phones := record.phones;
  }

  /** Without a window argument the scan looks 7 days ahead, as the source's default does. */
  method WeekAhead(book: AddressBook) returns (r: Result<seq<Reminder>, DateError>)
    requires book.Valid()
    ensures r == Upcoming(EntriesOf(book.Records()), 7, Today)
  {
    TodayIsMonday();
    r := book.UpcomingBirthdays(Today);
  }
}
