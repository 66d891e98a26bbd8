/**
 * The address book: a dictionary from a contact's name to its record that
 * remembers insertion order (a `UserDict` over a Python `dict`), with
 * insert-or-replace, lookup, delete and the upcoming-birthdays scan.
 */
module Book {
  import opened Wrappers
  import opened Calendar
  import opened Fields
  import opened Lists
  import opened Records
  import opened Scheduling

  /** The records of `m` in the order of the keys `ks`. */
  function ValuesInOrder(ks: seq<string>, m: map<string, Record>): (rs: seq<Record>)
    requires forall k | k in ks :: k in m
    ensures |rs| == |ks| && forall i | 0 <= i < |ks| :: rs[i] == m[ks[i]]
  {
    if ks == [] then [] else ValuesInOrder(ks[..|ks| - 1], m) + [m[ks[|ks| - 1]]]
  }

  /** What the birthday scan reads of each record. */
  function EntriesOf(rs: seq<Record>): (es: seq<Entry>)
    reads rs
    ensures |es| == |rs|
  {
    seq(|rs|, i requires 0 <= i < |rs| reads rs => Entry(rs[i].name, rs[i].birthday))
  }

  class AddressBook {
    /** The dictionary's keys in insertion order. */
    var keys: seq<string>
    var data: map<string, Record>

    /** Keys are listed once each, exactly the dictionary's keys, and each names its record. */
    ghost predicate Valid()
      reads this
    {
      && Distinct(keys)
      && (forall k :: k in data <==> k in keys)
      && (forall k | k in data :: data[k].name == k)
    }

    constructor ()
      ensures Valid() && keys == [] && data == map[]
    {
      keys := [];
      data := map[];
    }

    /**
     * `add_record`: `data[record.name] = record`. A new name goes to the end of
     * the order; an existing name keeps its place and its old record is replaced.
     */
    method AddRecord(record: Record)
      requires Valid()
      modifies this
      ensures Valid()
      ensures data == old(data)[record.name := record]
      ensures keys == if record.name in old(data) then old(keys) else old(keys) + [record.name]
    {
      if record.name !in data {
        keys := keys + [record.name];
      }
      data := data[record.name := record];
    }

    /** `find`: the record stored under `name`, or nothing; it never fails. */
    function Find(name: string): (r: Option<Record>)
      reads this
      requires Valid()
      ensures r.Some? <==> name in keys
      ensures r.Some? ==> r.value == data[name] && r.value.name == name
    {
      if name in data then Some(data[name]) else None
    }

    /** `delete`: removes `name` and only `name`; an absent name changes nothing. */
    method Delete(name: string)
      requires Valid()
      modifies this
      ensures Valid()
      ensures data == old(data) - {name}
      ensures keys == RemoveFirst(old(keys), name)
      ensures name !in old(data) ==> keys == old(keys) && data == old(data)
    {
      if name in data {
        RemoveFirstDistinct(keys, name);
        keys := RemoveFirst(keys, name);
        data := data - {name};
      } else {
        RemoveFirstAbsent(keys, name);
        assert data - {name} == data;
      }
    }

    /** `self.data.values()`: the records in insertion order. */
    function Records(): (rs: seq<Record>)
      reads this
      requires Valid()
      ensures |rs| == |keys|
      ensures forall i | 0 <= i < |keys| :: rs[i] == data[keys[i]] && rs[i].name == keys[i]
    {
      ValuesInOrder(keys, data)
    }

    /**
     * `get_upcoming_birthdays(days=7)` with the reference date `today` passed in:
     * the reminders of the records in insertion order, as `Upcoming` specifies.
     */
    method UpcomingBirthdays(today: Date, days: int := 7) returns (r: Result<seq<Reminder>, DateError>)
      requires Valid() && ValidDate(today)
      ensures r == Upcoming(EntriesOf(Records()), days, today)
    {
      var records := Records();
      ghost var es := EntriesOf(records);
      var upcoming: seq<Reminder> := [];
      var i := 0;
      while i < |records|
        invariant 0 <= i <= |records|
        invariant Upcoming(es[..i], days, today) == Success(upcoming)
      {
        var step := Congratulate(records[i], days, today);
        assert es[i] == Entry(records[i].name, records[i].birthday);
        if step.Failure? {
          UpcomingFailsAt(es, i, days, today);
          return Failure(step.error);
        }
        UpcomingExtendsAt(es, i, days, today);
        if step.value.Some? {
          upcoming := upcoming + [step.value.value];
        }
        i := i + 1;
      }
      assert es[..i] == es;
      return Success(upcoming);
    }
  }

  /**
   * The body of the scan's loop for one record, statement by statement as
   * the source runs it: skip a record without a readable birthday; move the
   * birthday to this year or the next; keep it if it is at most `days` days
   * ahead, moved off a weekend. It is the imperative twin of the function
   * `Scheduling.Step`, and its contract says the two agree.
   */
  method Congratulate(record: Record, days: int, today: Date) returns (r: Result<Option<Reminder>, DateError>)
    requires ValidDate(today)
    ensures r == Step(Entry(record.name, record.birthday), days, today)
  {
    if record.birthday.None? {
      return Success(None);
    }
    var parsed := ParseDate(record.birthday.value);
    if parsed.None? {
      return Success(None);
    }
    var thisYear := ReplaceYear(parsed.value, today.year);
    if thisYear.Failure? {
      assert NextOccurrence(parsed.value, today) == Failure(thisYear.error);
      return Failure(thisYear.error);
    }
    var birthdayThisYear := thisYear.value;
    if Before(birthdayThisYear, today) {
      var nextYear := ReplaceYear(birthdayThisYear, today.year + 1);
      if nextYear.Failure? {
        assert NextOccurrence(parsed.value, today) == Failure(nextYear.error);
        return Failure(nextYear.error);
      }
      birthdayThisYear := nextYear.value;
    }
    assert NextOccurrence(parsed.value, today) == Success(birthdayThisYear);
    var daysUntil := DayNumber(birthdayThisYear) - DayNumber(today);
    if 0 <= daysUntil <= days {
      CongratulationDayFacts(birthdayThisYear);
      ghost var occurrence := birthdayThisYear;
      if Weekday(birthdayThisYear) >= 5 {
        birthdayThisYear := AddDays(birthdayThisYear, 7 - Weekday(birthdayThisYear));
      }
      assert birthdayThisYear == CongratulationDay(occurrence);
      return Success(Some(Reminder(record.name, Render(birthdayThisYear))));
    }
    return Success(None);
  }
}
