/**
 * A contact record: one name, an ordered list of distinct phone numbers and
 * an optional birthday. The record changes its phone list and its birthday
 * in place, as the source's `Record` does with `self.phones` and
 * `self.birthday`.
 */
module Records {
  import opened Wrappers
  import opened Fields
  import opened Lists

  // ---------------------------------------------------------------------
  // The phone list as a value

  /** `add_phone` on the list: append the number unless an equal one is already there. */
  function WithPhone(ps: seq<string>, p: string): seq<string> {
    if p in ps then ps else ps + [p]
  }

  /** Adding keeps every earlier entry in place and leaves the number in the list exactly once. */
  lemma WithPhoneSpec(ps: seq<string>, p: string)
    requires Distinct(ps)
    ensures var r := WithPhone(ps, p);
      && Distinct(r)
      && p in r
      && r[..|ps|] == ps
      && (p in ps ==> r == ps)
      && (p !in ps ==> |r| == |ps| + 1 && r[|ps|] == p)
  {
  }

  /** Adding the same number twice is the same as adding it once. */
  lemma WithPhoneIdempotent(ps: seq<string>, p: string)
    ensures WithPhone(WithPhone(ps, p), p) == WithPhone(ps, p)
  {
  }

  /** `add_phone` as written: `phone not in self.phones` compares fresh `Phone` objects by identity, so it always appends. */
  function WithPhoneAsWritten(ps: seq<string>, p: string): seq<string> {
    ps + [p]
  }

  /** As written, adding a number that is already stored stores it a second time, unlike `WithPhone`. */
  lemma DuplicatesAsWritten(ps: seq<string>, p: string)
    requires p in ps
    ensures !Distinct(WithPhoneAsWritten(ps, p))
    ensures WithPhoneAsWritten(ps, p) != WithPhone(ps, p)
  {
    var r := WithPhoneAsWritten(ps, p);
    var i :| 0 <= i < |ps| && ps[i] == p;
    assert r[i] == r[|ps|];
    assert |r| != |ps|;
  }

  /** As written, adding one number twice stores it twice. */
  lemma DuplicateAsWritten()
    ensures var ps := WithPhoneAsWritten(WithPhoneAsWritten([], "0501234567"), "0501234567");
      ps == ["0501234567", "0501234567"] && !Distinct(ps)
  {
    var ps := WithPhoneAsWritten(WithPhoneAsWritten([], "0501234567"), "0501234567");
    assert ps[0] == ps[1];
  }

  /**
   * `remove_phone` as written: when the number is absent `find_phone` gives
   * `None` and `p.value` raises `AttributeError`, so `False` is never returned.
   */
  function RemovePhoneAsWritten(ps: seq<string>, raw: string): (r: Result<(bool, seq<string>), string>)
  {
    if raw in ps then Success((true, RemoveFirst(ps, raw))) else Failure("AttributeError")
  }

  /** As written, removing an absent number raises instead of reporting `False`. */
  lemma RemoveAbsentAsWritten(ps: seq<string>, raw: string)
    requires raw !in ps
    ensures RemovePhoneAsWritten(ps, raw).Failure?
    ensures forall q :: RemovePhoneAsWritten(ps, q) != Success((false, ps))
  {
  }

  // ---------------------------------------------------------------------
  // Rendering (`__str__`)

  /** `'; '.join(phones)`. */
  function JoinPhones(ps: seq<string>): string {
    if ps == [] then ""
    else if |ps| == 1 then ps[0]
    else ps[0] + "; " + JoinPhones(ps[1..])
  }

  /** The position of the first `c` in `s`. */
  function IndexOf(s: string, c: char): (i: nat)
    requires c in s
    ensures i < |s| && s[i] == c && c !in s[..i]
  {
    if s[0] == c then 0 else 1 + IndexOf(s[1..], c)
  }

  /** Cuts a `'; '`-joined list back into its pieces. */
  function SplitPhones(s: string): seq<string>
    decreases |s|
  {
    if s == "" then []
    else if ';' !in s then [s]
    else
      var i := IndexOf(s, ';');
      [s[..i]] + SplitPhones(if i + 2 <= |s| then s[i + 2..] else "")
  }

  /** The phone list printed by `__str__` reads back as the same list. */
  lemma {:induction false} SplitJoinPhones(ps: seq<string>)
    requires forall p | p in ps :: ValidPhone(p)
    ensures SplitPhones(JoinPhones(ps)) == ps
  {
    if |ps| == 1 {
      assert ValidPhone(ps[0]);
    } else if |ps| > 1 {
      var p, rest := ps[0], JoinPhones(ps[1..]);
      var s := p + "; " + rest;
      assert ValidPhone(p);
      assert s[|p|] == ';' && s[..|p|] == p;
      assert IndexOf(s, ';') == |p|;
      assert s[|p| + 2..] == rest;
      SplitJoinPhones(ps[1..]);
    }
  }

  // ---------------------------------------------------------------------
  // The record

  class Record {
    const name: string
    var phones: seq<string>
    var birthday: Option<string>

    /** The record's invariant: every stored field passed its validator, and no phone is stored twice. */
    ghost predicate Valid()
      reads this
    {
      && ValidName(name)
      && Distinct(phones)
      && (forall p | p in phones :: ValidPhone(p))
      && (birthday.Some? ==> ValidBirthday(birthday.value))
    }

    constructor (name: string)
      requires ValidName(name)
      ensures Valid()
      ensures this.name == name && phones == [] && birthday == None
    {
      this.name := name;
      phones := [];
      birthday := None;
    }

    /** `Record(name)`: fails with `InvalidName` on the empty string. */
    static method Create(name: string) returns (r: Result<Record, ContactError>)
      ensures r.Failure? <==> name == ""
      ensures r.Failure? ==> r.error == InvalidName
      ensures r.Success? ==> fresh(r.value) && r.value.Valid()
      ensures r.Success? ==> r.value.name == name && r.value.phones == [] && r.value.birthday == None
    {
      var n := MakeName(name);
      if n.Failure? {
        return Failure(n.error);
      }
      var rec := new Record(n.value);
      return Success(rec);
    }

    /** `add_phone`: validates, then appends unless the number is already stored. */
    method AddPhone(raw: string) returns (r: Outcome<ContactError>)
      requires Valid()
      modifies this`phones
      ensures Valid()
      ensures r == if ValidPhone(raw) then Pass else Fail(InvalidPhone)
      ensures phones == if ValidPhone(raw) then WithPhone(old(phones), raw) else old(phones)
    {
      var p := MakePhone(raw);
      if p.Failure? {
        return Fail(p.error);
      }
      WithPhoneSpec(phones, p.value);
      if p.value !in phones {
        phones := phones + [p.value];
      }
      return Pass;
    }

    /** `add_birthday`: validates, then replaces any earlier birthday. */
    method AddBirthday(raw: string) returns (r: Outcome<ContactError>)
      requires Valid()
      modifies this`birthday
      ensures Valid()
      ensures r == if ValidBirthday(raw) then Pass else Fail(InvalidDate)
      ensures birthday == if ValidBirthday(raw) then Some(raw) else old(birthday)
    {
      var b := MakeBirthday(raw);
      if b.Failure? {
        return Fail(b.error);
      }
      birthday := Some(b.value);
      return Pass;
    }

    /** `find_phone`: scans the list for an entry equal to `raw`. */
    method FindPhone(raw: string) returns (r: Option<string>)
      ensures r.Some? <==> raw in phones
      ensures r.Some? ==> r.value == raw
    {
      var i := 0;
      while i < |phones|
        invariant 0 <= i <= |phones|
        invariant raw !in phones[..i]
      {
        if phones[i] == raw {
          return Some(phones[i]);
        }
        i := i + 1;
      }
      assert phones[..i] == phones;
      return None;
    }

    /** `remove_phone`, with an absent number reported as `false` rather than raising. */
    method RemovePhone(raw: string) returns (removed: bool)
      requires Valid()
      modifies this`phones
      ensures Valid()
      ensures removed <==> raw in old(phones)
      ensures phones == RemoveFirst(old(phones), raw)
      ensures !removed ==> phones == old(phones)
      ensures raw !in phones
    {
      var p := FindPhone(raw);
      if p.None? {
        RemoveFirstAbsent(phones, raw);
        return false;
      }
      RemoveFirstDistinct(phones, p.value);
      phones := RemoveFirst(phones, p.value);
      return true;
    }

    /**
     * `edit_phone`: fails with `PhoneNotFound` when the old number is absent;
     * otherwise removes it and then adds the new one, which may still fail
     * validation after the removal.
     */
    method EditPhone(oldRaw: string, newRaw: string) returns (r: Outcome<ContactError>)
      requires Valid()
      modifies this`phones
      ensures Valid()
      ensures oldRaw !in old(phones) ==> r == Fail(PhoneNotFound) && phones == old(phones)
      ensures oldRaw in old(phones) ==> r == if ValidPhone(newRaw) then Pass else Fail(InvalidPhone)
      ensures oldRaw in old(phones) ==>
        phones == if ValidPhone(newRaw) then WithPhone(RemoveFirst(old(phones), oldRaw), newRaw)
                  else RemoveFirst(old(phones), oldRaw)
    {
      var p := FindPhone(oldRaw);
      if p.None? {
        return Fail(PhoneNotFound);
      }
      RemoveFirstDistinct(phones, p.value);
      phones := RemoveFirst(phones, p.value);
      r := AddPhone(newRaw);
    }

    /** `__str__`: name, the phones joined by `'; '`, and the birthday or `Not set`. */
    function Describe(): string
      reads this
    {
      "Contact name: " + name + ", phones: " + JoinPhones(phones) + ", birthday: "
        + (if birthday.Some? then birthday.value else "Not set")
    }
  }
}
