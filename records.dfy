/** One contact: a name fixed at creation, an ordered list of validated phone
    numbers that the operations update in place, and an optional birthday. */
module Records {
  import opened Outcomes
  import opened Calendar
  import opened Fields

  /** Position of the first element of `s` equal to `v`, the index the
      `for i, p in enumerate(self.phones)` loops stop at. */
  function FirstIndex(s: seq<string>, v: string): (r: Option<nat>)
    ensures r.None? <==> v !in s
    ensures r.Some? ==> r.value < |s| && s[r.value] == v
    ensures r.Some? ==> forall k :: 0 <= k < r.value ==> s[k] != v
  {
    if s == [] then None
    else if s[0] == v then Some(0)
    else
      match FirstIndex(s[1..], v)
      case None => None
      case Some(i) => Some(i + 1)
  }

  /** `s` with its first element equal to `v` deleted, as `del self.phones[i]` leaves it. */
  function WithoutFirst(s: seq<string>, v: string): seq<string>
  {
    match FirstIndex(s, v)
    case None => s
    case Some(i) => s[..i] + s[i + 1..]
  }

  /** Deleting the first match removes exactly one copy of `v` when there is
      one and nothing otherwise; the rest keep their relative order. */
  lemma WithoutFirstRemovesOneCopy(s: seq<string>, v: string)
    ensures |WithoutFirst(s, v)| == if v in s then |s| - 1 else |s|
    ensures multiset(WithoutFirst(s, v)) == multiset(s) - multiset{v}
    ensures FirstIndex(s, v).Some? ==>
      var i := FirstIndex(s, v).value; WithoutFirst(s, v) == s[..i] + s[i + 1..]
  {
    WithoutFirstCount(s, v);
  }

  /** The counting half of `WithoutFirstRemovesOneCopy`. */
  lemma WithoutFirstCount(s: seq<string>, v: string)
    ensures |WithoutFirst(s, v)| == if v in s then |s| - 1 else |s|
    ensures multiset(WithoutFirst(s, v)) == multiset(s) - multiset{v}
  {
    match FirstIndex(s, v)
    case None =>
      assert multiset(s)[v] == 0;
    case Some(i) =>
      assert s == s[..i] + [s[i]] + s[i + 1..];
  }

  /** The phone list joined with "; ", as `'; '.join(p.value for p in self.phones)`. */
  function JoinPhones(phones: seq<string>): (joined: string)
    ensures (forall k :: 0 <= k < |phones| ==> IsPhoneNumber(phones[k])) && phones != []
            ==> |joined| == 12 * |phones| - 2
  {
    if phones == [] then ""
    else if |phones| == 1 then phones[0]
    else phones[0] + "; " + JoinPhones(phones[1..])
  }

  /** Phone numbers are ten characters long, so the joined text holds the
      i-th number at offset 12 * i: the rendering lists every phone, in order. */
  lemma {:induction false} JoinedPhoneAt(phones: seq<string>, i: nat)
    requires forall k :: 0 <= k < |phones| ==> IsPhoneNumber(phones[k])
    requires i < |phones|
    ensures |JoinPhones(phones)| == 12 * |phones| - 2
    ensures JoinPhones(phones)[12 * i .. 12 * i + 10] == phones[i]
  {
    if |phones| > 1 {
      var rest := phones[1..];
      JoinedPhoneAt(rest, if i == 0 then 0 else i - 1);
      var joined := JoinPhones(phones);
      assert joined == phones[0] + "; " + JoinPhones(rest);
      if i > 0 {
        assert joined[12 * i .. 12 * i + 10] == JoinPhones(rest)[12 * (i - 1) .. 12 * (i - 1) + 10];
      } else {
        assert joined[..10] == phones[0];
      }
    } else {
      assert JoinPhones(phones) == phones[0];
    }
  }

  /** As `Record.__str__`. */
  function Render(name: string, phones: seq<string>, birthday: Option<Date>): string
    requires birthday.Some? ==> ValidDate(birthday.value)
  {
    var birthdayText := if birthday.Some? then ", birthday: " + FormatDate(birthday.value) else "";
    "Contact name: " + name + ", phones: " + JoinPhones(phones) + birthdayText
  }

  /** The layout of the rendered line for any record, with or without
      phones: the raw name first, then the joined phones (empty when there
      are none), then the formatted birthday exactly when there is one. */
  lemma RenderLayout(name: string, phones: seq<string>, birthday: Option<Date>)
    requires birthday.Some? ==> ValidDate(birthday.value)
    requires forall k :: 0 <= k < |phones| ==> IsPhoneNumber(phones[k])
    ensures var line, start := Render(name, phones, birthday), |name| + 24;
      var n := if phones == [] then 0 else 12 * |phones| - 2;
      && |JoinPhones(phones)| == n
      && line[..start] == "Contact name: " + name + ", phones: "
      && line[start..start + n] == JoinPhones(phones)
      && (birthday.Some? ==> line[start + n..] == ", birthday: " + FormatDate(birthday.value))
      && (birthday.None? ==> |line| == start + n)
  {
    var head := "Contact name: " + name + ", phones: ";
    var joined := JoinPhones(phones);
    var line := Render(name, phones, birthday);
    var tail := if birthday.Some? then ", birthday: " + FormatDate(birthday.value) else "";
    assert |head| == |name| + 24 && line == head + joined + tail;
    ThreePartText(head, joined, tail, 0, |joined|);
    assert joined[0..|joined|] == joined;
  }

  /** The i-th phone sits at a fixed offset of the rendered line, so the
      line lists every phone, in order. */
  lemma RenderPhoneAt(name: string, phones: seq<string>, birthday: Option<Date>, i: nat)
    requires birthday.Some? ==> ValidDate(birthday.value)
    requires forall k :: 0 <= k < |phones| ==> IsPhoneNumber(phones[k])
    requires i < |phones|
    ensures var start := |name| + 24;
      Render(name, phones, birthday)[start + 12 * i .. start + 12 * i + 10] == phones[i]
  {
    JoinedPhoneAt(phones, i);
    var head := "Contact name: " + name + ", phones: ";
    var joined := JoinPhones(phones);
    var tail := if birthday.Some? then ", birthday: " + FormatDate(birthday.value) else "";
    assert |head| == |name| + 24 && Render(name, phones, birthday) == head + joined + tail;
    ThreePartText(head, joined, tail, 12 * i, 12 * i + 10);
  }

  /** Where the parts of `head + mid + tail` sit in the whole. */
  lemma ThreePartText(head: string, mid: string, tail: string, a: nat, b: nat)
    requires a <= b <= |mid|
    ensures var line := head + mid + tail;
      && line[..|head|] == head
      && line[|head| + a .. |head| + b] == mid[a..b]
      && line[|head| + |mid|..] == tail
  {
    var line := head + mid + tail;
    assert forall k :: 0 <= k < |mid| ==> line[|head| + k] == mid[k];
  }

  class Record {
    const name: string
    var phones: seq<string>
    var birthday: Option<Date>

    /** Every stored phone passed `Phone` validation and the birthday, if
        any, is a real date. */
    ghost predicate Valid()
      reads this
    {
      && (forall k :: 0 <= k < |phones| ==> IsPhoneNumber(phones[k]))
      && (birthday.Some? ==> ValidDate(birthday.value))
    }

    constructor (name: string)
      ensures Valid()
      ensures this.name == name && phones == [] && birthday == None
    {
      this.name := name;
      phones := [];
      birthday := None;
    }

    /** Validates `raw` and appends it; an invalid number raises before anything changes. */
    method AddPhone(raw: string) returns (r: Outcome)
      requires Valid()
      modifies this`phones
      ensures Valid()
      ensures match ParsePhone(raw)
        case Ok(p) => r == Pass && phones == old(phones) + [p]
        case Err(e) => r == Fail(e) && phones == old(phones)
    {
      match ParsePhone(raw)
      case Err(e) =>
        r := Fail(e);
      case Ok(p) =>
        phones := phones + [p];
        r := Pass;
    }

    /** Replaces the first phone equal to `oldPhone` by the validated
        `newPhone`. Without a match it does nothing, and `newPhone` is then not
        even validated; with a match an invalid `newPhone` raises and nothing changes. */
    method EditPhone(oldPhone: string, newPhone: string) returns (r: Outcome)
      requires Valid()
      modifies this`phones
      ensures Valid()
      ensures match FirstIndex(old(phones), oldPhone)
        case None => r == Pass && phones == old(phones)
        case Some(i) =>
          match ParsePhone(newPhone)
          case Err(e) => r == Fail(e) && phones == old(phones)
          case Ok(p) => r == Pass && phones == old(phones)[i := p]
    {
      var i := 0;
      while i < |phones|
        invariant 0 <= i <= |phones|
        invariant forall k :: 0 <= k < i ==> phones[k] != oldPhone
      {
        if phones[i] == oldPhone {
          match ParsePhone(newPhone)
          case Err(e) =>
            return Fail(e);
          case Ok(p) =>
            phones := phones[i := p];
            return Pass;
        }
        i := i + 1;
      }
      r := Pass;
    }

    /** The first phone equal to `v`, or None when there is none. */
    method FindPhone(v: string) returns (found: Option<string>)
      ensures found.Some? <==> v in phones
      ensures found.Some? ==> found.value == v
    {
      var i := 0;
      while i < |phones|
        invariant 0 <= i <= |phones|
        invariant v !in phones[..i]
      {
        if phones[i] == v {
          return Some(phones[i]);
        }
        i := i + 1;
      }
      assert phones[..i] == phones;
      found := None;
    }

    /** Deletes the first phone equal to `v` and reports whether there was one. */
    method RemovePhone(v: string) returns (removed: bool)
      requires Valid()
      modifies this`phones
      ensures Valid()
      ensures removed <==> v in old(phones)
      ensures phones == WithoutFirst(old(phones), v)
    {
      var i := 0;
      while i < |phones|
        invariant 0 <= i <= |phones|
        invariant forall k :: 0 <= k < i ==> phones[k] != v
      {
        if phones[i] == v {
          phones := phones[..i] + phones[i + 1..];
          return true;
        }
        i := i + 1;
      }
      removed := false;
    }

    /** Validates `raw` and sets (or overwrites) the birthday; invalid text raises and nothing changes. */
    method AddBirthday(raw: string) returns (r: Outcome)
      requires Valid()
      modifies this`birthday
      ensures Valid()
      ensures match ParseBirthday(raw)
        case Ok(d) => r == Pass && birthday == Some(d)
        case Err(e) => r == Fail(e) && birthday == old(birthday)
    {
      match ParseBirthday(raw)
      case Err(e) =>
        r := Fail(e);
      case Ok(d) =>
        birthday := Some(d);
        r := Pass;
    }

    /** The display line `__str__` builds. */
    function ToString(): string
      reads this
      requires Valid()
    {
      Render(name, phones, birthday)
    }
  }
}
