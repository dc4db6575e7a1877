/** The address book: a dictionary from a contact's raw name to its record,
    with add-or-overwrite, lookup, delete and the upcoming-birthdays query.
    Python dictionaries iterate in insertion order (overwriting a key keeps
    its place, deleting and re-adding moves it to the end), so the model keeps
    that order beside the map. */
module Ledger {
  import opened Outcomes
  import opened Calendar
  import opened Scheduling
  import opened Records

  /** A key list without repetitions. */
  predicate Distinct(keys: seq<string>)
  {
    forall i, j :: 0 <= i < j < |keys| ==> keys[i] != keys[j]
  }

  /** In a key list without repetitions, deleting the first copy of `key`
      (as `WithoutFirst` does, keeping the others in their order) leaves
      exactly the other keys, still without repetitions, and changes
      nothing when `key` is absent. */
  lemma WithoutFirstOfDistinct(keys: seq<string>, key: string)
    requires Distinct(keys)
    ensures forall x :: x in WithoutFirst(keys, key) <==> x in keys && x != key
    ensures Distinct(WithoutFirst(keys, key))
    ensures key !in keys ==> WithoutFirst(keys, key) == keys
  {
    match FirstIndex(keys, key)
    case None =>
    case Some(i) =>
      DropIndexMembers(keys, i);
      DropIndexDistinct(keys, i);
  }

  lemma DropIndexMembers(keys: seq<string>, i: nat)
    requires Distinct(keys) && i < |keys|
    ensures forall x :: x in keys[..i] + keys[i + 1..] <==> x in keys && x != keys[i]
  {
    var r := keys[..i] + keys[i + 1..];
    forall x | x in r
      ensures x in keys && x != keys[i]
    {
      var j :| 0 <= j < |r| && r[j] == x;
      if j < i {
        assert r[j] == keys[j];
      } else {
        assert r[j] == keys[j + 1];
      }
    }
    forall x | x in keys && x != keys[i]
      ensures x in r
    {
      var m :| 0 <= m < |keys| && keys[m] == x;
      if m < i {
        assert r[m] == x;
      } else {
        assert r[m - 1] == x;
      }
    }
  }

  lemma DropIndexDistinct(keys: seq<string>, i: nat)
    requires Distinct(keys) && i < |keys|
    ensures Distinct(keys[..i] + keys[i + 1..])
  {
    var r := keys[..i] + keys[i + 1..];
    forall a, b | 0 <= a < b < |r|
      ensures r[a] != r[b]
    {
      var a', b' := if a < i then a else a + 1, if b < i then b else b + 1;
      assert r[a] == keys[a'] && r[b] == keys[b'] && a' < b';
    }
  }

  /** What the query reads from each record, in the order of `keys`. */
  function ContactsOf(keys: seq<string>, data: map<string, Record>): (cs: seq<Contact>)
    reads data.Values
    requires forall i :: 0 <= i < |keys| ==> keys[i] in data
    ensures |cs| == |keys|
    ensures forall i :: 0 <= i < |keys| ==> cs[i] == Contact(data[keys[i]].name, data[keys[i]].birthday)
  {
    if keys == [] then []
    else ContactsOf(keys[..|keys| - 1], data) + [Contact(data[keys[|keys| - 1]].name, data[keys[|keys| - 1]].birthday)]
  }

  class AddressBook {
    var data: map<string, Record>
    /** The keys of `data` in the order the dictionary iterates them. */
    var order: seq<string>

    /** Every key is its record's own name and every record is valid; `order`
        lists each key exactly once. */
    ghost predicate Valid()
      reads this, data.Values
    {
      && (forall k :: k in data ==> data[k].name == k && data[k].Valid())
      && (forall i :: 0 <= i < |order| ==> order[i] in data)
      && (forall k :: k in data ==> k in order)
      && Distinct(order)
    }

    constructor ()
      ensures Valid() && data == map[] && order == []
    {
      data := map[];
      order := [];
    }

    /** The records as the query sees them, in iteration order. */
    function Contacts(): (cs: seq<Contact>)
      reads this, data.Values
      requires Valid()
      ensures ValidContacts(cs)
    {
      ContactsOf(order, data)
    }

    /** Stores `record` under its raw name, replacing any record already there. */
    method AddRecord(record: Record)
      requires Valid() && record.Valid()
      modifies this
      ensures Valid()
      ensures data == old(data)[record.name := record]
      ensures order == if record.name in old(data) then old(order) else old(order) + [record.name]
    {
      if record.name !in data {
        order := order + [record.name];
      }
      data := data[record.name := record];
    }

    /** The record stored under exactly `name`, or None. */
    method Find(name: string) returns (found: Option<Record>)
      requires Valid()
      ensures found.Some? <==> name in data
      ensures found.Some? ==> found.value == data[name] && found.value.name == name
    {
      if name in data {
        found := Some(data[name]);
      } else {
        found := None;
      }
    }

    /** The record stored under `name`, or a new empty record stored under it
        when there is none (`find`, then `Record(name)` and `add_record`). */
    method FindOrAdd(name: string) returns (record: Record, created: bool)
      requires Valid()
      modifies this
      ensures Valid()
      ensures created <==> name !in old(data)
      ensures name in data && data[name] == record
      ensures created ==> && fresh(record) && record.phones == [] && record.birthday == None
                          && data == old(data)[name := record] && order == old(order) + [name]
      ensures !created ==> data == old(data) && order == old(order)
    {
      var found := Find(name);
      if found.None? {
        record := new Record(name);
        AddRecord(record);
        created := true;
      } else {
        record := found.value;
        created := false;
      }
    }

    /** Removes exactly the key `name`; a missing key raises KeyError and changes nothing. */
    method Delete(name: string) returns (r: Outcome)
      requires Valid()
      modifies this
      ensures Valid()
      ensures r == if name in old(data) then Pass else Fail(ContactNotFound)
      ensures data == old(data) - {name}
      ensures order == WithoutFirst(old(order), name)
    {
      WithoutFirstOfDistinct(order, name);
      if name !in data {
        return Fail(ContactNotFound);
      }
      data := data - {name};
      order := WithoutFirst(order, name);
      forall i | 0 <= i < |order|
        ensures order[i] in data
      {
        assert order[i] in order;
      }
      r := Pass;
    }

    /** `get_upcoming_birthdays` with `today` passed in: walks the records in
        iteration order, collecting the entry of each record in the window,
        and stops at the first record whose date arithmetic raises. */
    method GetUpcomingBirthdays(today: Date) returns (r: Result<seq<Entry>>)
      requires Valid() && ValidDate(today)
      ensures r == Schedule(Contacts(), today)
    {
      ghost var cs := Contacts();
      var upcoming: seq<Entry> := [];
      var i := 0;
      while i < |order|
        invariant 0 <= i <= |order| == |cs|
        invariant Schedule(cs[..i], today) == Ok(upcoming)
      {
        var record := data[order[i]];
        var contact := Contact(record.name, record.birthday);
        assert contact == cs[i];
        ScheduleAdvance(cs, i, today, upcoming);
        match UpcomingFor(contact, today) {
          case Err(e) =>
            return Err(e);
          case Ok(None) =>
          case Ok(Some(entry)) =>
            upcoming := upcoming + [entry];
        }
        i := i + 1;
      }
      assert cs[..i] == cs;
      r := Ok(upcoming);
    }
  }
}
