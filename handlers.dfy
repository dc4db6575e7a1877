/** The command handlers that change the ledger: `add`, `change` and
    `add-birthday`. Each fetches the record by its raw name first and then
    mutates that same record, so re-adding a name never drops earlier phones.
    What the handlers return for the user is `Ok(text)`; what they raise is
    `Err(kind)`. */
module Handlers {
  import opened Outcomes
  import opened Fields
  import opened Records
  import opened Ledger

  /** `add <name> <phone>`: creates the contact when the name is new (and
      keeps it even when the phone is then rejected), and appends the phone
      to the record found or created. */
  method AddContact(args: seq<string>, book: AddressBook) returns (r: Result<string>)
    requires book.Valid()
    modifies book, book.data.Values
    ensures book.Valid()
    ensures |args| < 2 ==>
      && r == Err(MissingArguments)
      && book.data == old(book.data) && book.order == old(book.order)
    ensures |args| >= 2 && args[0] in old(book.data) ==>
      && book.data == old(book.data) && book.order == old(book.order)
      && book.data[args[0]].birthday == old(book.data[args[0]].birthday)
    ensures |args| >= 2 && args[0] !in old(book.data) ==>
      && args[0] in book.data && fresh(book.data[args[0]])
      && book.data == old(book.data)[args[0] := book.data[args[0]]]
      && book.order == old(book.order) + [args[0]]
      && book.data[args[0]].birthday == None
    ensures |args| >= 2 ==>
      var accepted := args[1] != "" && ParsePhone(args[1]).Ok?;
      book.data[args[0]].phones
        == (if args[0] in old(book.data) then old(book.data[args[0]].phones) else [])
           + (if accepted then [ParsePhone(args[1]).value] else [])
    ensures |args| >= 2 ==>
      r == if args[1] != "" && ParsePhone(args[1]).Err? then Err(InvalidPhone)
           else if args[0] in old(book.data) then Ok("Contact updated.")
           else Ok("Contact added.")
    ensures forall k :: k in old(book.data) && (|args| < 2 || k != args[0]) ==>
      k in book.data && book.data[k] == old(book.data[k]) && unchanged(book.data[k])
  {
    if |args| < 2 {
      return Err(MissingArguments);
    }
    var name, phone := args[0], args[1];
    var record, created := book.FindOrAdd(name);
    assert forall k :: k in book.data && k != name ==> book.data[k] != record;
    var message := if created then "Contact added." else "Contact updated.";
    r := Ok(message);
    if phone != "" {
      var added := record.AddPhone(phone);
      if added.Fail? {
        r := Err(added.error);
      }
    }
  }

  /** `change <name> <old phone> <new phone>`: checks that the contact and
      the old phone exist before editing; the record and the ledger's keys
      stay the same, and only the first copy of the old phone is replaced. */
  method ChangeContact(args: seq<string>, book: AddressBook) returns (r: Result<string>)
    requires book.Valid()
    modifies book.data.Values
    ensures book.Valid()
    ensures |args| < 3 ==> r == Ok("Please provide name, old phone, and new phone.")
    ensures |args| >= 3 && args[0] !in book.data ==> r == Ok("Contact not found.")
    ensures |args| >= 3 && args[0] in book.data ==>
      var name, oldPhone, newPhone := args[0], args[1], args[2];
      var before := old(book.data[name].phones);
      match FirstIndex(before, oldPhone)
      case None =>
        && r == Ok("Phone " + oldPhone + " not found for contact " + name + ".")
        && book.data[name].phones == before
      case Some(i) =>
        match ParsePhone(newPhone)
        case Ok(p) => r == Ok("Phone number updated.") && book.data[name].phones == before[i := p]
        case Err(e) => r == Err(e) && book.data[name].phones == before
    ensures forall k :: k in old(book.data) ==>
      && book.data[k].birthday == old(book.data[k].birthday)
      && (|args| < 3 || k != args[0] ==> book.data[k].phones == old(book.data[k].phones))
  {
    if |args| < 3 {
      return Ok("Please provide name, old phone, and new phone.");
    }
    var name, oldPhone, newPhone := args[0], args[1], args[2];
    var found := book.Find(name);
    if found.None? {
      return Ok("Contact not found.");
    }
    var record := found.value;
    var existing := record.FindPhone(oldPhone);
    if existing.None? {
      return Ok("Phone " + oldPhone + " not found for contact " + name + ".");
    }
    var edited := record.EditPhone(oldPhone, newPhone);
    if edited.Fail? {
      return Err(edited.error);
    }
    r := Ok("Phone number updated.");
  }

  /** `add-birthday <name> <DD.MM.YYYY>`: sets or overwrites the birthday of
      an existing contact; invalid text raises and nothing changes. */
  method AddBirthday(args: seq<string>, book: AddressBook) returns (r: Result<string>)
    requires book.Valid()
    modifies book.data.Values
    ensures book.Valid()
    ensures |args| < 2 ==> r == Ok("Please provide name and birthday (DD.MM.YYYY).")
    ensures |args| >= 2 && args[0] !in book.data ==> r == Ok("Contact not found.")
    ensures |args| >= 2 && args[0] in book.data ==>
      var name := args[0];
      match ParseBirthday(args[1])
      case Ok(d) => r == Ok("Birthday added for " + name + ".") && book.data[name].birthday == Some(d)
      case Err(e) => r == Err(e) && book.data[name].birthday == old(book.data[name].birthday)
    ensures forall k :: k in old(book.data) ==>
      && book.data[k].phones == old(book.data[k].phones)
      && (|args| < 2 || k != args[0] ==> book.data[k].birthday == old(book.data[k].birthday))
  {
    if |args| < 2 {
      return Ok("Please provide name and birthday (DD.MM.YYYY).");
    }
    var name, text := args[0], args[1];
    var found := book.Find(name);
    if found.None? {
      return Ok("Contact not found.");
    }
    var record := found.value;
    var added := record.AddBirthday(text);
    if added.Fail? {
      return Err(added.error);
    }
    r := Ok("Birthday added for " + name + ".");
  }
}
