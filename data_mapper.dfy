/** Turning raw payloads into one employee list: decode each payload, append
    the results in order, and optionally attach a contacts-card identifier to
    every employee by matching names against the device's contacts. The JSON
    decoder and the contacts store are parameters. */
module DataMapper {
  import opened Wrappers
  import opened Strings
  import opened EmployeeModel

  /** One raw response body. */
  type Payload = seq<bv8>

  datatype DecodeError = DecodeError(reason: string)
  datatype StoreError = StoreError(reason: string)

  /** What the contacts store returns for a contact: its identifier and family name. */
  datatype Contact = Contact(identifier: string, familyName: string)

  /** Decoding of one payload's `{"employees": [...]}` body. */
  type Decoder = Payload -> Result<seq<Employee>, DecodeError>

  /** The store's "contacts matching this name" query; it may throw. */
  type ContactLookup = string -> Result<seq<Contact>, StoreError>

  /** Blocks appended one after another. */
  function Flatten(blocks: seq<seq<Employee>>): seq<Employee> {
    if blocks == [] then [] else Flatten(blocks[..|blocks| - 1]) + blocks[|blocks| - 1]
  }

  function TotalLength(blocks: seq<seq<Employee>>): nat {
    if blocks == [] then 0 else TotalLength(blocks[..|blocks| - 1]) + |blocks[|blocks| - 1]|
  }

  lemma {:induction false} FlattenLength(blocks: seq<seq<Employee>>)
    ensures |Flatten(blocks)| == TotalLength(blocks)
  {
    if blocks != [] {
      FlattenLength(blocks[..|blocks| - 1]);
    }
  }

  /** Decoding a batch, payload by payload from the first: the first failure
      is the batch's failure. */
  function DecodeAll(decode: Decoder, datas: seq<Payload>): Result<seq<Employee>, DecodeError> {
    if datas == [] then Ok([])
    else
      match DecodeAll(decode, datas[..|datas| - 1])
      case Err(e) => Err(e)
      case Ok(previous) =>
        match decode(datas[|datas| - 1])
        case Err(e) => Err(e)
        case Ok(parsed) => Ok(previous + parsed)
  }

  /** What each payload decodes to, with nothing for a payload that fails. */
  function Decoded(decode: Decoder, datas: seq<Payload>): (blocks: seq<seq<Employee>>)
    ensures |blocks| == |datas|
  {
    seq(|datas|, i requires 0 <= i < |datas| =>
      if decode(datas[i]).Ok? then decode(datas[i]).value else [])
  }

  /** The batch decodes iff every payload does; it is then the in-order
      concatenation of the payloads' lists. Otherwise its error is that of the
      first payload that fails. */
  lemma {:induction false} DecodeAllIsConcatenation(decode: Decoder, datas: seq<Payload>)
    ensures DecodeAll(decode, datas).Ok? <==> forall i :: 0 <= i < |datas| ==> decode(datas[i]).Ok?
    ensures DecodeAll(decode, datas).Ok? ==> DecodeAll(decode, datas).value == Flatten(Decoded(decode, datas))
    ensures DecodeAll(decode, datas).Err? ==>
      exists i :: 0 <= i < |datas| && decode(datas[i]) == Err(DecodeAll(decode, datas).error) &&
        forall j :: 0 <= j < i ==> decode(datas[j]).Ok?
  {
    if datas != [] {
      var n := |datas| - 1;
      var front := datas[..n];
      DecodeAllIsConcatenation(decode, front);
      assert forall i :: 0 <= i < n ==> front[i] == datas[i];
      assert Decoded(decode, datas)[..n] == Decoded(decode, front);
      if DecodeAll(decode, front).Err? {
        var i :| 0 <= i < |front| && decode(front[i]) == Err(DecodeAll(decode, front).error) &&
          forall j :: 0 <= j < i ==> decode(front[j]).Ok?;
        assert decode(datas[i]) == Err(DecodeAll(decode, datas).error);
      } else if decode(datas[n]).Err? {
        assert decode(datas[n]) == Err(DecodeAll(decode, datas).error);
      }
    }
  }

  /** The batch's length is the sum of the payloads' lengths; no payloads
      give the empty list. */
  lemma DecodeAllLength(decode: Decoder, datas: seq<Payload>)
    requires forall i :: 0 <= i < |datas| ==> decode(datas[i]).Ok?
    ensures DecodeAll(decode, datas).Ok?
    ensures |DecodeAll(decode, datas).value| == TotalLength(Decoded(decode, datas))
    ensures datas == [] ==> DecodeAll(decode, datas).value == []
  {
    DecodeAllIsConcatenation(decode, datas);
    FlattenLength(Decoded(decode, datas));
  }

  /** Once a prefix of the batch fails, the whole batch fails with that error. */
  lemma {:induction false} DecodeAllFailedPrefix(decode: Decoder, datas: seq<Payload>, k: nat)
    requires k <= |datas|
    requires DecodeAll(decode, datas[..k]).Err?
    ensures DecodeAll(decode, datas) == DecodeAll(decode, datas[..k])
    decreases |datas| - k
  {
    if k < |datas| {
      assert datas[..k + 1][..k] == datas[..k];
      DecodeAllFailedPrefix(decode, datas, k + 1);
    } else {
      assert datas[..k] == datas;
    }
  }

  /** A contact matches an employee's last name when the lowercased names are
      equal; with no last name nothing matches. */
  predicate Matches(c: Contact, lastName: Option<string>) {
    lastName.Some? && Lowercased(c.familyName) == Lowercased(lastName.value)
  }

  /** The identifier of the first contact, in store order, that matches. */
  function FirstMatch(contacts: seq<Contact>, lastName: Option<string>): (r: Option<string>)
    ensures r.None? <==> forall i :: 0 <= i < |contacts| ==> !Matches(contacts[i], lastName)
    ensures r.Some? ==>
      exists i :: 0 <= i < |contacts| && Matches(contacts[i], lastName) &&
        r.value == contacts[i].identifier &&
        forall j :: 0 <= j < i ==> !Matches(contacts[j], lastName)
  {
    if contacts == [] then None
    else if Matches(contacts[0], lastName) then Some(contacts[0].identifier)
    else
      var r := FirstMatch(contacts[1..], lastName);
      assert forall i :: 0 < i < |contacts| ==> contacts[i] == contacts[1..][i - 1];
      r
  }

  /** `getContactIdentifier`: no first name gives no identifier without a
      query; otherwise the store is queried with the lowercased first name and
      the first contact whose family name matches is taken. A failing query
      is the call's failure. */
  function GetContactIdentifier(e: Employee, lookup: ContactLookup): (r: Result<Option<string>, StoreError>)
    ensures e.firstName.None? ==> r == Ok(None)
    ensures r.Err? <==> e.firstName.Some? && lookup(Lowercased(e.firstName.value)).Err?
    ensures r.Ok? && e.lastName.None? ==> r.value.None?
    ensures r.Ok? && r.value.Some? ==>
      exists c :: c in lookup(Lowercased(e.firstName.value)).value &&
        Matches(c, e.lastName) && c.identifier == r.value.value
    ensures e.firstName.Some? && r.Ok? ==>
      (r.value.None? <==> forall c :: c in lookup(Lowercased(e.firstName.value)).value ==> !Matches(c, e.lastName))
    ensures e.firstName.Some? && r.Ok? ==> r.value == FirstMatch(lookup(Lowercased(e.firstName.value)).value, e.lastName)
  {
    if e.firstName.None? then Ok(None)
    else
      match lookup(Lowercased(e.firstName.value))
      case Err(error) => Err(error)
      case Ok(contacts) => Ok(FirstMatch(contacts, e.lastName))
  }

  /** Every lookup of the list succeeds. */
  predicate AllLookupsSucceed(employees: seq<Employee>, lookup: ContactLookup) {
    forall i :: 0 <= i < |employees| ==> GetContactIdentifier(employees[i], lookup).Ok?
  }

  /** The enriched list: every identifier overwritten when all lookups
      succeed, the list untouched otherwise. */
  function Enriched(employees: seq<Employee>, lookup: ContactLookup): seq<Employee> {
    if AllLookupsSucceed(employees, lookup) then
      seq(|employees|, i requires 0 <= i < |employees| =>
        employees[i].(contactsCardIdentifier := GetContactIdentifier(employees[i], lookup).value))
    else employees
  }

  /** `fillEmployeesListWithContactsIdentifiers`: a copy of the list is
      updated element by element; a failing lookup abandons the copy. */
  method FillContactIdentifiers(employees: seq<Employee>, lookup: ContactLookup) returns (r: seq<Employee>)
    ensures r == Enriched(employees, lookup)
  {
    var mutated := employees;
    for i := 0 to |employees|
      invariant |mutated| == |employees|
      invariant forall j :: 0 <= j < i ==> GetContactIdentifier(employees[j], lookup).Ok?
      invariant forall j :: 0 <= j < i ==>
        mutated[j] == employees[j].(contactsCardIdentifier := GetContactIdentifier(employees[j], lookup).value)
      invariant mutated[i..] == employees[i..]
    {
      var identifier := GetContactIdentifier(employees[i], lookup);
      if identifier.Err? {
        return employees;
      }
      mutated := mutated[i := mutated[i].(contactsCardIdentifier := identifier.value)];
    }
    return mutated;
  }

  /** Enrichment keeps length, order and every field but the identifier. */
  lemma EnrichedChangesOnlyIdentifiers(employees: seq<Employee>, lookup: ContactLookup)
    ensures |Enriched(employees, lookup)| == |employees|
    ensures forall i :: 0 <= i < |employees| ==>
      Enriched(employees, lookup)[i].(contactsCardIdentifier := employees[i].contactsCardIdentifier) == employees[i]
  {
  }

  /** When every lookup succeeds, every identifier is overwritten, with
      nothing where no contact matches. */
  lemma EnrichedOverwritesAll(employees: seq<Employee>, lookup: ContactLookup, i: nat)
    requires AllLookupsSucceed(employees, lookup)
    requires i < |employees|
    ensures Enriched(employees, lookup)[i].contactsCardIdentifier ==
      if employees[i].firstName.None? then None
      else FirstMatch(lookup(Lowercased(employees[i].firstName.value)).value, employees[i].lastName)
  {
  }

  /** One failing lookup leaves the whole list as it was. */
  lemma EnrichedAllOrNothing(employees: seq<Employee>, lookup: ContactLookup, i: nat)
    requires i < |employees|
    requires GetContactIdentifier(employees[i], lookup).Err?
    ensures Enriched(employees, lookup) == employees
  {
  }

  /** `parse(datas:usingContacts:)`: the completion gets either an error and
      no list, or no error and the decoded (and, with a store, enriched) list. */
  method Parse(datas: seq<Payload>, decode: Decoder, contacts: Option<ContactLookup>)
    returns (r: Result<seq<Employee>, DecodeError>)
    ensures r.Err? <==> DecodeAll(decode, datas).Err?
    ensures r.Err? ==> r.error == DecodeAll(decode, datas).error
    ensures r.Ok? && contacts.None? ==> r.value == DecodeAll(decode, datas).value
    ensures r.Ok? && contacts.Some? ==> r.value == Enriched(DecodeAll(decode, datas).value, contacts.value)
  {
    var employees: seq<Employee> := [];
    for i := 0 to |datas|
      invariant DecodeAll(decode, datas[..i]) == Ok(employees)
    {
      var parsed := decode(datas[i]);
      if parsed.Err? {
        assert datas[..i + 1][..i] == datas[..i];
        DecodeAllFailedPrefix(decode, datas, i + 1);
        return Err(parsed.error);
      }
      assert datas[..i + 1][..i] == datas[..i];
      employees := employees + parsed.value;
    }
    assert datas[..|datas|] == datas;
    if contacts.Some? {
      var enriched := FillContactIdentifiers(employees, contacts.value);
      r := Ok(enriched);
    } else {
      r := Ok(employees);
    }
  }
}
