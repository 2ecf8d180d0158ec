/**
 * `src/utils/csvConverter.ts`: conversion between a CSV row and a contact. Importing a row
 * looks the contact up by id and the group up by exact name; a missing, non-blank group name
 * is handed to the injected `addGroup` callback, whose returned group supplies the id.
 */
module CsvConverter {
  import opened Common
  import opened Seqs
  import opened Text
  import opened Types

  /**
   * What `csvToContact` produced: the contact, and the name it passed to `addGroup` when it
   * called that callback (it calls it at most once).
   */
  datatype Conversion = Conversion(contact: Contact, groupRequest: Option<string>)

  /** `contacts[i]` is the contact `contacts.find(c => c.id === id)` returns. */
  predicate FirstContactWithId(contacts: seq<Contact>, id: string, i: int)
  {
    0 <= i < |contacts| && contacts[i].id == id && forall j :: 0 <= j < i ==> contacts[j].id != id
  }

  /** `groups[i]` is the group `groups.find(g => g.name === name)` returns. */
  predicate FirstGroupNamed(groups: seq<Group>, name: string, i: int)
  {
    0 <= i < |groups| && groups[i].name == name && forall j :: 0 <= j < i ==> groups[j].name != name
  }

  /** `groups[i]` is the group `groups.find(g => g.id === groupId)` returns; a null `groupId` equals no id. */
  predicate FirstGroupWithId(groups: seq<Group>, groupId: Option<string>, i: int)
  {
    0 <= i < |groups| && Some(groups[i].id) == groupId && forall j :: 0 <= j < i ==> Some(groups[j].id) != groupId
  }

  /**
   * The group half of `csvToContact`: the id of the first group named `name`; failing that,
   * for a non-blank name, the id of the group `addGroup(name)` returns; otherwise none.
   * The second component is the name passed to `addGroup`, if it was called.
   */
  function ResolveGroup(name: string, groups: seq<Group>, addGroup: string -> Group): (r: (Option<string>, Option<string>))
    ensures forall i :: FirstGroupNamed(groups, name, i) ==> r == (Some(groups[i].id), None)
    ensures (forall i :: 0 <= i < |groups| ==> groups[i].name != name) && IsBlank(name) ==> r == (None, None)
    ensures (forall i :: 0 <= i < |groups| ==> groups[i].name != name) && !IsBlank(name) ==>
      r == (Some(addGroup(name).id), Some(name))
  {
    match FirstIndex(groups, (g: Group) => g.name == name)
    case Some(i) => (Some(groups[i].id), None)
    case None =>
      assert name != [] && Trim(name) != [] <==> !IsBlank(name) by { TrimBlank(name); }
      if name != [] && Trim(name) != [] then (Some(addGroup(name).id), Some(name)) else (None, None)
  }

  /** The contact `contacts.find(c => c.id === id)` returns, if any. */
  function ContactWithId(contacts: seq<Contact>, id: string): (r: Option<Contact>)
    ensures forall i :: FirstContactWithId(contacts, id, i) ==> r == Some(contacts[i])
    ensures (forall i :: 0 <= i < |contacts| ==> contacts[i].id != id) ==> r == None
  {
    match FirstIndex(contacts, (c: Contact) => c.id == id)
    case Some(i) => Some(contacts[i])
    case None => None
  }

  /** `csvToContact(csvData, contacts, groups, addGroup)`. */
  function CsvToContact(row: CSVContact, contacts: seq<Contact>, groups: seq<Group>, addGroup: string -> Group): (r: Conversion)
    ensures r.contact.name == row.fullName && r.contact.phone == row.phone
    ensures (exists i :: FirstContactWithId(contacts, row.contactId, i)) ==> r.contact.id == row.contactId
    ensures (forall i :: 0 <= i < |contacts| ==> contacts[i].id != row.contactId) ==> r.contact.id == ""
    ensures Truthy(row.memo) ==> r.contact.memo == row.memo
    ensures forall i :: !Truthy(row.memo) && FirstContactWithId(contacts, row.contactId, i) ==>
      r.contact.memo == Some(OrElse(contacts[i].memo, ""))
    ensures !Truthy(row.memo) && (forall i :: 0 <= i < |contacts| ==> contacts[i].id != row.contactId) ==>
      r.contact.memo == Some("")
    ensures forall i :: FirstGroupNamed(groups, row.groupName, i) ==>
      r.contact.groupId == Some(groups[i].id) && r.groupRequest == None
    ensures (forall i :: 0 <= i < |groups| ==> groups[i].name != row.groupName) && IsBlank(row.groupName) ==>
      r.contact.groupId == None && r.groupRequest == None
    ensures (forall i :: 0 <= i < |groups| ==> groups[i].name != row.groupName) && !IsBlank(row.groupName) ==>
      r.contact.groupId == Some(addGroup(row.groupName).id) && r.groupRequest == Some(row.groupName)
  {
    var existing := ContactWithId(contacts, row.contactId);
    var existingId := if existing.Some? then Some(existing.value.id) else None;
    var existingMemo := if existing.Some? then existing.value.memo else None;
    var (groupId, request) := ResolveGroup(row.groupName, groups, addGroup);
    var contact := Contact(
      OrElse(existingId, ""),
      row.fullName,
      row.phone,
      Some(if Truthy(row.memo) then row.memo.value else OrElse(existingMemo, "")),
      groupId);
    Conversion(contact, request)
  }

  /** `contactToCSV(contact, groups)`. */
  function ContactToCsv(contact: Contact, groups: seq<Group>): (r: CSVContact)
    ensures r.contactId == contact.id && r.fullName == contact.name && r.phone == contact.phone
    ensures r.memo == Some(OrElse(contact.memo, ""))
    ensures forall i :: FirstGroupWithId(groups, contact.groupId, i) ==> r.groupName == groups[i].name
    ensures (forall i :: 0 <= i < |groups| ==> Some(groups[i].id) != contact.groupId) ==> r.groupName == ""
  {
    var group := FirstIndex(groups, (g: Group) => Some(g.id) == contact.groupId);
    CSVContact(contact.id, if group.Some? then groups[group.value].name else "", contact.name, contact.phone, Some(OrElse(contact.memo, "")))
  }

  /** No two contacts share an id. */
  predicate UniqueContactIds(contacts: seq<Contact>)
  {
    forall i, j :: 0 <= i < j < |contacts| ==> contacts[i].id != contacts[j].id
  }

  /** Group names are pairwise distinct and none is empty. */
  predicate DistinctNonEmptyGroupNames(groups: seq<Group>)
  {
    (forall i :: 0 <= i < |groups| ==> groups[i].name != "")
    && forall i, j :: 0 <= i < j < |groups| ==> groups[i].name != groups[j].name
  }

  /** `contact.groupId` names a group of `groups`. */
  predicate GroupResolves(contact: Contact, groups: seq<Group>)
  {
    exists i :: 0 <= i < |groups| && Some(groups[i].id) == contact.groupId
  }

  /**
   * Exporting a stored contact and importing the row again gives back its id, name, phone and
   * memo (an absent memo comes back as `''`), and its group when that group still exists;
   * a contact whose group is gone comes back without one. `addGroup` is never called.
   */
  lemma ExportImportRoundTrip(k: nat, contacts: seq<Contact>, groups: seq<Group>, addGroup: string -> Group)
    requires k < |contacts| && UniqueContactIds(contacts) && DistinctNonEmptyGroupNames(groups)
    ensures var c := contacts[k];
      var r := CsvToContact(ContactToCsv(c, groups), contacts, groups, addGroup);
      && r.contact.id == c.id && r.contact.name == c.name && r.contact.phone == c.phone
      && r.contact.memo == Some(OrElse(c.memo, ""))
      && r.contact.groupId == (if GroupResolves(c, groups) then c.groupId else None)
      && r.groupRequest == None
  {
    var c := contacts[k];
    var row := ContactToCsv(c, groups);
    assert FirstContactWithId(contacts, c.id, k);
    var gi := FirstIndex(groups, (g: Group) => Some(g.id) == c.groupId);
    if gi.Some? {
      var i := gi.value;
      assert FirstGroupWithId(groups, c.groupId, i);
      assert FirstGroupNamed(groups, groups[i].name, i);
    } else {
      assert row.groupName == "";
      assert IsBlank(row.groupName);
    }
  }

  /** The first example of the converter's tests: a row naming a known contact and a known group. */
  lemma ImportsKnownGroup(addGroup: string -> Group)
    ensures var contact := Contact("1", "John Doe", "099-9999-9999", Some("Test memo"), Some("1"));
      CsvToContact(CSVContact("1", "Friends", "John Doe", "099-9999-9999", Some("Test memo")),
                   [contact], [Group("1", "Friends")], addGroup)
      == Conversion(contact, None)
  {
    assert FirstContactWithId([Contact("1", "John Doe", "099-9999-9999", Some("Test memo"), Some("1"))], "1", 0);
    assert FirstGroupNamed([Group("1", "Friends")], "Friends", 0);
  }

  /** A row naming a group that does not exist asks `addGroup` for it and takes the new group's id. */
  lemma ImportsNewGroup()
    ensures var contact := Contact("1", "John Doe", "099-9999-9999", Some("Test memo"), Some("2"));
      CsvToContact(CSVContact("1", "Family", "John Doe", "099-9999-9999", Some("Test memo")),
                   [contact], [Group("1", "Friends")], name => Group("2", name))
      == Conversion(Contact("1", "John Doe", "099-9999-9999", Some("Test memo"), Some("2")), Some("Family"))
  {
    var groups := [Group("1", "Friends")];
    assert groups[0].name != "Family";
    assert !IsJsWhitespace("Family"[0]);
    assert FirstContactWithId([Contact("1", "John Doe", "099-9999-9999", Some("Test memo"), Some("2"))], "1", 0);
  }
}
