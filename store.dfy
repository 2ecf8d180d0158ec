/**
 * `src/utils/localStorage.ts`: the browser store, reduced to what the contact book keeps in
 * it. The contacts live under the key `'contacts'`; the group helpers the contexts and the
 * loaders import from the same file (`getGroups`, `saveGroups`, `createGroup`, `updateGroup`,
 * `deleteGroup`) keep the groups beside them. JSON encoding is left out: an entry holds the
 * list it was saved with, and an absent key is `None`.
 */
module LocalStorage {
  import opened Common
  import opened Seqs
  import opened Types

  /** The key the contacts are stored under. */
  const StorageKey: string := "contacts"

  /** The test `contact => contact.id !== id`. */
  function IdIsNot(id: string): Contact -> bool
  {
    (c: Contact) => c.id != id
  }

  /** `contacts.filter(contact => contact.id !== id)`. */
  function WithoutContact(contacts: seq<Contact>, id: string): (r: seq<Contact>)
    ensures forall i :: 0 <= i < |r| ==> r[i].id != id
  {
    Filter(contacts, IdIsNot(id))
  }

  /**
   * Removing a contact keeps every contact with another id: as many copies of each as
   * before, in their original order.
   */
  lemma WithoutContactKeepsOthers(contacts: seq<Contact>, id: string, c: Contact)
    ensures IsSubsequence(WithoutContact(contacts, id), contacts)
    ensures multiset(WithoutContact(contacts, id))[c] == if c.id == id then 0 else multiset(contacts)[c]
  {
    FilterIsSubsequence(contacts, IdIsNot(id));
    FilterCount(contacts, IdIsNot(id), c);
  }

  /** Removing an id no contact has changes nothing. */
  lemma WithoutAbsentContact(contacts: seq<Contact>, id: string)
    requires forall i :: 0 <= i < |contacts| ==> contacts[i].id != id
    ensures WithoutContact(contacts, id) == contacts
  {
    FilterAll(contacts, IdIsNot(id));
  }

  /** Removing the same id twice is removing it once. */
  lemma WithoutContactTwice(contacts: seq<Contact>, id: string)
    ensures WithoutContact(WithoutContact(contacts, id), id) == WithoutContact(contacts, id)
  {
    FilterIdempotent(contacts, IdIsNot(id));
  }

  /** `groups.filter(group => group.id !== id)`. */
  function WithoutGroup(groups: seq<Group>, id: string): (r: seq<Group>)
    ensures forall i :: 0 <= i < |r| ==> r[i].id != id
  {
    Filter(groups, (g: Group) => g.id != id)
  }

  /** Removing a group keeps the others, in order and with their multiplicities. */
  lemma WithoutGroupKeepsOthers(groups: seq<Group>, id: string, g: Group)
    ensures IsSubsequence(WithoutGroup(groups, id), groups)
    ensures multiset(WithoutGroup(groups, id))[g] == if g.id == id then 0 else multiset(groups)[g]
  {
    FilterIsSubsequence(groups, (g: Group) => g.id != id);
    FilterCount(groups, (g: Group) => g.id != id, g);
  }

  /** `groups.map(g => g.id === group.id ? { ...g, name: group.name } : g)`. */
  function RenameGroup(groups: seq<Group>, group: Group): (r: seq<Group>)
    ensures |r| == |groups|
    ensures forall i :: 0 <= i < |r| ==> r[i].id == groups[i].id
    ensures forall i :: 0 <= i < |r| ==> r[i].name == if groups[i].id == group.id then group.name else groups[i].name
  {
    seq(|groups|, i requires 0 <= i < |groups| => if groups[i].id == group.id then groups[i].(name := group.name) else groups[i])
  }

  /** Renaming by an id no group has changes nothing. */
  lemma RenameAbsentGroup(groups: seq<Group>, group: Group)
    requires forall i :: 0 <= i < |groups| ==> groups[i].id != group.id
    ensures RenameGroup(groups, group) == groups
  {
    var r := RenameGroup(groups, group);
    assert forall i :: 0 <= i < |r| ==> r[i] == groups[i];
  }

  /** `contacts.map(contact => contact.groupId === id ? { ...contact, groupId: null } : contact)`. */
  function Ungroup(contacts: seq<Contact>, id: string): (r: seq<Contact>)
    ensures |r| == |contacts|
    ensures forall i :: 0 <= i < |r| ==> r[i].groupId != Some(id)
    ensures forall i :: 0 <= i < |r| ==> contacts[i].groupId != Some(id) ==> r[i] == contacts[i]
    ensures forall i :: 0 <= i < |r| ==> contacts[i].groupId == Some(id) ==> r[i] == contacts[i].(groupId := None)
  {
    seq(|contacts|, i requires 0 <= i < |contacts| =>
      if contacts[i].groupId == Some(id) then contacts[i].(groupId := None) else contacts[i])
  }

  /** The browser's `localStorage`, holding the contact list and the group list. */
  class Storage {
    /** The list saved under `'contacts'`, or `None` when nothing was ever saved. */
    var contactsEntry: Option<seq<Contact>>
    /** The list the group helpers saved, or `None` when nothing was ever saved. */
    var groupsEntry: Option<seq<Group>>

    /** A store with nothing saved in it. */
    constructor Empty()
      ensures contactsEntry == None && groupsEntry == None
    {
      contactsEntry := None;
      groupsEntry := None;
    }

    /** The contacts `getContacts` reads: the saved list, or `[]` when there is none. */
    function Contacts(): seq<Contact>
      reads this
    {
      if contactsEntry.Some? then contactsEntry.value else []
    }

    /** The groups `getGroups` reads: the saved list, or `[]` when there is none. */
    function Groups(): seq<Group>
      reads this
    {
      if groupsEntry.Some? then groupsEntry.value else []
    }

    /** `getContacts()`: the saved list, or `[]` when nothing is saved under `'contacts'`. */
    method GetContacts() returns (r: seq<Contact>)
      ensures contactsEntry.None? ==> r == []
      ensures contactsEntry.Some? ==> r == contactsEntry.value
      ensures r == Contacts()
    {
      match contactsEntry
      case None => r := [];
      case Some(data) => r := data;
    }

    /** `saveContacts(contacts)`: overwrites the `'contacts'` entry; a later read returns `contacts`. */
    method SaveContacts(contacts: seq<Contact>)
      modifies this
      ensures contactsEntry == Some(contacts) && Contacts() == contacts
      ensures groupsEntry == old(groupsEntry)
    {
      contactsEntry := Some(contacts);
    }

    /**
     * `deleteContact(id)`: reads the list, drops the contacts with that id and writes the
     * rest back, even when none was dropped.
     */
    method DeleteContact(id: string)
      modifies this
      ensures contactsEntry == Some(WithoutContact(old(Contacts()), id))
      ensures forall i :: 0 <= i < |Contacts()| ==> Contacts()[i].id != id
      ensures groupsEntry == old(groupsEntry)
    {
      var contacts := GetContacts();
      SaveContacts(WithoutContact(contacts, id));
    }

    /** `getGroups()`, read like `getContacts()`. */
    method GetGroups() returns (r: seq<Group>)
      ensures groupsEntry.None? ==> r == []
      ensures groupsEntry.Some? ==> r == groupsEntry.value
      ensures r == Groups()
    {
      match groupsEntry
      case None => r := [];
      case Some(data) => r := data;
    }

    /** `saveGroups(groups)`: overwrites the group entry. */
    method SaveGroups(groups: seq<Group>)
      modifies this
      ensures groupsEntry == Some(groups) && Groups() == groups
      ensures contactsEntry == old(contactsEntry)
    {
      groupsEntry := Some(groups);
    }

    /** `createGroup(group)`: appends the group to the saved list. */
    method CreateGroup(group: Group)
      modifies this
      ensures groupsEntry == Some(old(Groups()) + [group])
      ensures contactsEntry == old(contactsEntry)
    {
      var groups := GetGroups();
      SaveGroups(groups + [group]);
    }

    /** `updateGroup(group)`: renames the saved groups with the group's id. */
    method UpdateGroup(group: Group)
      modifies this
      ensures groupsEntry == Some(RenameGroup(old(Groups()), group))
      ensures contactsEntry == old(contactsEntry)
    {
      var groups := GetGroups();
      SaveGroups(RenameGroup(groups, group));
    }

    /** `deleteGroup(id)`: drops the saved groups with that id. */
    method DeleteGroup(id: string)
      modifies this
      ensures groupsEntry == Some(WithoutGroup(old(Groups()), id))
      ensures forall i :: 0 <= i < |Groups()| ==> Groups()[i].id != id
      ensures contactsEntry == old(contactsEntry)
    {
      var groups := GetGroups();
      SaveGroups(WithoutGroup(groups, id));
    }
  }
}
