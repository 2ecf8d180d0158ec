/**
 * `src/contexts/GroupContext.tsx`: the group state the provider shares. The in-memory list
 * and `recentlyCreatedGroupId` are the provider's state; the stored groups and contacts are
 * the `Storage` it writes through. Adding and renaming refuse a name another group has;
 * deleting a group first checks that the store knows it, then removes it and detaches every
 * contact that referenced it.
 */
module GroupContext {
  import opened Common
  import opened Types
  import opened LocalStorage

  /** Some group of `groups` is called `name` (the duplicate test of `addGroup`). */
  predicate NameTaken(groups: seq<Group>, name: string)
  {
    exists i :: 0 <= i < |groups| && groups[i].name == name
  }

  /** Some other group than `group` is called `group.name` (the duplicate test of `updateGroup`). */
  predicate NameTakenByOther(groups: seq<Group>, group: Group)
  {
    exists i :: 0 <= i < |groups| && groups[i].name == group.name && groups[i].id != group.id
  }

  /** Some group of `groups` has the id `id`. */
  predicate HasGroup(groups: seq<Group>, id: string)
  {
    exists i :: 0 <= i < |groups| && groups[i].id == id
  }

  /** No two groups share a name. */
  predicate DistinctNames(groups: seq<Group>)
  {
    forall i, j :: 0 <= i < j < |groups| ==> groups[i].name != groups[j].name
  }

  /** No two groups share an id. */
  predicate UniqueIds(groups: seq<Group>)
  {
    forall i, j :: 0 <= i < j < |groups| ==> groups[i].id != groups[j].id
  }

  /** The error `handleDeleteGroup` raises for an id the store does not know. */
  function NotFound(id: string): AppError
  {
    AppError("Group with ID " + id + " not found", 404)
  }

  /** The error `handleDeleteGroup` re-raises for any failure inside it. */
  function DeleteFailure(id: string, cause: AppError): AppError
  {
    NewAppError("Failed to delete group with ID " + id + ": " + cause.message)
  }

  /** Appending a group whose name is free keeps the names distinct. */
  lemma AppendKeepsNamesDistinct(groups: seq<Group>, group: Group)
    requires DistinctNames(groups) && !NameTaken(groups, group.name)
    ensures DistinctNames(groups + [group])
  {
    var r := groups + [group];
    forall i, j | 0 <= i < j < |r| ensures r[i].name != r[j].name {
      if j == |groups| {
        assert r[i] == groups[i];
      } else {
        assert r[i] == groups[i] && r[j] == groups[j];
      }
    }
  }

  /**
   * Renaming a group to a name no other group has keeps the names distinct, provided ids are
   * unique (with two groups sharing the id, both would get the new name).
   */
  lemma RenameKeepsNamesDistinct(groups: seq<Group>, group: Group)
    requires DistinctNames(groups) && UniqueIds(groups) && !NameTakenByOther(groups, group)
    ensures DistinctNames(RenameGroup(groups, group))
  {
    var r := RenameGroup(groups, group);
    forall i, j | 0 <= i < j < |r| ensures r[i].name != r[j].name {
      if groups[i].id == group.id {
        assert groups[j].id != group.id;
        assert groups[j].name != group.name;
      } else if groups[j].id == group.id {
        assert groups[i].name != group.name;
      }
    }
  }

  /** Without unique ids, a permitted rename can leave two groups with one name. */
  lemma RenameNeedsUniqueIds()
    ensures var groups := [Group("1", "Family"), Group("1", "Friends")];
      && DistinctNames(groups) && !NameTakenByOther(groups, Group("1", "Work"))
      && !DistinctNames(RenameGroup(groups, Group("1", "Work")))
  {
    var groups := [Group("1", "Family"), Group("1", "Friends")];
    var r := RenameGroup(groups, Group("1", "Work"));
    assert r[0].name == r[1].name;
  }

  /** The `GroupProvider`'s state, writing through to the browser store. */
  class GroupProvider {
    /** The `groups` state. */
    var groups: seq<Group>
    /** The `recentlyCreatedGroupId` state. */
    var recentlyCreatedGroupId: Option<string>
    /** The store the provider reads and writes. */
    const storage: Storage

    /** The provider's first render: no groups and no recently created group. */
    constructor(storage: Storage)
      ensures groups == [] && recentlyCreatedGroupId == None && this.storage == storage
    {
      groups := [];
      recentlyCreatedGroupId := None;
      this.storage := storage;
    }

    /** The mount effect: `setGroups(getGroups())`. */
    method Load()
      modifies this
      ensures groups == storage.Groups()
      ensures recentlyCreatedGroupId == old(recentlyCreatedGroupId)
    {
      groups := storage.GetGroups();
    }

    /**
     * `addGroup(group)`: refused, with nothing changed, when a group of the in-memory list
     * already has the name; otherwise the group is appended, the new list is saved, and the
     * group becomes the recently created one.
     */
    method AddGroup(group: Group) returns (ok: bool)
      modifies this, storage
      ensures ok <==> !NameTaken(old(groups), group.name)
      ensures !ok ==> groups == old(groups) && recentlyCreatedGroupId == old(recentlyCreatedGroupId) && unchanged(storage)
      ensures ok ==> groups == old(groups) + [group] && storage.groupsEntry == Some(groups)
      ensures ok ==> recentlyCreatedGroupId == Some(group.id) && storage.contactsEntry == old(storage.contactsEntry)
      ensures DistinctNames(old(groups)) ==> DistinctNames(groups)
    {
      if NameTaken(groups, group.name) {
        return false;
      }
      if DistinctNames(groups) {
        AppendKeepsNamesDistinct(groups, group);
      }
      var updated := groups + [group];
      groups := updated;
      storage.SaveGroups(updated);
      recentlyCreatedGroupId := Some(group.id);
      return true;
    }

    /**
     * `updateGroup(group)`: refused, with nothing changed, when another group already has the
     * name; otherwise every group with the id is renamed and the list saved. An id no group
     * has leaves the list as it was, and the call still succeeds.
     */
    method UpdateGroup(group: Group) returns (ok: bool)
      modifies this, storage
      ensures ok <==> !NameTakenByOther(old(groups), group)
      ensures !ok ==> groups == old(groups) && unchanged(storage)
      ensures ok ==> groups == RenameGroup(old(groups), group) && storage.groupsEntry == Some(groups)
      ensures ok ==> storage.contactsEntry == old(storage.contactsEntry)
      ensures ok && !HasGroup(old(groups), group.id) ==> groups == old(groups)
      ensures recentlyCreatedGroupId == old(recentlyCreatedGroupId)
      ensures DistinctNames(old(groups)) && UniqueIds(old(groups)) ==> DistinctNames(groups)
    {
      if NameTakenByOther(groups, group) {
        return false;
      }
      if DistinctNames(groups) && UniqueIds(groups) {
        RenameKeepsNamesDistinct(groups, group);
      }
      if !HasGroup(groups, group.id) {
        RenameAbsentGroup(groups, group);
      }
      var updated := RenameGroup(groups, group);
      groups := updated;
      storage.SaveGroups(updated);
      return true;
    }

    /**
     * `handleDeleteGroup(id)`: an id the stored groups lack raises the not-found error,
     * re-raised with status 500, before anything is written. Otherwise the group is deleted
     * from the store, the in-memory list becomes the stored groups without it, and every
     * stored contact that referenced it loses its `groupId`.
     */
    method HandleDeleteGroup(id: string) returns (err: Option<AppError>)
      modifies this, storage
      ensures !HasGroup(old(storage.Groups()), id) ==>
        err == Some(DeleteFailure(id, NotFound(id))) && groups == old(groups) && unchanged(storage)
      ensures HasGroup(old(storage.Groups()), id) ==>
        && err == None
        && groups == WithoutGroup(old(storage.Groups()), id)
        && storage.groupsEntry == Some(groups)
        && storage.contactsEntry == Some(Ungroup(old(storage.Contacts()), id))
      ensures recentlyCreatedGroupId == old(recentlyCreatedGroupId)
    {
      var existing := storage.GetGroups();
      if !HasGroup(existing, id) {
        return Some(DeleteFailure(id, NotFound(id)));
      }
      storage.DeleteGroup(id);
      groups := WithoutGroup(existing, id);
      var contacts := storage.GetContacts();
      storage.SaveContacts(Ungroup(contacts, id));
      return None;
    }

    /** `clearRecentlyCreatedGroupId()`. */
    method ClearRecentlyCreatedGroupId()
      modifies this
      ensures recentlyCreatedGroupId == None && groups == old(groups)
    {
      recentlyCreatedGroupId := None;
    }
  }

  /** After a successful delete no stored contact references the group, and the others are untouched. */
  lemma DeleteDetachesExactly(contacts: seq<Contact>, id: string)
    ensures var r := Ungroup(contacts, id);
      && (forall i :: 0 <= i < |r| ==> r[i].groupId != Some(id))
      && (forall i :: 0 <= i < |r| ==>
            r[i].id == contacts[i].id && r[i].name == contacts[i].name && r[i].phone == contacts[i].phone && r[i].memo == contacts[i].memo)
      && (forall i :: 0 <= i < |r| ==> (r[i].groupId == contacts[i].groupId <==> contacts[i].groupId != Some(id)))
  {
  }
}
