/**
 * `src/utils/contactServices.ts`: the route loaders and the group action. A loader reads the
 * store and builds the data a page shows; the values `getContacts()` and `getGroups()` return
 * are its parameters here. A route id goes through `params.id?.toString() || null`, so a
 * missing and an empty id both read as `null`, which the error messages show as `null`.
 * A thrown `Error` is an `Err` carrying its message.
 */
module ContactServices {
  import opened Common
  import opened Seqs
  import opened Types
  import opened LocalStorage
  import opened Validation
  import opened CsvConverter

  /** `ContactsDTO`. */
  datatype ContactsDTO = ContactsDTO(selectedContact: Option<Contact>, contacts: seq<Contact>, groups: seq<Group>)

  /** `GroupDTO`. */
  datatype GroupDTO = GroupDTO(group: Group, groups: seq<Group>)

  /** `params.id?.toString() || null`. */
  function RouteId(param: Option<string>): (r: Option<string>)
    ensures r.Some? <==> Truthy(param)
    ensures r.Some? ==> r == param
  {
    if Truthy(param) then param else None
  }

  /** A route id inside a template literal: its text, or `null`. */
  function Shown(id: Option<string>): string
  {
    if id.Some? then id.value else "null"
  }

  /** The contact of the "new" form: every text field `''` and no group. */
  const BlankContact: Contact := Contact("", "", "", Some(""), None)

  /** The group of the "new" form. */
  const BlankGroup: Group := Group("", "")

  /** `getContactsList()`: no selection, the stored contacts and no groups. */
  function GetContactsList(contacts: seq<Contact>): (r: ContactsDTO)
    ensures r.selectedContact == None && r.contacts == contacts && r.groups == []
  {
    ContactsDTO(None, contacts, [])
  }

  /**
   * `getContactsEdit({ params })`: the first stored contact with the route id, with every
   * stored contact and group; an id that is missing, empty or unknown raises.
   */
  function GetContactsEdit(param: Option<string>, contacts: seq<Contact>, groups: seq<Group>): (r: Result<ContactsDTO, string>)
    ensures r.Ok? <==> Truthy(param) && exists i :: 0 <= i < |contacts| && contacts[i].id == param.value
    ensures forall i :: Truthy(param) && FirstContactWithId(contacts, param.value, i) ==>
      r == Ok(ContactsDTO(Some(contacts[i]), contacts, groups))
    ensures r.Err? ==> r.error == "Contact with ID " + Shown(RouteId(param)) + " not found"
  {
    var id := RouteId(param);
    if id.None? then Err("Contact with ID null not found")
    else
      match ContactWithId(contacts, id.value)
      case None => Err("Contact with ID " + id.value + " not found")
      case Some(c) => Ok(ContactsDTO(Some(c), contacts, groups))
  }

  /** `getContactsNew()`: the blank contact, with every stored contact and group. */
  function GetContactsNew(contacts: seq<Contact>, groups: seq<Group>): (r: ContactsDTO)
    ensures r.selectedContact == Some(Contact("", "", "", Some(""), None))
    ensures r.contacts == contacts && r.groups == groups
  {
    ContactsDTO(Some(BlankContact), contacts, groups)
  }

  /** `getGroupsList()`: the stored groups. */
  function GetGroupsList(groups: seq<Group>): (r: seq<Group>)
    ensures r == groups
  {
    groups
  }

  /** `getGroupNew()`: the blank group and no groups. */
  function GetGroupNew(): (r: GroupDTO)
    ensures r.group == Group("", "") && r.groups == []
  {
    GroupDTO(BlankGroup, [])
  }

  /**
   * `getGroup({ params })`: without a route id, the blank group and no groups; otherwise the
   * first stored group with the id and every stored group, or an error when none has it.
   */
  function GetGroup(param: Option<string>, groups: seq<Group>): (r: Result<GroupDTO, string>)
    ensures !Truthy(param) ==> r == Ok(GroupDTO(Group("", ""), []))
    ensures Truthy(param) ==> (r.Ok? <==> exists i :: 0 <= i < |groups| && groups[i].id == param.value)
    ensures forall i :: Truthy(param) && FirstGroupWithId(groups, param, i) ==> r == Ok(GroupDTO(groups[i], groups))
    ensures r.Err? ==> r.error == "Group with ID " + param.value + " not found"
  {
    var id := RouteId(param);
    if id.None? then Ok(GroupDTO(BlankGroup, []))
    else
      match FirstIndex(groups, (g: Group) => g.id == id.value)
      case None => Err("Group with ID " + id.value + " not found")
      case Some(i) => Ok(GroupDTO(groups[i], groups))
  }

  /** Without a route id, the edit loader shows what the "new" loader shows. */
  lemma GetGroupWithoutId(param: Option<string>, groups: seq<Group>)
    requires !Truthy(param)
    ensures GetGroup(param, groups) == Ok(GetGroupNew())
  {
  }

  /** With unique ids, the edit loader finds every stored contact by its (non-empty) id. */
  lemma EditFindsStoredContact(contacts: seq<Contact>, groups: seq<Group>, k: nat)
    requires k < |contacts| && UniqueContactIds(contacts) && contacts[k].id != ""
    ensures GetContactsEdit(Some(contacts[k].id), contacts, groups) == Ok(ContactsDTO(Some(contacts[k]), contacts, groups))
  {
    assert FirstContactWithId(contacts, contacts[k].id, k);
  }

  /** The blank contact of the "new" form cannot be saved as it is: its name is blank. */
  lemma BlankContactRejected(contacts: seq<Contact>, isEdit: bool)
    ensures CheckContact(GetContactsNew(contacts, []).selectedContact.value, contacts, isEdit) == NameOrPhoneRequired
  {
  }

  /** The blank group of the "new" form cannot be saved as it is: its name is blank. */
  lemma BlankGroupRejected(groups: seq<Group>, isEdit: bool)
    ensures CheckGroup(GetGroupNew().group, groups, isEdit) == GroupNameRequired
  {
  }

  /** A group created through the action is found by the edit loader under its id, if that id was new. */
  lemma CreatedGroupFound(groups: seq<Group>, g: Group)
    requires g.id != "" && forall i :: 0 <= i < |groups| ==> groups[i].id != g.id
    ensures GetGroup(Some(g.id), groups + [g]) == Ok(GroupDTO(g, groups + [g]))
  {
    var s := groups + [g];
    assert FirstGroupWithId(s, Some(g.id), |groups|);
  }

  /** The group a POST or PATCH builds from the form: `formData.get(…)?.toString() || ''` for each field. */
  function FormGroup(formId: Option<string>, formName: Option<string>): (r: Group)
    ensures r.id == OrElse(formId, "") && r.name == OrElse(formName, "")
  {
    Group(OrElse(formId, ""), OrElse(formName, ""))
  }

  /**
   * `groupAction({ params, request })`: POST creates, PATCH renames, DELETE with a route id
   * deletes, each then redirecting to `/groups`; a missing method, a DELETE without an id and
   * any other method raise with nothing written. The form fields are parameters: reading
   * them is `request.formData()`.
   */
  method GroupAction(storage: Storage, requestMethod: Option<string>, formId: Option<string>, formName: Option<string>, param: Option<string>)
    returns (r: Result<string, string>)
    modifies storage
    ensures !Truthy(requestMethod) ==> r == Err("Action is required") && unchanged(storage)
    ensures requestMethod == Some("POST") ==>
      r == Ok("/groups") && storage.groupsEntry == Some(old(storage.Groups()) + [FormGroup(formId, formName)])
    ensures requestMethod == Some("PATCH") ==>
      r == Ok("/groups") && storage.groupsEntry == Some(RenameGroup(old(storage.Groups()), FormGroup(formId, formName)))
    ensures requestMethod == Some("DELETE") && Truthy(param) ==>
      r == Ok("/groups") && storage.groupsEntry == Some(WithoutGroup(old(storage.Groups()), param.value))
    ensures requestMethod == Some("DELETE") && !Truthy(param) ==> r == Err("Group ID is required") && unchanged(storage)
    ensures Truthy(requestMethod) && requestMethod.value !in {"POST", "PATCH", "DELETE"} ==>
      r == Err("Invalid action: " + requestMethod.value) && unchanged(storage)
    ensures storage.contactsEntry == old(storage.contactsEntry)
  {
    var m := RouteId(requestMethod);
    if m.None? {
      return Err("Action is required");
    }
    if m.value == "POST" {
      storage.CreateGroup(FormGroup(formId, formName));
    } else if m.value == "PATCH" {
      storage.UpdateGroup(FormGroup(formId, formName));
    } else if m.value == "DELETE" {
      var groupId := RouteId(param);
      if groupId.None? {
        return Err("Group ID is required");
      }
      storage.DeleteGroup(groupId.value);
    } else {
      return Err("Invalid action: " + m.value);
    }
    return Ok("/groups");
  }
}
