/** The records of the contact book (`src/models/types.ts`) and its error class (`src/utils/errors.ts`). */
module Types {
  import opened Common

  /**
   * A person record. `memo` is optional (`memo?: string`); `groupId` is `null` when the
   * contact belongs to no group (an absent `groupId` of the older model reads the same way).
   */
  datatype Contact = Contact(id: string, name: string, phone: string, memo: Option<string>, groupId: Option<string>)

  /** A named tag that contacts can reference through `groupId`. */
  datatype Group = Group(id: string, name: string)

  /** The flat record one CSV row is read into or written from. */
  datatype CSVContact = CSVContact(contactId: string, groupName: string, fullName: string, phone: string, memo: Option<string>)

  /** `AppError`: a message with an HTTP-style status code, 500 unless given. */
  datatype AppError = AppError(message: string, statusCode: int)

  const DefaultStatusCode: int := 500

  /** `new AppError(message, statusCode = 500)`. */
  function NewAppError(message: string, statusCode: int := DefaultStatusCode): AppError
  {
    AppError(message, statusCode)
  }

  /** JavaScript truthiness of an optional string: `undefined` and `''` are falsy. */
  predicate Truthy(o: Option<string>)
  {
    o.Some? && o.value != []
  }

  /** `a || b` for an optional string and a fallback: `a` when it is truthy, else `b`. */
  function OrElse(a: Option<string>, b: string): (r: string)
    ensures Truthy(a) ==> r == a.value
    ensures !Truthy(a) ==> r == b
  {
    if Truthy(a) then a.value else b
  }
}
