# Contact Book core, modelled in Dafny

This project models what the TS_Contact_Book application (React and TypeScript) does with its
data, and proves properties of that model. It covers:

- **Validation** (`src/utils/validation.ts`). A group needs a non-blank, unused name. A contact
  needs a non-blank name and phone. The phone may hold only digits and hyphens, and must be a
  `0` followed by nine or ten more digits once the hyphens are removed. The contact's name must
  be free.
- **Conversion between CSV rows and contacts** (`src/utils/csvConverter.ts`).
- **The browser store** (`src/utils/localStorage.ts`). This is the contact list under the key
  `contacts`, plus the group list that the group helpers keep beside it.
- **The two providers** (`src/contexts/GroupContext.tsx`, `src/contexts/ContactContext.tsx`).
  They cover the in-memory lists, search, stable sorting, bucketing under `A`–`Z`, the kana row
  heads and `#`, selection, and bulk delete.
- **The route loaders and the group action** (`src/utils/contactServices.ts`).
- **The CSV import batch rule** (`src/components/CSVImport/CSVImport.tsx`). Every row is
  converted and validated against the list as it was before the import. Each rejected row
  gets one numbered error. Nothing is added unless every row was accepted.
- **The export file name** (`src/components/CSVExport/CSVExport.tsx`).
- **The header's navigation rule** (`src/components/ApplicationHeader/ApplicationHeader.tsx`).

How the source's constructs map to the model:

- Functions that only compute are Dafny functions, with lemmas about them.
- The providers and the store update state in place, so they are classes. Their methods carry
  `modifies` clauses and state the whole new state.
- The `forEach` loops of `groupedContacts` and of the import callback are methods with
  `while` loops and invariants. Each is proved equal to a specification function.

Files:

- `common.dfy`: `Option`, `Result`
- `seqs.dfy`: `Array.prototype.filter` / `find` / `findIndex` and their algebra
- `text.dfy`: `String.prototype.trim`, ASCII case mapping, `includes`, `String(n)`, `padStart`, `slice(-n)`
- `regex.dfy`: the fragment of JavaScript regular expressions the sources use, with `test` semantics
- `types.dfy`: `Contact`, `Group`, `CSVContact`, `AppError`
- `validation.dfy`: `validateGroup`, `validateContact`
- `csv_converter.dfy`: `csvToContact`, `contactToCSV`
- `store.dfy`: `getContacts`, `saveContacts`, `deleteContact`, the group helpers
- `group_context.dfy`: `GroupProvider`
- `contact_context.dfy`: `ContactProvider`, `filteredContacts`, `groupedContacts`
- `contact_services.dfy`: the loaders and `groupAction`
- `csv_import.dfy`: `CSVImport`'s `handleFileChange` and `handleImport`
- `csv_export.dfy`: `getFormattedDate` and the download's file name
- `header.dfy`: the two path patterns of `ApplicationHeader`

## Model

| member | source | states |
|---|---|---|
| Text.Trim | src/utils/validation.ts:17 | The result is `s` with its leading and trailing ECMAScript white space and line terminators removed. It starts and ends with a non-space character, or it is empty. |
| Text.TrimTrim | src/utils/validation.ts:17 | Trimming twice is trimming once. |
| Text.ToLowerAscii | src/contexts/ContactContext.tsx:111 | `toLowerCase` on one character: `A`–`Z` move to `a`–`z`, and every other character is kept. |
| Text.ToUpperAscii | src/contexts/ContactContext.tsx:157 | `toUpperCase` on one character: `a`–`z` move to `A`–`Z`, and every other character is kept. |
| Text.LowerAscii | src/contexts/ContactContext.tsx:111 | The lowercase mapping, applied character by character, keeps the length. |
| Text.Decimal | src/components/CSVExport/CSVExport.tsx:14-19 | `String(n)`, for `n` below 10^21, writes at least one ASCII digit, and a leading `0` only for zero. |
| Text.DecimalRoundTrip | src/components/CSVExport/CSVExport.tsx:14-19 | Reading back the digits of `String(n)` gives `n`. |
| Text.DecimalLength | src/components/CSVExport/CSVExport.tsx:14-19 | `String(n)` has one digit exactly below 10, and two exactly from 10 to 99. |
| Text.PadStart | src/components/CSVExport/CSVExport.tsx:15-19 | `padStart(width, pad)` has length `max(|s|, width)`. Its result ends with `s` and is padding before that. |
| Text.SliceLast | src/components/CSVExport/CSVExport.tsx:14 | For `n >= 1`, `slice(-n)` is the last `min(n, |s|)` characters of `s`; `slice(-0)` is all of `s`. |
| Types.NewAppError | src/utils/errors.ts:10-14 | The `AppError` constructor: the message, and the status code 500 unless one is given. |
| Types.Truthy | src/utils/csvConverter.ts:29-33 | JavaScript truthiness of an optional string: `undefined` and `''` are false. OrElse is defined by it. |
| Types.OrElse | src/utils/csvConverter.ts:29-33 | `x \|\| d` on an optional string: the value when it is truthy, else `d`. |
| Validation.GroupNameClash | src/utils/validation.ts:24-26 | The `some` test: a group with the trimmed name that, when editing, is not the edited group. CheckGroup states the rule it decides. |
| Validation.CheckGroup | src/utils/validation.ts:11-33 | The rule that decides: name required exactly when the name is blank. Name taken exactly when the trimmed name is another group's name (any group's, when not editing). Accepted otherwise. |
| Validation.ValidateGroup | src/utils/validation.ts:11-33 | True exactly when the name is not blank and no other group has the trimmed name. |
| Validation.PhoneClassChar | src/utils/validation.ts:56 | `[0-9-]` accepts exactly the ASCII digits and the hyphen. |
| Validation.DigitClassChar | src/utils/validation.ts:63 | `\d` accepts exactly the ASCII digits. |
| Validation.PhoneCharsetMatches | src/utils/validation.ts:56 | `/^[0-9-]+$/` accepts exactly the non-empty strings of digits and hyphens. |
| Validation.PhoneFormatMatches | src/utils/validation.ts:63 | `/^0\d{9,10}$/` accepts exactly the strings of 10 or 11 ASCII digits that start with `0`. |
| Validation.RemoveHyphens | src/utils/validation.ts:62 | `replace(/-/g, '')`: the characters other than `-`, in order. RemoveHyphensOfPhoneChars states what it leaves of an accepted phone. |
| Validation.RemoveHyphensOfPhoneChars | src/utils/validation.ts:62 | On digits and hyphens, `replace(/-/g, '')` leaves exactly the digits, in order. |
| Validation.ContactNameClash | src/utils/validation.ts:71-73 | The `some` test: a contact with the trimmed name that, when editing, is not the edited contact. CheckContact states the rule it decides. |
| Validation.CheckContact | src/utils/validation.ts:42-80 | The first failing rule, each as an if-and-only-if: blank name or phone, then a bad character set, then a bad number shape, then a name held by another contact. Accepted is exactly the case where all four pass. |
| Validation.ValidateContact | src/utils/validation.ts:42-80 | True exactly when all four rules pass. |
| Validation.AcceptedPhoneShape | src/utils/validation.ts:55-68 | The trimmed phone of an accepted contact, with its hyphens removed, is `0` followed by nine or ten digits. |
| Validation.GroupedNumberParts | src/utils/validation.ts:55-63 | A number written `a-b-c` in digit groups passes the character-set rule. Removing its hyphens leaves `a`, `b` and `c` joined. |
| Validation.GroupedNumberUntrimmed | src/utils/validation.ts:49 | A number that starts and ends with a digit is unchanged by `trim()`. |
| Validation.AcceptsGroupedNumber | src/utils/validation.ts:42-80 | A contact with a free, non-blank name and a hyphenated domestic number (for example `099-9999-9999`) is accepted. |
| CsvConverter.ResolveGroup | src/utils/csvConverter.ts:21-25 | The first group with the row's group name gives its id, with no request. With no such group and a non-blank name, `addGroup` is asked and its group's id is used. Otherwise there is no group. |
| CsvConverter.ContactWithId | src/utils/csvConverter.ts:18 | `find` returns the first contact with the id, or nothing when none has it. |
| CsvConverter.CsvToContact | src/utils/csvConverter.ts:11-37 | The name and phone are copied. The id is kept when a stored contact has it, else it is `''`. The memo is the row's when truthy, else the stored contact's, else `''`. The group is resolved as above. |
| CsvConverter.ContactToCsv | src/utils/csvConverter.ts:45-58 | Id, name and phone are copied. The memo defaults to `''`. The group name is the first matching group's name, or `''`. |
| CsvConverter.ExportImportRoundTrip | src/utils/csvConverter.ts:11-58 | The round trip holds when ids are unique and group names are distinct and non-empty. Exporting a stored contact and importing the row gives the same contact, on every field except a missing memo, which comes back as `''`. The group comes back exactly when it resolves, and no group is requested. |
| CsvConverter.ImportsKnownGroup | src/utils/__tests__/csvConverter.test.ts:7-28 | The converter's first test case: a known contact in a known group converts to the expected contact. |
| CsvConverter.ImportsNewGroup | src/utils/__tests__/csvConverter.test.ts:30-51 | The converter's second test case: a missing group is requested from `addGroup`, and the contact takes the new group's id. |
| LocalStorage.IdIsNot | src/utils/localStorage.ts:31 | The test `contact => contact.id !== id`. WithoutContact and WithoutContactKeepsOthers state what filtering by it keeps. |
| LocalStorage.WithoutContact | src/utils/localStorage.ts:31 | No contact still has the removed id. |
| LocalStorage.WithoutContactKeepsOthers | src/utils/localStorage.ts:29-33 | The result is a subsequence of the input. Every contact with another id keeps its multiplicity, and one with the id has none. |
| LocalStorage.WithoutAbsentContact | src/utils/localStorage.ts:29-33 | Deleting an id no contact has leaves the list unchanged. |
| LocalStorage.WithoutContactTwice | src/utils/localStorage.ts:29-33 | Deleting the same id twice is the same as deleting it once. |
| LocalStorage.WithoutGroup | src/contexts/GroupContext.tsx:101 | No group still has the removed id. |
| LocalStorage.WithoutGroupKeepsOthers | src/contexts/GroupContext.tsx:101 | Subsequence, and multiplicities kept for every other id. |
| LocalStorage.RenameGroup | src/contexts/GroupContext.tsx:78-80 | Same length and ids. Each group with the id takes the new name, and every other group keeps its own. |
| LocalStorage.RenameAbsentGroup | src/contexts/GroupContext.tsx:78-80 | Renaming by an id no group has changes nothing. |
| LocalStorage.Ungroup | src/contexts/GroupContext.tsx:105-107 | Same length. No contact references the group afterwards. Contacts that did reference it lose only their `groupId`, and all others are unchanged. |
| LocalStorage.Storage.Empty | src/utils/localStorage.ts:4 | A store with nothing saved. |
| LocalStorage.Storage.GetContacts | src/utils/localStorage.ts:10-13 | Returns the saved list, or `[]` when nothing is saved. |
| LocalStorage.Storage.SaveContacts | src/utils/localStorage.ts:20-22 | The entry becomes the list, so a later read returns it. The groups are untouched. |
| LocalStorage.Storage.DeleteContact | src/utils/localStorage.ts:29-33 | The entry becomes the old list without the id. It is written even when nothing was removed. |
| LocalStorage.Storage.GetGroups | src/contexts/GroupContext.tsx:93 | Returns the saved group list, or `[]` when nothing is saved. |
| LocalStorage.Storage.SaveGroups | src/contexts/GroupContext.tsx:65 | The group entry becomes the list, and the contacts are untouched. |
| LocalStorage.Storage.CreateGroup | src/utils/contactServices.ts:115 | The group is appended to the saved groups. |
| LocalStorage.Storage.UpdateGroup | src/utils/contactServices.ts:122 | The saved groups with the id are renamed. |
| LocalStorage.Storage.DeleteGroup | src/utils/contactServices.ts:128 | The saved groups with the id are dropped. |
| GroupContext.NameTaken | src/contexts/GroupContext.tsx:61 | The duplicate test of `addGroup`: some group has the name. GroupProvider.AddGroup returns true exactly when it fails. |
| GroupContext.NameTakenByOther | src/contexts/GroupContext.tsx:76 | The duplicate test of `updateGroup`: some group with another id has the name. GroupProvider.UpdateGroup returns true exactly when it fails. |
| GroupContext.AppendKeepsNamesDistinct | src/contexts/GroupContext.tsx:60-68 | Appending a group whose name is free keeps group names distinct. |
| GroupContext.RenameKeepsNamesDistinct | src/contexts/GroupContext.tsx:75-84 | With unique ids, a rename that the duplicate check permits keeps names distinct. |
| GroupContext.RenameNeedsUniqueIds | src/contexts/GroupContext.tsx:76-80 | Without unique ids, a permitted rename can leave two groups with one name. |
| GroupContext.GroupProvider.constructor | src/contexts/GroupContext.tsx:45-48 | No groups, and no recently created group. |
| GroupContext.GroupProvider.Load | src/contexts/GroupContext.tsx:51-53 | The list becomes the stored groups. |
| GroupContext.GroupProvider.AddGroup | src/contexts/GroupContext.tsx:60-68 | Returns true exactly when no group has the name. On refusal nothing changes. On success the group is appended and saved, and becomes the recently created one. Distinct names are preserved. |
| GroupContext.GroupProvider.UpdateGroup | src/contexts/GroupContext.tsx:75-84 | Returns true exactly when no other group has the name. On refusal nothing changes. On success the list is renamed and saved, and an unknown id leaves it as it was. With unique ids, distinct names are preserved. |
| GroupContext.NotFound | src/contexts/GroupContext.tsx:96 | The error `Group with ID ${id} not found` with status 404. HandleDeleteGroup states when it arises. |
| GroupContext.DeleteFailure | src/contexts/GroupContext.tsx:111-114 | The re-raised error `Failed to delete group with ID ${id}: ${cause.message}` with status 500. HandleDeleteGroup states when it is returned. |
| GroupContext.GroupProvider.HandleDeleteGroup | src/contexts/GroupContext.tsx:91-116 | An id the store lacks gives the re-raised not-found error (status 500) and writes nothing. Otherwise the group is gone from the store and from the list, and every stored contact referencing it is detached. |
| GroupContext.GroupProvider.ClearRecentlyCreatedGroupId | src/contexts/GroupContext.tsx:122-124 | The recently created id becomes null. |
| GroupContext.DeleteDetachesExactly | src/contexts/GroupContext.tsx:104-108 | After the delete no contact references the group. Every other field is kept, and a `groupId` changes exactly when it was the deleted one. |
| ContactContext.MatchesQuery | src/contexts/ContactContext.tsx:110-112 | The search test: the lowercased name includes the lowercased query. FilteredContacts and FilteredContactsExactly state what filtering by it keeps. |
| ContactContext.FilteredContacts | src/contexts/ContactContext.tsx:109-113 | Every kept contact's lowercased name contains the lowercased query. |
| ContactContext.FilteredContactsExactly | src/contexts/ContactContext.tsx:109-113 | A matching contact keeps its multiplicity, a non-matching one has none, and the list order is kept. |
| ContactContext.EmptyQueryKeepsAll | src/contexts/ContactContext.tsx:109-113 | The empty query keeps every contact. |
| ContactContext.Insert | src/contexts/ContactContext.tsx:134-136 | One insertion step of the sort adds exactly `x` to the multiset. |
| ContactContext.InsertSorted | src/contexts/ContactContext.tsx:134-136 | Inserting into a sorted list keeps it sorted. |
| ContactContext.InsertStable | src/contexts/ContactContext.tsx:134-136 | Among contacts of its own rank, `x` goes first, and the others of that rank keep their order. |
| ContactContext.SortByName | src/contexts/ContactContext.tsx:134-136 | The output is sorted by name rank and is a permutation of the input. |
| ContactContext.SortByNameStable | src/contexts/ContactContext.tsx:134-136 | The sort is stable: each rank's contacts keep their original order. |
| ContactContext.KanaKey | src/contexts/ContactContext.tsx:162-182 | The branches after `[A-Z]`: the first kana row whose class matches gives its head, and `#` is the fallback. KanaKeyInOrder proves every result is a key of `grouppOrder`. |
| ContactContext.FirstLetterInOrder | src/contexts/ContactContext.tsx:157-182 | Every non-empty `firstChar` gets a key in `grouppOrder`. `A`–`Z` keys under itself, and anything else under a kana row head or `#`. |
| ContactContext.UpperLatinChar | src/contexts/ContactContext.tsx:160 | `[A-Z]` accepts exactly `A`–`Z`. |
| ContactContext.KanaKeyInOrder | src/contexts/ContactContext.tsx:162-182 | The kana classification always yields a key of `grouppOrder`. |
| ContactContext.LatinKeyInOrder | src/contexts/ContactContext.tsx:139-140 | Each letter `A`–`Z` is a key, at its alphabet position. |
| ContactContext.OrderKeysAreSingleCharacters | src/contexts/ContactContext.tsx:139-152 | Every key of `grouppOrder` is one character long. |
| ContactContext.OrderDistinct | src/contexts/ContactContext.tsx:139-152 | No key occurs twice in `grouppOrder`. |
| ContactContext.FirstLetterAsWritten | src/contexts/ContactContext.tsx:160-182 | The `firstLetter` chain as written: a `firstChar` starting with `A`–`Z` is its own key, whole, and anything else takes the kana row head or `#`. MultiCharacterUppercaseIsDropped and FirstLetterOnOneCharacter state what it does. |
| ContactContext.FirstLetter | src/contexts/ContactContext.tsx:160-182 | The corrected key: the first character alone when it is `A`–`Z`, and otherwise the kana row head or `#`. FirstLetterInOrder proves it always lies in `grouppOrder`. |
| ContactContext.MultiCharacterUppercaseIsDropped | src/contexts/ContactContext.tsx:157-161 | As written, the two-character uppercase `SS` of `ß` keys under `SS`, which is not in `grouppOrder`. |
| ContactContext.FirstLetterOnOneCharacter | src/contexts/ContactContext.tsx:157-182 | On a one-character `firstChar`, the written and the corrected classification agree. |
| ContactContext.TwoRanges | src/contexts/ContactContext.tsx:162-175 | A two-range class such as `[あ-おア-オ]` accepts exactly the characters inside either range. |
| ContactContext.SixChars | src/contexts/ContactContext.tsx:176-181 | A six-character class such as `[やゆよヤユヨ]` accepts exactly those characters. |
| ContactContext.CharKeyIsFirstLetter | src/contexts/ContactContext.tsx:160-182 | The comparison form of the classification equals the regular-expression chain, on every character. |
| ContactContext.NameKey | src/contexts/ContactContext.tsx:157-182 | The key of a non-empty name is one character long. |
| ContactContext.NameKeyIsFirstLetter | src/contexts/ContactContext.tsx:157-182 | The key of a non-empty name is the regular-expression classification of its uppercased first character. |
| ContactContext.NameKeyInOrder | src/contexts/ContactContext.tsx:139-182 | The key of every non-empty name is one of the keys of `grouppOrder`. |
| ContactContext.Index | src/contexts/ContactContext.tsx:189-192 | Every entry has a key from the key list, with a non-empty bucket that holds exactly that key's contacts. |
| ContactContext.IndexComplete | src/contexts/ContactContext.tsx:190-192 | Every key with a non-empty bucket has an entry. |
| ContactContext.IndexAppend | src/contexts/ContactContext.tsx:190-192 | The index over `a + b` is the index over `a` followed by the index over `b`. |
| ContactContext.IndexKeysInKeyOrder | src/contexts/ContactContext.tsx:189-192 | The index lists its keys in `grouppOrder` order. |
| ContactContext.IndexFlattenCount | src/contexts/ContactContext.tsx:190-192 | With distinct keys, the buckets together hold each keyed contact as often as it occurs. |
| ContactContext.EveryNameHasAKey | src/contexts/ContactContext.tsx:157-182 | Every contact with a non-empty name falls in some bucket of `grouppOrder`. |
| ContactContext.PushContact | src/contexts/ContactContext.tsx:184-186 | One `push` step keeps the bucket map equal to the buckets of the contacts visited so far. |
| ContactContext.IndexSnoc | src/contexts/ContactContext.tsx:191 | One more key adds its entry exactly when its bucket is non-empty. |
| ContactContext.NamesNonEmptyPermuted | src/contexts/ContactContext.tsx:134-157 | Sorting creates no empty name and removes none. |
| ContactContext.GroupedContacts | src/contexts/ContactContext.tsx:132-194 | Fails exactly when some filtered contact has an empty name (`name[0]` is undefined and throws). Otherwise the result is the index of the name-sorted contacts over `grouppOrder`. |
| ContactContext.BucketByKey | src/contexts/ContactContext.tsx:155-187 | The `forEach` fails exactly on an empty name. Otherwise it builds exactly the bucket map of the list. |
| ContactContext.VisitContact | src/contexts/ContactContext.tsx:156-186 | One step of the `forEach`: after pushing a contact, the map holds exactly the buckets of the contacts seen so far, that contact included. |
| ContactContext.ListBuckets | src/contexts/ContactContext.tsx:189-192 | The `filter`/`map` over the keys produces exactly the index. |
| ContactContext.GroupedIsPermutation | src/contexts/ContactContext.tsx:132-194 | With non-empty names, the buckets together are a permutation of the filtered contacts. |
| ContactContext.GroupedBucketsOrdered | src/contexts/ContactContext.tsx:132-194 | Each bucket is a subsequence of the sorted list and is sorted by name. The keys come in `grouppOrder` order. |
| ContactContext.Toggle | src/contexts/ContactContext.tsx:227-233 | `id` becomes selected exactly when it was not, and every other id keeps its status. An unselected id is appended at the end. Removing a selected id keeps the other ids in their order, each as often as before. |
| ContactContext.ToggleKeepsDistinct | src/contexts/ContactContext.tsx:227-233 | Toggling keeps the selection free of repetitions. |
| ContactContext.ToggleTwice | src/contexts/ContactContext.tsx:227-233 | Toggling an unselected id twice restores the selection. |
| ContactContext.Ids | src/contexts/ContactContext.tsx:201 | `map(contact => contact.id)`: the ids, one per contact, in order. |
| ContactContext.DeleteAllSelected | src/contexts/ContactContext.tsx:239-241 | Selecting all and deleting the selection leaves nothing. |
| ContactContext.DeleteSelectedExactly | src/contexts/ContactContext.tsx:239-241 | A bulk delete keeps exactly the unselected contacts, with their multiplicities and order. |
| ContactContext.DeleteStep | src/contexts/ContactContext.tsx:240 | Deleting one more id equals keeping the contacts that none of the ids so far names. |
| ContactContext.DeleteNone | src/contexts/ContactContext.tsx:239-241 | Deleting an empty selection keeps every contact. |
| ContactContext.ContactProvider.constructor | src/contexts/ContactContext.tsx:84-91 | The initial state of every `useState`. |
| ContactContext.ContactProvider.Filtered | src/contexts/ContactContext.tsx:109-113 | The filtered list of the current state matches the current query. |
| ContactContext.ContactProvider.Grouped | src/contexts/ContactContext.tsx:132-194 | `groupedContacts` is computed from the provider's own filtered list. It fails exactly when a filtered contact has an empty name. Otherwise it is the index of the sorted filtered contacts, and its buckets together hold every filtered contact as often as it occurs. |
| ContactContext.ContactProvider.UpdateContacts | src/contexts/ContactContext.tsx:97-99 | `contacts` becomes the stored list, and everything else is unchanged. |
| ContactContext.ContactProvider.SetSearchQuery | src/contexts/ContactContext.tsx:85 | Only the query changes. |
| ContactContext.ContactProvider.HandleNewContact | src/contexts/ContactContext.tsx:217-220 | The dialog opens with no contact to edit, and nothing else changes. |
| ContactContext.ContactProvider.HandleMultipleSelected | src/contexts/ContactContext.tsx:227-233 | The selection becomes its toggle, and nothing else changes: `id` flips, and on removal the other ids keep their order and multiplicity. |
| ContactContext.ContactProvider.SelectAllContacts | src/contexts/ContactContext.tsx:200-202 | The selection becomes every contact's id, filtered out or not. |
| ContactContext.ContactProvider.DeselectAllContacts | src/contexts/ContactContext.tsx:208-210 | The selection becomes empty. |
| ContactContext.DeleteEach | src/contexts/ContactContext.tsx:240 | After `selectedContacts.forEach(id => deleteContact(id))` the store keeps exactly the contacts that no selected id names. With no id, the store is not written at all. The groups are untouched. |
| ContactContext.DeleteNext | src/contexts/ContactContext.tsx:240 | One `deleteContact(id)` of that loop removes the contacts of one more id and leaves the groups alone. |
| ContactContext.ContactProvider.HandleDeleteMultiple | src/contexts/ContactContext.tsx:239-244 | The store keeps exactly the unselected contacts, and is not written at all for an empty selection. `contacts` reloads, the selection empties, the success message clears, and the groups are untouched. |
| ContactServices.RouteId | src/utils/contactServices.ts:44 | `params.id?.toString() \|\| null`: the id exactly when it is present and non-empty. |
| ContactServices.GetContactsList | src/utils/contactServices.ts:27-36 | No selection, the stored contacts, and no groups. |
| ContactServices.GetContactsEdit | src/utils/contactServices.ts:43-61 | Succeeds exactly when the route id is truthy and some stored contact has it. It then returns the first such contact with all contacts and groups. Otherwise the error is `Contact with ID <id or null> not found`. |
| ContactServices.GetContactsNew | src/utils/contactServices.ts:67-84 | The blank contact with all contacts and groups. |
| ContactServices.GetGroupsList | src/utils/contactServices.ts:91-94 | The stored groups. |
| ContactServices.GetGroupNew | src/utils/contactServices.ts:146-155 | The blank group and no groups. |
| ContactServices.GetGroup | src/utils/contactServices.ts:163-188 | Without an id: the blank group. With an id: ok exactly when some group has it, and then the first such group with all groups. Otherwise `Group with ID <id> not found`. |
| ContactServices.GetGroupWithoutId | src/utils/contactServices.ts:163-175 | Without an id, the edit loader returns what the "new" loader returns. |
| ContactServices.EditFindsStoredContact | src/utils/contactServices.ts:43-61 | With unique ids, every stored contact with a non-empty id is found by the edit loader. |
| ContactServices.BlankContactRejected | src/utils/contactServices.ts:71-78 | The "new" form's blank contact fails validation on its blank name. |
| ContactServices.BlankGroupRejected | src/utils/contactServices.ts:146-155 | The blank group fails validation on its blank name. |
| ContactServices.CreatedGroupFound | src/utils/contactServices.ts:176-187 | A group appended under a fresh id is found by the edit loader. |
| ContactServices.FormGroup | src/utils/contactServices.ts:111-114 | Each field is the form's value, or `''` when it is missing or empty. |
| ContactServices.GroupAction | src/utils/contactServices.ts:101-133 | POST appends, PATCH renames, and DELETE with an id deletes; each redirects to `/groups`. A missing method, a DELETE without an id, and any other method each raise their own message and write nothing. The contacts are never touched. |
| CsvImport.RowError | src/components/CSVImport/CSVImport.tsx:63 | The message `Row ${n}: 連絡先データが無効です` for the 1-based row number `n`. RowErrorInjective proves different rows get different messages. |
| CsvImport.RowErrorInjective | src/components/CSVImport/CSVImport.tsx:63 | Different row numbers give different messages. |
| CsvImport.Conversions | src/components/CSVImport/CSVImport.tsx:60-61 | One conversion per row, in row order. |
| CsvImport.Verdicts | src/components/CSVImport/CSVImport.tsx:62 | One validation per converted row, in row order. |
| CsvImport.RejectedRows | src/components/CSVImport/CSVImport.tsx:60-67 | A number is listed exactly when it is a row (from 1) whose contact was rejected. |
| CsvImport.RejectedRowsAscending | src/components/CSVImport/CSVImport.tsx:60-67 | The rejected rows are listed in increasing order. |
| CsvImport.EveryRowCounted | src/components/CSVImport/CSVImport.tsx:60-67 | Each row is either accepted or reported, never both. |
| CsvImport.AcceptedContacts | src/components/CSVImport/CSVImport.tsx:58-66 | `validContacts`: the converted contacts whose validation passed, in row order. EveryRowCounted, AcceptedAreValid and CleanImportAddsEveryRow state its properties. |
| CsvImport.GroupRequests | src/utils/csvConverter.ts:21-25 | The names passed to `addGroup`, one per converting row that requested one, in row order. RepeatedGroupRequests and RejectedRowStillCreatesGroup state its consequences. |
| CsvImport.Messages | src/components/CSVImport/CSVImport.tsx:63 | One message per rejected row, naming that row. |
| CsvImport.MessageNamesRow | src/components/CSVImport/CSVImport.tsx:63 | A row's message is present exactly when its number is listed. |
| CsvImport.ErrorsNameRejectedRows | src/components/CSVImport/CSVImport.tsx:60-67 | There is an error for row `k` exactly when row `k` was rejected. |
| CsvImport.AcceptedAreValid | src/components/CSVImport/CSVImport.tsx:62-66 | Every contact the batch would add passes the validation. |
| CsvImport.ProcessRows | src/components/CSVImport/CSVImport.tsx:56-67 | The loop's error list, accepted contacts and group requests equal the batch specification over the rows. |
| CsvImport.DuplicateRowsBothAccepted | src/components/CSVImport/CSVImport.tsx:60-67 | Rows are not checked against each other, so two identical acceptable rows are both added. |
| CsvImport.RepeatedGroupRequests | src/components/CSVImport/CSVImport.tsx:61 | Two rows naming the same missing group ask `addGroup` twice. |
| CsvImport.RejectedRowStillCreatesGroup | src/components/CSVImport/CSVImport.tsx:61-63 | A rejected row still asks `addGroup` for its missing group, even though nothing is imported. |
| CsvImport.CleanImportAddsEveryRow | src/components/CSVImport/CSVImport.tsx:65-72 | When no row is rejected, every row's contact is added once, in row order. |
| CsvImport.CommitAsWritten | src/components/CSVImport/CSVImport.tsx:71-74 | As written: the call of the undefined `addContact` throws exactly when the batch is clean and not empty. The file is cleared exactly when the batch is clean and empty. |
| CsvImport.CleanImportThrowsAsWritten | src/components/CSVImport/CSVImport.tsx:71-74 | As written, every clean import of at least one row throws before any contact is added or the file is cleared. |
| CsvImport.CsvImporter.constructor | src/components/CSVImport/CSVImport.tsx:20-21 | No file and no errors. |
| CsvImport.CsvImporter.HandleFileChange | src/components/CSVImport/CSVImport.tsx:28-35 | No file selected: the state is kept. Otherwise the file is set. |
| CsvImport.CsvImporter.Complete | src/components/CSVImport/CSVImport.tsx:56-76 | The errors are the rejected rows' messages, and every group request is made. A clean batch adds every accepted contact in row order and clears the file. A dirty batch adds nothing and keeps the file. |
| CsvImport.CsvImporter.HandleImport | src/components/CSVImport/CSVImport.tsx:41-80 | No file, or empty text: no change. Otherwise the errors are the rejected rows' messages and `addGroup` has been called for every requesting row. On a clean batch the contacts are added in row order and the file is cleared. On a dirty batch nothing is added and the file is kept. |
| CsvExport.TwoDigitsValue | src/components/CSVExport/CSVExport.tsx:15-19 | Below 100, `padStart(2, '0')` gives exactly two digits that read back as the number. |
| CsvExport.YearDigitsValue | src/components/CSVExport/CSVExport.tsx:14 | `String(y).slice(-2)` reads back as `y % 100`, and has two digits exactly from the year 10 on. |
| CsvExport.TwoDigits | src/components/CSVExport/CSVExport.tsx:15-19 | `String(n).padStart(2, '0')` has at least two characters, all ASCII digits. TwoDigitsValue gives its value below 100. |
| CsvExport.YearDigits | src/components/CSVExport/CSVExport.tsx:14 | `String(year).slice(-2)` has one or two characters, all ASCII digits. YearDigitsValue gives its value. |
| CsvExport.FormattedDate | src/components/CSVExport/CSVExport.tsx:12-21 | The six fields of the moment concatenated: two-digit year, then month from 1, day, hours, minutes and seconds, each padded to two digits. FormattedDateReadsBack and FormattedDateDistinguishes state what it encodes. |
| CsvExport.ReadStamp | src/components/CSVExport/CSVExport.tsx:11 | A reader for the `yyMMddHHmmss` format of the comment. It succeeds exactly on twelve ASCII digits. |
| CsvExport.FormattedDateReadsBack | src/components/CSVExport/CSVExport.tsx:12-21 | From the year 10 on, the stamp reads back as the year mod 100, the month from 1, and the day, hours, minutes and seconds. |
| CsvExport.ShortYearStamp | src/components/CSVExport/CSVExport.tsx:14 | Before the year 10 the stamp has eleven characters and is not in the format. |
| CsvExport.FormattedDateDistinguishes | src/components/CSVExport/CSVExport.tsx:12-21 | Two in-range times share a stamp exactly when they agree on everything but the century. |
| CsvExport.ConcatFields | src/components/CSVExport/CSVExport.tsx:12-21 | Equal components give equal stamps, whatever the century. |
| CsvExport.FileName | src/components/CSVExport/CSVExport.tsx:32 | The name is `contact_data_`, then the stamp, then `.csv`. |
| CsvExport.FileNameInjective | src/components/CSVExport/CSVExport.tsx:32 | Different stamps give different file names. |
| CsvExport.ExportFileName | src/components/CSVExport/CSVExport.tsx:32 | The name for a moment has the fixed prefix and suffix. |
| CsvExport.ExportFileNameLength | src/components/CSVExport/CSVExport.tsx:32 | From the year 10 on, the name is 29 characters long. |
| ApplicationHeader.AnyLine | src/components/ApplicationHeader/ApplicationHeader.tsx:20 | `.*` accepts exactly the strings with no line terminator. |
| ApplicationHeader.SubPathMatches | src/components/ApplicationHeader/ApplicationHeader.tsx:20 | `(\/.*)?` accepts nothing at all, or a slash followed by one line. |
| ApplicationHeader.LiteralThenSubPath | src/components/ApplicationHeader/ApplicationHeader.tsx:31 | A literal followed by `(\/.*)?` accepts exactly the literal, alone or followed by `/` and one line. |
| ApplicationHeader.ContactsPatternIff | src/components/ApplicationHeader/ApplicationHeader.tsx:20 | `/^\/(contacts(\/.*)?)?$/` accepts exactly `/`, `/contacts`, and `/contacts/` followed by one line. |
| ApplicationHeader.GroupsPatternIff | src/components/ApplicationHeader/ApplicationHeader.tsx:31 | `/^\/groups(\/.*)?$/` accepts exactly `/groups`, and `/groups/` followed by one line. |
| ApplicationHeader.ShowsContactsLink | src/components/ApplicationHeader/ApplicationHeader.tsx:20 | The guard `!/^\/(contacts(\/.*)?)?$/.test(location.pathname)` that renders the "Contacts" link. LinksShown proves it holds exactly off the contact pages. |
| ApplicationHeader.ShowsGroupsLink | src/components/ApplicationHeader/ApplicationHeader.tsx:31 | The guard `!/^\/groups(\/.*)?$/.test(location.pathname)` that renders the "Groups" link. LinksShown proves it holds exactly off the group pages. |
| ApplicationHeader.LinksShown | src/components/ApplicationHeader/ApplicationHeader.tsx:20-31 | Each link is shown exactly when the path is outside its own section. |
| ApplicationHeader.SomeLinkShown | src/components/ApplicationHeader/ApplicationHeader.tsx:20-31 | No path lies in both sections, so at least one link is always shown. |
| ApplicationHeader.SectionsDisjoint | src/components/ApplicationHeader/ApplicationHeader.tsx:20-31 | No path is both a contact page's path and a group page's path. |
| ApplicationHeader.OptionalLiteralThenSubPath | src/components/ApplicationHeader/ApplicationHeader.tsx:20 | `(w(\/.*)?)?` matches nothing at all, `w` itself, or `w` followed by a slash and one line. |
| ApplicationHeader.ContactsTail | src/components/ApplicationHeader/ApplicationHeader.tsx:20 | What may follow the leading slash of a path the contacts pattern accepts. |
| ApplicationHeader.ContactsPathSplit | src/components/ApplicationHeader/ApplicationHeader.tsx:20 | A path starting with a slash is a contact page's path exactly when what follows the slash has that shape. |
| ApplicationHeader.SegmentsAreWhole | src/components/ApplicationHeader/ApplicationHeader.tsx:20-31 | `/contactsX` and `/groupsX`, for any `X` other than a slash, are in neither section. |

## Left out

- `JSON.stringify`/`JSON.parse` and the browser's `localStorage` API are left out. A store entry holds the list it was saved with, and an absent key is `None`.
- The group helpers `getGroups`, `saveGroups`, `createGroup`, `updateGroup` and `deleteGroup` are imported from `src/utils/localStorage.ts`, but that file does not define them. They are modelled from their use: read with a `[]` default, overwrite, append, rename by id, and filter by id. The group list sits beside the contact list.
- `Text.LowerAscii`: `toLowerCase` is modelled on ASCII letters only. Unicode case mapping is not modelled.
- `ContactContext.NameKey`: `toUpperCase` is modelled on ASCII letters only, so the `ß` to `SS` expansion appears only in the as-written finding below. Names starting with `ſ` (U+017F, uppercased `S`) or `ı` (U+0131, uppercased `I`) are keyed under `S` and `I` by the source, but under `#` by the model. `GroupedIsPermutation` relies on this ASCII-only uppercasing: with the source's Unicode uppercasing, a `ß` name falls outside every bucket. Strings are sequences of code points, not UTF-16 code units, so `name[0]` of a character outside the BMP is not modelled.
- `ContactContext.SortByName`: `localeCompare(…, 'ja')` is abstracted as a numeric collation rank, a parameter. The engine's sort is modelled as a stable insertion sort, which ECMAScript 2019+ requires of `Array.prototype.sort`.
- `ContactContext.GroupedContacts`: the result is the ordered list of `[key, bucket]` entries that `Object.fromEntries` receives. No key of `grouppOrder` is an array index, so the object keeps its keys in insertion order, which is this list's order; the object itself is not a separate value in the model.
- `handleAlphabetClick` and `listRefs` only scroll the page, so they are left out.
- The `useEffect`, `useMemo` and `useCallback` scheduling, re-renders, and the context plumbing are not modelled. Each handler is a method applied to the current state.
- `CsvImport.CsvImporter.HandleImport`: several things are parameters or assumptions here.
  - `FileReader` and `readString` (papaparse) are foreign. The file is its text, and the parser is a parameter.
  - The read is asynchronous, and that is not modelled.
  - The callback's `contacts`, `groups` and `addGroup` are the values the component rendered with. They are parameters for the whole batch.
  - `addContact` is not a member of the contact context's type or provider (see the finding below). `CsvImporter` records the calls the component evidently intends to make to it, and the calls to `addGroup`, in order. Their effects are not modelled.
- `addGroup` has two signatures in the source. The converter expects `(groupName: string) => Group`, but the group context's `addGroup` takes a `Group` and returns a boolean. The converter's signature is modelled, as a function parameter.
- `src/components/CSVImport/CSVImport.tsx:3-4` and `src/components/CSVExport/CSVExport.tsx:3` default-import `useContacts` and `useGroups`. But `src/contexts/useContacts.ts:16` and `src/contexts/useGroups.ts:10` export them by name only. As written, these imports do not resolve: the module fails to link, or the component throws at render. `CsvImport` and `CsvExport` model both components as if the imports resolved to the named hooks.
- `alert`, `console.log` and `console.error` are left out.
- `CsvExport.FormattedDate`: `Date` and the clock are left out. The getters' results are a parameter, and negative years are not modelled (the year is a `nat`).
- `handleExport` is left out. It builds the CSV text with papaparse's `jsonToCSV(contacts)`, a `Blob` and a download link, which is foreign and DOM work.
- `ContactServices.GroupAction`: the request method and form fields are parameters, `request.formData()` is foreign, and `redirect` is its target path.
- The route loaders take the lists `getContacts()`/`getGroups()` return as parameters, and a thrown `Error` is an `Err` carrying its message.
- `GroupContext.GroupProvider.HandleDeleteGroup`: `handleDeleteGroup` is `async`, so its re-thrown error rejects the returned `Promise`. The model returns that rejection as `Some(AppError)`, and a fulfilled `Promise` as `None`.
- The test for `getContactsList` expects the stored groups. The code returns `[]`, and the code is modelled.

## Findings

| source | as written | input that shows it | evidently intended | confidence | as-written member | corrected member |
|---|---|---|---|---|---|---|
| src/contexts/ContactContext.tsx:157-161 | `firstChar = contact.name[0].toUpperCase()` can be several characters, and `/^[A-Z]/` then keys the contact under the whole string | a name starting with `ß`: `toUpperCase` gives `SS`, the key `SS` is not in `grouppOrder`, and the contact disappears from `groupedContacts` | key by the first character, so the contact is listed under `S` | not executed | ContactContext.MultiCharacterUppercaseIsDropped | ContactContext.FirstLetterInOrder |
| src/components/CSVImport/CSVImport.tsx:72 | Once the default imports at lines 3-4 resolve to the named hooks, `addContact` is taken from `useContacts()`, but the provider value (src/contexts/ContactContext.tsx:247-270) has no `addContact`, so it is `undefined` and `addContact(contact)` throws a `TypeError` | any CSV file whose rows are all accepted, such as a header line `contactId,groupName,fullName,phone,memo` followed by the single row `1,Friends,John Doe,099-9999-9999,Test memo`, with no stored contact named `John Doe` (`readString` runs with `header: true`, and `validateContact` rejects a taken name): the errors are cleared, then the first `addContact` call throws, so no contact is added and neither the success alert nor `setFile(null)` happens | every accepted contact is added in row order, then the file is cleared | not executed | CsvImport.CleanImportThrowsAsWritten | CsvImport.CsvImporter.Complete |
