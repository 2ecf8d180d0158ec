/**
 * The batch rule of `src/components/CSVImport/CSVImport.tsx`: every parsed row is converted
 * with `csvToContact` and validated with `validateContact(contact, contacts, false)` against
 * the contact list as it was before the import; each rejected row adds one numbered error;
 * the accepted contacts are added only when no row was rejected. Reading the file and
 * parsing the CSV text are foreign: the parser is a parameter, and the calls the component
 * makes to `addContact` and `addGroup` are recorded in logs.
 */
module CsvImport {
  import opened Common
  import opened Text
  import opened Types
  import opened Validation
  import opened CsvConverter

  /** The message pushed for a rejected row, numbered from 1. */
  function RowError(rowNumber: nat): string
  {
    "Row " + Decimal(rowNumber) + ": 連絡先データが無効です"
  }

  /** Different rows get different messages. */
  lemma RowErrorInjective(a: nat, b: nat)
    requires RowError(a) == RowError(b)
    ensures a == b
  {
    FramedEqual("Row ", Decimal(a), Decimal(b), ": 連絡先データが無効です");
    DecimalRoundTrip(a);
    DecimalRoundTrip(b);
  }

  /** Strings equal once framed by the same prefix and suffix are equal. */
  lemma FramedEqual(prefix: string, x: string, y: string, suffix: string)
    requires prefix + x + suffix == prefix + y + suffix
    ensures x == y
  {
    var s := prefix + x + suffix;
    assert |x| == |y|;
    assert x == s[|prefix|..|prefix| + |x|];
    assert y == (prefix + y + suffix)[|prefix|..|prefix| + |y|];
  }

  /** `csvRow => csvToContact(csvRow, contacts, groups, addGroup)`, closed over the lists the component rendered with. */
  function Converter(contacts: seq<Contact>, groups: seq<Group>, addGroup: string -> Group): CSVContact -> Conversion
  {
    (row: CSVContact) => CsvToContact(row, contacts, groups, addGroup)
  }

  /** `contact => validateContact(contact, contacts, false)`: a row is validated as a new contact against the same list. */
  function Validator(contacts: seq<Contact>): Contact -> bool
  {
    (c: Contact) => ValidateContact(c, contacts, false)
  }

  /** Each row converted. */
  function Conversions(rows: seq<CSVContact>, convert: CSVContact -> Conversion): (r: seq<Conversion>)
    ensures |r| == |rows|
    ensures forall i :: 0 <= i < |r| ==> r[i] == convert(rows[i])
  {
    seq(|rows|, i requires 0 <= i < |rows| => convert(rows[i]))
  }

  /** The validation of each converted row. */
  function Verdicts(convs: seq<Conversion>, valid: Contact -> bool): (r: seq<bool>)
    ensures |r| == |convs|
    ensures forall i :: 0 <= i < |r| ==> r[i] == valid(convs[i].contact)
  {
    seq(|convs|, i requires 0 <= i < |convs| => valid(convs[i].contact))
  }

  /** The numbers (from 1) of the rejected rows, in row order. */
  function RejectedRows(verdicts: seq<bool>): (r: seq<nat>)
    ensures forall k :: k in r <==> 1 <= k <= |verdicts| && !verdicts[k - 1]
  {
    if verdicts == [] then []
    else
      var n := |verdicts|;
      var prev := RejectedRows(verdicts[..n - 1]);
      assert forall j :: 0 <= j < n - 1 ==> verdicts[..n - 1][j] == verdicts[j];
      prev + if verdicts[n - 1] then [] else [n]
  }

  /** The rejected rows are listed in increasing order, so the errors come in row order. */
  lemma {:induction false} RejectedRowsAscending(verdicts: seq<bool>)
    ensures forall i, j :: 0 <= i < j < |RejectedRows(verdicts)| ==> RejectedRows(verdicts)[i] < RejectedRows(verdicts)[j]
  {
    if verdicts != [] {
      var n := |verdicts|;
      var prev := RejectedRows(verdicts[..n - 1]);
      RejectedRowsAscending(verdicts[..n - 1]);
      var r := RejectedRows(verdicts);
      forall i, j | 0 <= i < j < |r| ensures r[i] < r[j] {
        if j >= |prev| {
          assert r == prev + [n] && r[j] == n;
          assert r[i] == prev[i] && prev[i] in prev;
        } else {
          assert r[i] == prev[i] && r[j] == prev[j];
        }
      }
    }
  }

  /** The converted contacts of the accepted rows, in row order. */
  function AcceptedContacts(convs: seq<Conversion>, verdicts: seq<bool>): (r: seq<Contact>)
    requires |verdicts| == |convs|
  {
    if convs == [] then []
    else
      var n := |convs|;
      var prev := AcceptedContacts(convs[..n - 1], verdicts[..n - 1]);
      prev + if verdicts[n - 1] then [convs[n - 1].contact] else []
  }

  /** Every row is either reported or accepted, never both. */
  lemma {:induction false} EveryRowCounted(convs: seq<Conversion>, verdicts: seq<bool>)
    requires |verdicts| == |convs|
    ensures |AcceptedContacts(convs, verdicts)| + |RejectedRows(verdicts)| == |convs|
  {
    if convs != [] {
      var n := |convs|;
      EveryRowCounted(convs[..n - 1], verdicts[..n - 1]);
    }
  }

  /** The names `csvToContact` passed to `addGroup`, one per call, in row order. */
  function GroupRequests(convs: seq<Conversion>): seq<string>
  {
    if convs == [] then []
    else
      var n := |convs|;
      GroupRequests(convs[..n - 1]) + if convs[n - 1].groupRequest.Some? then [convs[n - 1].groupRequest.value] else []
  }

  /** The error list for the rejected rows. */
  function Messages(rowNumbers: seq<nat>): (r: seq<string>)
    ensures |r| == |rowNumbers|
    ensures forall i :: 0 <= i < |r| ==> r[i] == RowError(rowNumbers[i])
  {
    seq(|rowNumbers|, i requires 0 <= i < |rowNumbers| => RowError(rowNumbers[i]))
  }

  /** A message names a row exactly when the row's number is listed. */
  lemma MessageNamesRow(rowNumbers: seq<nat>, k: nat)
    ensures RowError(k) in Messages(rowNumbers) <==> k in rowNumbers
  {
    var msgs := Messages(rowNumbers);
    if RowError(k) in msgs {
      var i :| 0 <= i < |msgs| && msgs[i] == RowError(k);
      RowErrorInjective(rowNumbers[i], k);
    }
  }

  /** A row is reported exactly when it is rejected, and its message names it. */
  lemma {:induction false} ErrorsNameRejectedRows(verdicts: seq<bool>, k: nat)
    ensures RowError(k) in Messages(RejectedRows(verdicts)) <==> 1 <= k <= |verdicts| && !verdicts[k - 1]
  {
    MessageNamesRow(RejectedRows(verdicts), k);
  }

  /** Every contact the batch would add passes the validation. */
  lemma {:induction false} AcceptedAreValid(convs: seq<Conversion>, valid: Contact -> bool)
    ensures forall c :: c in AcceptedContacts(convs, Verdicts(convs, valid)) ==> valid(c)
  {
    if convs != [] {
      var n := |convs|;
      var v := Verdicts(convs, valid);
      assert v[..n - 1] == Verdicts(convs[..n - 1], valid);
      AcceptedAreValid(convs[..n - 1], valid);
      var prev := AcceptedContacts(convs[..n - 1], v[..n - 1]);
      var r := AcceptedContacts(convs, v);
      assert r == prev + if v[n - 1] then [convs[n - 1].contact] else [];
      assert v[n - 1] == valid(convs[n - 1].contact);
    }
  }

  /**
   * The `forEach` of the `complete` callback: converts each row, then validates the contact;
   * a rejected row pushes its error, an accepted one its contact. The converter and the
   * validator are closed over the lists the component rendered with, which do not change
   * during the loop: no row is validated against another row of the same file.
   */
  method ProcessRows(rows: seq<CSVContact>, convert: CSVContact -> Conversion, valid: Contact -> bool)
    returns (newErrors: seq<string>, validContacts: seq<Contact>, requests: seq<string>)
    ensures var convs := Conversions(rows, convert);
      var verdicts := Verdicts(convs, valid);
      && newErrors == Messages(RejectedRows(verdicts))
      && validContacts == AcceptedContacts(convs, verdicts)
      && requests == GroupRequests(convs)
  {
    ghost var convs := Conversions(rows, convert);
    ghost var verdicts := Verdicts(convs, valid);
    newErrors := [];
    validContacts := [];
    requests := [];
    var index := 0;
    while index < |rows|
      invariant 0 <= index <= |rows|
      invariant newErrors == Messages(RejectedRows(verdicts[..index]))
      invariant validContacts == AcceptedContacts(convs[..index], verdicts[..index])
      invariant requests == GroupRequests(convs[..index])
    {
      var conversion := convert(rows[index]);
      if conversion.groupRequest.Some? {
        requests := requests + [conversion.groupRequest.value];
      }
      RowStep(convs, verdicts, index);
      var ok := valid(conversion.contact);
      if !ok {
        newErrors := newErrors + [RowError(index + 1)];
      } else {
        validContacts := validContacts + [conversion.contact];
      }
      index := index + 1;
    }
    assert convs[..index] == convs;
    assert verdicts[..index] == verdicts;
  }

  /** What one more row adds to each of the batch's lists. */
  lemma RowStep(convs: seq<Conversion>, verdicts: seq<bool>, i: nat)
    requires i < |convs| == |verdicts|
    ensures RejectedRows(verdicts[..i + 1]) == RejectedRows(verdicts[..i]) + if verdicts[i] then [] else [i + 1]
    ensures Messages(RejectedRows(verdicts[..i]) + [i + 1]) == Messages(RejectedRows(verdicts[..i])) + [RowError(i + 1)]
    ensures AcceptedContacts(convs[..i + 1], verdicts[..i + 1]) ==
      AcceptedContacts(convs[..i], verdicts[..i]) + if verdicts[i] then [convs[i].contact] else []
    ensures GroupRequests(convs[..i + 1]) ==
      GroupRequests(convs[..i]) + if convs[i].groupRequest.Some? then [convs[i].groupRequest.value] else []
  {
    assert convs[..i + 1][..i] == convs[..i];
    assert verdicts[..i + 1][..i] == verdicts[..i];
  }

  /**
   * Rows are not validated against each other: two identical acceptable rows are both
   * added, even though they carry the same name.
   */
  lemma DuplicateRowsBothAccepted(c: Conversion, valid: Contact -> bool)
    requires valid(c.contact)
    ensures var verdicts := Verdicts([c, c], valid);
      && RejectedRows(verdicts) == []
      && AcceptedContacts([c, c], verdicts) == [c.contact, c.contact]
  {
    var verdicts := Verdicts([c, c], valid);
    assert verdicts == [true, true];
    assert verdicts[..1] == [true] && [true][..0] == [];
    assert [c, c][..1] == [c] && [c][..0] == [];
    assert AcceptedContacts([c], [true]) == [c.contact];
    assert RejectedRows([true]) == [];
  }

  /** Every row naming the same missing group asks `addGroup` for it again. */
  lemma RepeatedGroupRequests(row: CSVContact, contacts: seq<Contact>, groups: seq<Group>, addGroup: string -> Group)
    requires forall i :: 0 <= i < |groups| ==> groups[i].name != row.groupName
    requires !IsBlank(row.groupName)
    ensures GroupRequests(Conversions([row, row], Converter(contacts, groups, addGroup))) == [row.groupName, row.groupName]
  {
    var convert := Converter(contacts, groups, addGroup);
    var c := convert(row);
    assert c.groupRequest == Some(row.groupName);
    assert Conversions([row, row], convert) == [c, c];
    RequestedTwice(c);
  }

  /** Two conversions asking for a group make two requests. */
  lemma RequestedTwice(c: Conversion)
    requires c.groupRequest.Some?
    ensures GroupRequests([c, c]) == [c.groupRequest.value, c.groupRequest.value]
  {
    assert [c, c][..1] == [c] && [c][..0] == [];
    assert GroupRequests([]) == [];
    assert GroupRequests([c]) == [c.groupRequest.value];
  }

  /** A rejected row still asks `addGroup` for its missing group: the group is created although nothing is imported. */
  lemma RejectedRowStillCreatesGroup(row: CSVContact, contacts: seq<Contact>, groups: seq<Group>, addGroup: string -> Group)
    requires forall i :: 0 <= i < |groups| ==> groups[i].name != row.groupName
    requires !IsBlank(row.groupName)
    requires !ValidateContact(CsvToContact(row, contacts, groups, addGroup).contact, contacts, false)
    ensures var convs := Conversions([row], Converter(contacts, groups, addGroup));
      var verdicts := Verdicts(convs, Validator(contacts));
      && RejectedRows(verdicts) == [1]
      && AcceptedContacts(convs, verdicts) == []
      && GroupRequests(convs) == [row.groupName]
  {
    var convert := Converter(contacts, groups, addGroup);
    assert convert(row).groupRequest == Some(row.groupName);
    SingleRejectedRow(row, convert, Validator(contacts));
  }

  /** A batch of one rejected row reports row 1, adds nothing, and still makes that row's group request. */
  lemma SingleRejectedRow(row: CSVContact, convert: CSVContact -> Conversion, valid: Contact -> bool)
    requires !valid(convert(row).contact)
    ensures var convs := Conversions([row], convert);
      var verdicts := Verdicts(convs, valid);
      && RejectedRows(verdicts) == [1]
      && AcceptedContacts(convs, verdicts) == []
      && GroupRequests(convs) == if convert(row).groupRequest.Some? then [convert(row).groupRequest.value] else []
  {
    var convs := Conversions([row], convert);
    var verdicts := Verdicts(convs, valid);
    assert convs == [convert(row)] && verdicts == [false];
    assert convs[..0] == [] && verdicts[..0] == [];
  }

  /** When no row is rejected, every row's contact is added, once each and in row order. */
  lemma {:induction false} CleanImportAddsEveryRow(convs: seq<Conversion>, verdicts: seq<bool>)
    requires |verdicts| == |convs| && RejectedRows(verdicts) == []
    ensures |AcceptedContacts(convs, verdicts)| == |convs|
    ensures forall i :: 0 <= i < |convs| ==> AcceptedContacts(convs, verdicts)[i] == convs[i].contact
  {
    if convs != [] {
      var m := |convs| - 1;
      assert convs[..m + 1] == convs && verdicts[..m + 1] == verdicts;
      RowStep(convs, verdicts, m);
      var prev := RejectedRows(verdicts[..m]);
      assert |prev + if verdicts[m] then [] else [m + 1]| == 0;
      CleanImportAddsEveryRow(convs[..m], verdicts[..m]);
      var a := AcceptedContacts(convs[..m], verdicts[..m]);
      var r := AcceptedContacts(convs, verdicts);
      assert r == a + [convs[m].contact];
      forall i | 0 <= i < |convs| ensures r[i] == convs[i].contact {
        if i < m {
          assert r[i] == a[i] == convs[..m][i].contact;
        }
      }
    }
  }

  /**
   * The end of the `complete` callback as written, once the errors are set. The contact
   * context provides no `addContact`, so the name is `undefined`, and the first call of it
   * throws a `TypeError` before the success alert and `setFile(null)`. The result is the
   * thrown error, or whether the file is cleared.
   */
  function CommitAsWritten(accepted: seq<Contact>, errors: seq<string>): (r: Result<bool, string>)
    ensures r.Err? <==> errors == [] && accepted != []
    ensures r == Ok(true) <==> errors == [] && accepted == []
  {
    if errors != [] then Ok(false)
    else if accepted != [] then Err("TypeError: addContact is not a function")
    else Ok(true)
  }

  /**
   * As written, every clean import of at least one row throws, so no contact is ever added
   * and the file is never cleared. `CsvImporter.Complete` models the evidently intended
   * commit instead: every accepted contact added in row order, then the file cleared.
   */
  lemma CleanImportThrowsAsWritten(convs: seq<Conversion>, verdicts: seq<bool>)
    requires |verdicts| == |convs| && convs != [] && RejectedRows(verdicts) == []
    ensures CommitAsWritten(AcceptedContacts(convs, verdicts), Messages(RejectedRows(verdicts))).Err?
  {
    CleanImportAddsEveryRow(convs, verdicts);
  }

  /** The import component's state, and the calls it has made into the contexts. */
  class CsvImporter {
    /** The `file` state: the selected file's text, or `None`. */
    var file: Option<string>
    /** The `errors` state. */
    var errors: seq<string>
    /** Every contact passed to `addContact`, in call order. */
    var added: seq<Contact>
    /** Every name passed to `addGroup`, in call order. */
    var groupCalls: seq<string>

    constructor()
      ensures file == None && errors == [] && added == [] && groupCalls == []
    {
      file := None;
      errors := [];
      added := [];
      groupCalls := [];
    }

    /** `handleFileChange`: a change without a file alerts and keeps the state. */
    method HandleFileChange(selected: Option<string>)
      modifies this
      ensures selected.None? ==> file == old(file)
      ensures selected.Some? ==> file == selected
      ensures errors == old(errors) && added == old(added) && groupCalls == old(groupCalls)
    {
      if selected.None? {
        return;
      }
      file := selected;
    }

    /**
     * The `complete` callback on the parsed rows: the errors are set, `addGroup` has been
     * called for every row that asked for a group, and only when every row was accepted are
     * the contacts added, in row order, and the file cleared. This is the evidently intended
     * commit; as written, the call of `addContact` throws (`CommitAsWritten`).
     */
    method Complete(rows: seq<CSVContact>, convert: CSVContact -> Conversion, valid: Contact -> bool)
      modifies this
      ensures var convs := Conversions(rows, convert);
        var verdicts := Verdicts(convs, valid);
        var rejected := RejectedRows(verdicts);
        && errors == Messages(rejected)
        && groupCalls == old(groupCalls) + GroupRequests(convs)
        && (rejected == [] ==> added == old(added) + AcceptedContacts(convs, verdicts) && file == None)
        && (rejected != [] ==> added == old(added) && file == old(file))
    {
      var newErrors, validContacts, requests := ProcessRows(rows, convert, valid);
      groupCalls := groupCalls + requests;
      errors := newErrors;
      if |newErrors| == 0 {
        added := added + validContacts;
        file := None;
      }
    }

    /**
     * `handleImport()`: without a file, or with a file whose text is empty, nothing happens.
     * Otherwise the text is parsed into rows and the `complete` callback runs on them, with
     * `csvToContact` and `validateContact` closed over the lists the component rendered with.
     */
    method HandleImport(parse: string -> seq<CSVContact>, contacts: seq<Contact>, groups: seq<Group>, addGroup: string -> Group)
      modifies this
      ensures old(file).None? || old(file) == Some("") ==>
        file == old(file) && errors == old(errors) && added == old(added) && groupCalls == old(groupCalls)
      ensures old(file).Some? && old(file) != Some("") ==>
        var convs := Conversions(parse(old(file).value), Converter(contacts, groups, addGroup));
        var verdicts := Verdicts(convs, Validator(contacts));
        var rejected := RejectedRows(verdicts);
        && errors == Messages(rejected)
        && groupCalls == old(groupCalls) + GroupRequests(convs)
        && (rejected == [] ==> added == old(added) + AcceptedContacts(convs, verdicts) && file == None)
        && (rejected != [] ==> added == old(added) && file == old(file))
    {
      if file.None? || file.value == "" {
        return;
      }
      Complete(parse(file.value), Converter(contacts, groups, addGroup), Validator(contacts));
    }
  }
}
