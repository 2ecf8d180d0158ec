/**
 * `src/utils/validation.ts`: the checks a group or a contact must pass before it is saved.
 * Each check function reports the first failing rule in the order `validateContact` and
 * `validateGroup` test them (where they call `alert` and return `false`); the boolean
 * validators are "the verdict is the accepting one".
 */
module Validation {
  import opened Common
  import opened Seqs
  import opened Text
  import opened Regex
  import opened Types

  /** The outcome of `validateGroup`: accepted, or the rule that rejected the group. */
  datatype GroupVerdict = GroupAccepted | GroupNameRequired | GroupNameTaken

  /** The outcome of `validateContact`: accepted, or the first rule that rejected the contact. */
  datatype ContactVerdict =
    | ContactAccepted
    | NameOrPhoneRequired   // trimmed name or trimmed phone is empty
    | PhoneCharsetInvalid   // a character other than 0-9 and '-'
    | PhoneFormatInvalid    // without hyphens, not '0' followed by 9 or 10 digits
    | ContactNameTaken      // another contact already has this name

  /** The `some(...)` of `validateGroup`: a group named `name` that is not the edited group itself. */
  predicate GroupNameClash(group: Group, name: string, existing: seq<Group>, isEdit: bool)
  {
    exists i :: 0 <= i < |existing| && existing[i].name == name && (!isEdit || existing[i].id != group.id)
  }

  /** Which rule of `validateGroup` decides about `group`. */
  function CheckGroup(group: Group, existing: seq<Group>, isEdit: bool): (r: GroupVerdict)
    ensures r == GroupNameRequired <==> IsBlank(group.name)
    ensures r == GroupNameTaken <==> !IsBlank(group.name) && GroupNameClash(group, Trim(group.name), existing, isEdit)
    ensures r == GroupAccepted <==> !IsBlank(group.name) && !GroupNameClash(group, Trim(group.name), existing, isEdit)
  {
    var trimmedName := Trim(group.name);
    TrimBlank(group.name);
    if trimmedName == [] then GroupNameRequired
    else if GroupNameClash(group, trimmedName, existing, isEdit) then GroupNameTaken
    else GroupAccepted
  }

  /** `validateGroup(group, existingGroups, isEdit = false)`. */
  function ValidateGroup(group: Group, existing: seq<Group>, isEdit: bool := false): (ok: bool)
    ensures ok <==> !IsBlank(group.name) && !GroupNameClash(group, Trim(group.name), existing, isEdit)
  {
    CheckGroup(group, existing, isEdit) == GroupAccepted
  }

  /** A character `[0-9-]` accepts. */
  predicate IsPhoneChar(c: char)
  {
    IsAsciiDigit(c) || c == '-'
  }

  /** Every character of `t` is a digit or a hyphen. */
  predicate PhoneChars(t: string)
  {
    forall k :: 0 <= k < |t| ==> IsPhoneChar(t[k])
  }

  /** The pattern `^[0-9-]+$`. */
  const PhoneCharsetPattern: Re := Plus(Class([CharRange('0', '9'), CharRange('-', '-')]))

  /** The class `\d`. */
  const DigitClass: Re := Class([CharRange('0', '9')])

  /** The pattern `^0\d{9,10}$`. */
  const PhoneFormatPattern: Re := Concat(Char('0'), Between(DigitClass, 9, 10))

  /** `replace(/-/g, '')`. */
  function RemoveHyphens(s: string): string
  {
    Filter(s, c => c != '-')
  }

  /** The digits of `s`, in order. */
  function Digits(s: string): string
  {
    Filter(s, IsAsciiDigit)
  }

  /** A domestic number: ten or eleven ASCII digits, the first of them `0`. */
  predicate IsDomesticNumber(d: string)
  {
    (|d| == 10 || |d| == 11) && d[0] == '0' && forall i :: 0 <= i < |d| ==> IsAsciiDigit(d[i])
  }

  /** `[0-9-]` accepts exactly the digits and the hyphen. */
  lemma PhoneClassChar(c: char)
    ensures MatchesChar(Class([CharRange('0', '9'), CharRange('-', '-')]), c) <==> IsPhoneChar(c)
  {
    var ranges := [CharRange('0', '9'), CharRange('-', '-')];
    if IsPhoneChar(c) {
      if IsAsciiDigit(c) {
        assert ranges[0].lo <= c <= ranges[0].hi;
      } else {
        assert ranges[1].lo <= c <= ranges[1].hi;
      }
    }
  }

  /** `\d` accepts exactly the ASCII digits. */
  lemma DigitClassChar(c: char)
    ensures MatchesChar(DigitClass, c) <==> IsAsciiDigit(c)
  {
    if IsAsciiDigit(c) {
      assert [CharRange('0', '9')][0].lo <= c <= [CharRange('0', '9')][0].hi;
    }
  }

  /** `/^[0-9-]+$/.test(t)` holds exactly for non-empty strings of digits and hyphens. */
  lemma PhoneCharsetMatches(t: string)
    ensures FullMatch(PhoneCharsetPattern, t) <==> t != [] && PhoneChars(t)
  {
    var cls := Class([CharRange('0', '9'), CharRange('-', '-')]);
    PlusSingle(cls, t);
    AllMatchEvery(cls, t);
    forall k | 0 <= k < |t| ensures MatchesChar(cls, t[k]) <==> IsPhoneChar(t[k]) {
      PhoneClassChar(t[k]);
    }
  }

  /** `/^0\d{9,10}$/.test(d)` holds exactly for domestic numbers. */
  lemma PhoneFormatMatches(d: string)
    ensures FullMatch(PhoneFormatPattern, d) <==> IsDomesticNumber(d)
  {
    ConcatFixed(Char('0'), Between(DigitClass, 9, 10), d);
    if |d| >= 1 {
      BetweenSingle(DigitClass, 9, 10, d[1..]);
      AllMatchEvery(DigitClass, d[1..]);
      forall k | 0 <= k < |d| - 1 ensures MatchesChar(DigitClass, d[1..][k]) <==> IsAsciiDigit(d[k + 1]) {
        DigitClassChar(d[1..][k]);
      }
      assert d[..1] == [d[0]];
      if IsDomesticNumber(d) {
        assert forall k :: 0 <= k < |d| - 1 ==> IsAsciiDigit(d[1..][k]);
      }
    }
  }

  /** On a string of digits and hyphens, removing the hyphens leaves its digits. */
  lemma RemoveHyphensOfPhoneChars(t: string)
    ensures PhoneChars(t) ==> RemoveHyphens(t) == Digits(t)
  {
    if PhoneChars(t) {
      FilterExt(t, c => c != '-', IsAsciiDigit);
    }
  }

  /** The `some(...)` of `validateContact`: a contact named `name` that is not the edited contact itself. */
  predicate ContactNameClash(contact: Contact, name: string, existing: seq<Contact>, isEdit: bool)
  {
    exists i :: 0 <= i < |existing| && existing[i].name == name && (!isEdit || existing[i].id != contact.id)
  }

  /**
   * Which rule of `validateContact` decides about `contact`: the rules are tried in the
   * order empty, charset, format, duplicate, and the first one that fails is the verdict.
   */
  function CheckContact(contact: Contact, existing: seq<Contact>, isEdit: bool): (r: ContactVerdict)
    ensures r == NameOrPhoneRequired <==> IsBlank(contact.name) || IsBlank(contact.phone)
    ensures r == PhoneCharsetInvalid <==>
      !IsBlank(contact.name) && !IsBlank(contact.phone) && !PhoneChars(Trim(contact.phone))
    ensures r == PhoneFormatInvalid <==>
      && !IsBlank(contact.name) && !IsBlank(contact.phone) && PhoneChars(Trim(contact.phone))
      && !IsDomesticNumber(Digits(Trim(contact.phone)))
    ensures r == ContactNameTaken <==>
      && !IsBlank(contact.name) && !IsBlank(contact.phone) && PhoneChars(Trim(contact.phone))
      && IsDomesticNumber(Digits(Trim(contact.phone)))
      && ContactNameClash(contact, Trim(contact.name), existing, isEdit)
    ensures r == ContactAccepted <==>
      && !IsBlank(contact.name) && !IsBlank(contact.phone) && PhoneChars(Trim(contact.phone))
      && IsDomesticNumber(Digits(Trim(contact.phone)))
      && !ContactNameClash(contact, Trim(contact.name), existing, isEdit)
  {
    var trimmedName := Trim(contact.name);
    var trimmedPhone := Trim(contact.phone);
    TrimBlank(contact.name);
    TrimBlank(contact.phone);
    PhoneCharsetMatches(trimmedPhone);
    var stripped := RemoveHyphens(trimmedPhone);
    PhoneFormatMatches(stripped);
    RemoveHyphensOfPhoneChars(trimmedPhone);
    if trimmedName == [] || trimmedPhone == [] then NameOrPhoneRequired
    else if !FullMatch(PhoneCharsetPattern, trimmedPhone) then PhoneCharsetInvalid
    else if !FullMatch(PhoneFormatPattern, stripped) then PhoneFormatInvalid
    else if ContactNameClash(contact, trimmedName, existing, isEdit) then ContactNameTaken
    else ContactAccepted
  }

  /** `validateContact(contact, existingContacts, isEdit = false)`. */
  function ValidateContact(contact: Contact, existing: seq<Contact>, isEdit: bool := false): (ok: bool)
    ensures ok <==>
      && !IsBlank(contact.name) && PhoneChars(Trim(contact.phone)) && IsDomesticNumber(Digits(Trim(contact.phone)))
      && !ContactNameClash(contact, Trim(contact.name), existing, isEdit)
  {
    TrimBlank(contact.phone);
    CheckContact(contact, existing, isEdit) == ContactAccepted
  }

  /** An accepted phone number, hyphens removed, is `0` and nine or ten more digits. */
  lemma AcceptedPhoneShape(contact: Contact, existing: seq<Contact>, isEdit: bool)
    requires ValidateContact(contact, existing, isEdit)
    ensures var d := RemoveHyphens(Trim(contact.phone));
      10 <= |d| <= 11 && d[0] == '0' && forall i :: 1 <= i < |d| ==> IsAsciiDigit(d[i])
  {
    RemoveHyphensOfPhoneChars(Trim(contact.phone));
  }

  /** Removing the hyphens of `a-b` keeps the digits of both parts. */
  lemma DigitsAroundHyphen(a: string, b: string)
    ensures Digits(a + "-" + b) == Digits(a) + Digits(b)
  {
    FilterAppend(a + "-", b, IsAsciiDigit);
    FilterSnoc(a, '-', IsAsciiDigit);
  }

  /** `PhoneChars` of a concatenation is `PhoneChars` of both parts. */
  lemma PhoneCharsAppend(u: string, v: string)
    ensures PhoneChars(u + v) <==> PhoneChars(u) && PhoneChars(v)
  {
    if PhoneChars(u + v) {
      assert forall i :: 0 <= i < |u| ==> (u + v)[i] == u[i];
      assert forall i :: 0 <= i < |v| ==> (u + v)[|u| + i] == v[i];
    }
  }

  /** A number in three hyphen-separated digit groups passes the charset rule and has the groups' digits. */
  lemma GroupedNumberParts(a: string, b: string, c: string)
    requires forall i :: 0 <= i < |a| ==> IsAsciiDigit(a[i])
    requires forall i :: 0 <= i < |b| ==> IsAsciiDigit(b[i])
    requires forall i :: 0 <= i < |c| ==> IsAsciiDigit(c[i])
    ensures var phone := a + "-" + b + "-" + c;
      PhoneChars(phone) && Digits(phone) == a + b + c
  {
    assert PhoneChars(a) && PhoneChars(b) && PhoneChars(c) && PhoneChars("-");
    PhoneCharsAppend(a, "-");
    PhoneCharsAppend(a + "-", b);
    PhoneCharsAppend(a + "-" + b, "-");
    PhoneCharsAppend(a + "-" + b + "-", c);
    DigitsAroundHyphen(a + "-" + b, c);
    DigitsAroundHyphen(a, b);
    FilterAll(a, IsAsciiDigit);
    FilterAll(b, IsAsciiDigit);
    FilterAll(c, IsAsciiDigit);
  }

  /** Such a number starts and ends with a digit, so trimming leaves it alone. */
  lemma GroupedNumberUntrimmed(a: string, b: string, c: string)
    requires a != [] && c != [] && IsAsciiDigit(a[0]) && IsAsciiDigit(c[|c| - 1])
    ensures Trim(a + "-" + b + "-" + c) == a + "-" + b + "-" + c
  {
    var phone := a + "-" + b + "-" + c;
    assert phone[0] == a[0] && phone[|phone| - 1] == c[|c| - 1];
    TrimUntouched(phone);
  }

  /**
   * A number written in three hyphen-separated digit groups, such as `090-1234-5678`, is
   * accepted for a name nobody else has exactly when its digits are `0` and nine or ten more.
   */
  lemma AcceptsGroupedNumber(id: string, name: string, a: string, b: string, c: string, existing: seq<Contact>)
    requires !IsBlank(name) && !ContactNameClash(Contact(id, name, a + "-" + b + "-" + c, None, None), Trim(name), existing, false)
    requires forall i :: 0 <= i < |a| ==> IsAsciiDigit(a[i])
    requires forall i :: 0 <= i < |b| ==> IsAsciiDigit(b[i])
    requires forall i :: 0 <= i < |c| ==> IsAsciiDigit(c[i])
    requires a != [] && c != []
    ensures ValidateContact(Contact(id, name, a + "-" + b + "-" + c, None, None), existing)
        <==> a[0] == '0' && 10 <= |a| + |b| + |c| <= 11
  {
    var phone := a + "-" + b + "-" + c;
    var contact := Contact(id, name, phone, None, None);
    GroupedNumberParts(a, b, c);
    GroupedNumberUntrimmed(a, b, c);
    var d := a + b + c;
    assert Trim(contact.phone) == phone && PhoneChars(phone) && Digits(phone) == d;
    assert d[0] == a[0];
    assert forall i :: 0 <= i < |d| ==> IsAsciiDigit(d[i]);
    assert IsDomesticNumber(d) <==> a[0] == '0' && 10 <= |d| <= 11;
    assert ValidateContact(contact, existing) <==> IsDomesticNumber(d);
  }
}
