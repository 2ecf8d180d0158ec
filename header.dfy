/**
 * The navigation rule of `src/components/ApplicationHeader/ApplicationHeader.tsx`: the
 * "Contacts" link is shown unless the path is `/`, `/contacts` or below `/contacts/`, and the
 * "Groups" link unless the path is `/groups` or below `/groups/`. The two tests are the
 * patterns `/^\/(contacts(\/.*)?)?$/` and `/^\/groups(\/.*)?$/`; `.` does not match a line
 * terminator, so a path holding one past the slash is outside both sections.
 */
module ApplicationHeader {
  import opened Text
  import opened Regex

  /** `(\/.*)?`: nothing, or a slash and then anything on one line. */
  const SubPath: Re := Optional(Concat(Char('/'), Star(AnyChar)))

  /** `^\/(contacts(\/.*)?)?$`. */
  const ContactsPattern: Re := Concat(Char('/'), Optional(Concat(Literal("contacts"), SubPath)))

  /** `^\/groups(\/.*)?$`. */
  const GroupsPattern: Re := Concat(Literal("/groups"), SubPath)

  /** No character of `s` is a line terminator. */
  predicate OneLine(s: string)
  {
    forall i :: 0 <= i < |s| ==> !IsLineTerminator(s[i])
  }

  /** The paths of the contact pages: the root, `/contacts`, and `/contacts/` followed by one line. */
  predicate IsContactsPath(p: string)
  {
    p == "/" || p == "/contacts" || (|p| >= 10 && p[..10] == "/contacts/" && OneLine(p[10..]))
  }

  /** The paths of the group pages: `/groups`, and `/groups/` followed by one line. */
  predicate IsGroupsPath(p: string)
  {
    p == "/groups" || (|p| >= 8 && p[..8] == "/groups/" && OneLine(p[8..]))
  }

  /** `.*` matches exactly the strings on one line. */
  lemma AnyLine(s: string)
    ensures Matches(Star(AnyChar), s) <==> OneLine(s)
  {
    StarSingle(AnyChar, s);
    AllMatchEvery(AnyChar, s);
  }

  /** `(\/.*)?` matches nothing at all, or a slash followed by one line. */
  lemma SubPathMatches(s: string)
    ensures Matches(SubPath, s) <==> s == [] || (s[0] == '/' && OneLine(s[1..]))
  {
    ConcatFixed(Char('/'), Star(AnyChar), s);
    if s != [] {
      AnyLine(s[1..]);
      assert s[..1] == [s[0]];
    }
  }

  /** A literal followed by `(\/.*)?` matches the literal, optionally followed by a slash and one line. */
  lemma LiteralThenSubPath(w: string, s: string)
    ensures Matches(Concat(Literal(w), SubPath), s) <==>
      s == w || (|s| > |w| && s[..|w|] == w && s[|w|] == '/' && OneLine(s[|w| + 1..]))
  {
    ConcatFixed(Literal(w), SubPath, s);
    if |w| <= |s| {
      LiteralMatches(w, s[..|w|]);
      SubPathMatches(s[|w|..]);
      if |s| > |w| {
        assert s[|w|..][1..] == s[|w| + 1..];
      } else {
        assert s[..|w|] == s;
      }
    }
  }

  /** The same pattern made optional also accepts nothing at all. */
  lemma OptionalLiteralThenSubPath(w: string, s: string)
    ensures Matches(Optional(Concat(Literal(w), SubPath)), s) <==>
      s == [] || s == w || (|s| > |w| && s[..|w|] == w && s[|w|] == '/' && OneLine(s[|w| + 1..]))
  {
    LiteralThenSubPath(w, s);
  }

  /** What may follow the leading slash of a contact page's path. */
  lemma ContactsTail(q: string)
    ensures Matches(Optional(Concat(Literal("contacts"), SubPath)), q) <==>
      q == [] || q == "contacts" || (|q| > 8 && q[..8] == "contacts" && q[8] == '/' && OneLine(q[9..]))
  {
    OptionalLiteralThenSubPath("contacts", q);
  }

  /** A path starting with a slash is a contact page's path exactly when what follows the slash may follow it. */
  lemma ContactsPathSplit(p: string)
    requires p != [] && p[0] == '/'
    ensures IsContactsPath(p) <==>
      var q := p[1..];
      q == [] || q == "contacts" || (|q| > 8 && q[..8] == "contacts" && q[8] == '/' && OneLine(q[9..]))
  {
    var q := p[1..];
    assert p == "/" + q;
    assert p == "/" <==> q == [];
    assert p == "/contacts" <==> q == "contacts" by {
      assert "/contacts"[1..] == "contacts" && "/" + "contacts" == "/contacts";
    }
    if |p| >= 10 {
      assert p[..10] == [p[0]] + q[..9];
      assert q[..9] == q[..8] + [q[8]];
      assert q[9..] == p[10..];
    }
  }

  /** The contacts pattern accepts exactly the contact pages' paths. */
  lemma ContactsPatternIff(p: string)
    ensures FullMatch(ContactsPattern, p) <==> IsContactsPath(p)
  {
    SlashThen(Optional(Concat(Literal("contacts"), SubPath)), p);
    if p != [] && p[0] == '/' {
      ContactsTail(p[1..]);
      ContactsPathSplit(p);
    }
  }

  /** A slash followed by `r` matches a slash followed by what `r` matches. */
  lemma SlashThen(r: Re, p: string)
    ensures Matches(Concat(Char('/'), r), p) <==> p != [] && p[0] == '/' && Matches(r, p[1..])
  {
    ConcatFixed(Char('/'), r, p);
    if p != [] {
      assert p[..1] == [p[0]];
    }
  }

  /** The groups pattern accepts exactly the group pages' paths. */
  lemma GroupsPatternIff(p: string)
    ensures FullMatch(GroupsPattern, p) <==> IsGroupsPath(p)
  {
    LiteralThenSubPath("/groups", p);
    if |p| >= 8 {
      assert p[..8] == p[..7] + [p[7]];
    }
  }

  /** `!/^\/(contacts(\/.*)?)?$/.test(location.pathname)`: the "Contacts" link is shown. */
  predicate ShowsContactsLink(path: string)
  {
    !FullMatch(ContactsPattern, path)
  }

  /** `!/^\/groups(\/.*)?$/.test(location.pathname)`: the "Groups" link is shown. */
  predicate ShowsGroupsLink(path: string)
  {
    !FullMatch(GroupsPattern, path)
  }

  /** Each link is hidden exactly on its own section's pages. */
  lemma LinksShown(path: string)
    ensures ShowsContactsLink(path) <==> !IsContactsPath(path)
    ensures ShowsGroupsLink(path) <==> !IsGroupsPath(path)
  {
    ContactsPatternIff(path);
    GroupsPatternIff(path);
  }

  /** No path is in both sections, so the header always offers at least one link. */
  lemma SomeLinkShown(path: string)
    ensures ShowsContactsLink(path) || ShowsGroupsLink(path)
  {
    LinksShown(path);
    SectionsDisjoint(path);
  }

  /** A group page's path is never a contact page's path. */
  lemma SectionsDisjoint(p: string)
    ensures !(IsContactsPath(p) && IsGroupsPath(p))
  {
    if IsGroupsPath(p) {
      assert p[1] == 'g';
    }
  }

  /**
   * The prefix test is on whole segments: `/contactsX` and `/groupsX` for any `X` other than
   * a slash are in neither section, and both links are shown there.
   */
  lemma SegmentsAreWhole(c: char)
    requires c != '/'
    ensures ShowsContactsLink("/contacts" + [c]) && ShowsGroupsLink("/contacts" + [c])
    ensures ShowsContactsLink("/groups" + [c]) && ShowsGroupsLink("/groups" + [c])
  {
    var a := "/contacts" + [c];
    var b := "/groups" + [c];
    assert !IsContactsPath(a) && !IsGroupsPath(a) by {
      assert |a| == 10 && a[9] == c && a[1] == 'c';
    }
    assert !IsContactsPath(b) && !IsGroupsPath(b) by {
      assert |b| == 8 && b[7] == c && b[1] == 'g';
    }
    LinksShown(a);
    LinksShown(b);
  }
}
