/**
 * The fragment of JavaScript regular expressions the contact book's patterns are written in,
 * with the meaning `RegExp.prototype.test` gives them: a pattern anchored with `^…$` accepts
 * exactly the strings of its language (`FullMatch`), one anchored only with `^` accepts the
 * strings that have a prefix in its language (`PrefixMatch`). Backtracking order does not
 * matter for `test`, which only asks whether some match exists.
 */
module Regex {
  import opened Common
  import opened Text

  /** An inclusive character range `lo-hi` inside a class `[...]`. */
  datatype CharRange = CharRange(lo: char, hi: char)

  datatype Re =
    | Empty                          // the empty pattern
    | Char(c: char)                  // a literal character
    | Class(ranges: seq<CharRange>)  // `[...]`
    | AnyChar                        // `.`
    | Concat(left: Re, right: Re)    // juxtaposition
    | Optional(inner: Re)            // `(...)?`
    | Star(inner: Re)                // `(...)*`

  predicate InClass(c: char, ranges: seq<CharRange>)
  {
    exists i :: 0 <= i < |ranges| && ranges[i].lo <= c <= ranges[i].hi
  }

  /** The strings the pattern `r` matches as a whole. */
  predicate Matches(r: Re, s: string)
    decreases r, |s|
  {
    match r
    case Empty => s == []
    case Char(c) => s == [c]
    case Class(ranges) => |s| == 1 && InClass(s[0], ranges)
    case AnyChar => |s| == 1 && !IsLineTerminator(s[0])
    case Concat(a, b) => exists k :: 0 <= k <= |s| && Matches(a, s[..k]) && Matches(b, s[k..])
    case Optional(a) => s == [] || Matches(a, s)
    case Star(a) => s == [] || exists k :: 1 <= k <= |s| && Matches(a, s[..k]) && Matches(Star(a), s[k..])
  }

  /** `/^r$/.test(s)`. */
  predicate FullMatch(r: Re, s: string)
  {
    Matches(r, s)
  }

  /** `/^r/.test(s)`: some prefix of `s` matches `r`. */
  predicate PrefixMatch(r: Re, s: string)
  {
    exists k :: 0 <= k <= |s| && Matches(r, s[..k])
  }

  /** `x+`. */
  function Plus(a: Re): Re
  {
    Concat(a, Star(a))
  }

  /** A literal string as a pattern. */
  function Literal(w: string): (r: Re)
    ensures Width(r) == Some(|w|)
  {
    if w == [] then Empty else Concat(Char(w[0]), Literal(w[1..]))
  }

  /** `x{n}`: `n` copies of `x` in a row. */
  function Power(a: Re, n: nat): Re
  {
    if n == 0 then Empty else Concat(a, Power(a, n - 1))
  }

  /** `n` copies of a one-character pattern have width `n`. */
  lemma {:induction false} PowerWidth(a: Re, n: nat)
    requires Width(a) == Some(1)
    ensures Width(Power(a, n)) == Some(n)
  {
    if n > 0 {
      PowerWidth(a, n - 1);
    }
  }

  /** Up to `m` further copies of `x`, each one optional after the previous one. */
  function UpTo(a: Re, m: nat): Re
  {
    if m == 0 then Empty else Optional(Concat(a, UpTo(a, m - 1)))
  }

  /** `x{lo,hi}`. */
  function Between(a: Re, lo: nat, hi: nat): Re
    requires lo <= hi
  {
    Concat(Power(a, lo), UpTo(a, hi - lo))
  }

  /** The length every match of `r` has, when that length is fixed by the pattern's shape. */
  function Width(r: Re): Option<nat>
  {
    match r
    case Empty => Some(0)
    case Char(_) => Some(1)
    case Class(_) => Some(1)
    case AnyChar => Some(1)
    case Concat(a, b) =>
      if Width(a).Some? && Width(b).Some? then Some(Width(a).value + Width(b).value) else None
    case Optional(_) => None
    case Star(_) => None
  }

  /** Every match of a fixed-width pattern has that width. */
  lemma {:induction false} WidthSound(r: Re, t: string)
    requires Width(r).Some? && Matches(r, t)
    ensures |t| == Width(r).value
  {
    match r
    case Concat(a, b) =>
      var k :| 0 <= k <= |t| && Matches(a, t[..k]) && Matches(b, t[k..]);
      WidthSound(a, t[..k]);
      WidthSound(b, t[k..]);
    case _ =>
  }

  /** A concatenation whose left part has a fixed width `n` splits its input at `n`. */
  lemma ConcatFixed(a: Re, b: Re, s: string)
    requires Width(a).Some?
    ensures var n := Width(a).value;
      Matches(Concat(a, b), s) <==> n <= |s| && Matches(a, s[..n]) && Matches(b, s[n..])
  {
    var n := Width(a).value;
    if Matches(Concat(a, b), s) {
      var k :| 0 <= k <= |s| && Matches(a, s[..k]) && Matches(b, s[k..]);
      WidthSound(a, s[..k]);
    }
  }

  /** A literal pattern matches exactly its own text. */
  lemma {:induction false} LiteralMatches(w: string, s: string)
    ensures Matches(Literal(w), s) <==> s == w
  {
    if w != [] {
      ConcatFixed(Char(w[0]), Literal(w[1..]), s);
      if |s| >= 1 {
        LiteralMatches(w[1..], s[1..]);
        assert s == s[..1] + s[1..];
        assert w == [w[0]] + w[1..];
      }
    }
  }

  /** The one-character string `c` matches `a`. */
  predicate MatchesChar(a: Re, c: char)
  {
    Matches(a, [c])
  }

  /** Every character of `s`, taken alone, matches `a`. */
  predicate AllMatch(a: Re, s: string)
  {
    s == [] || (MatchesChar(a, s[0]) && AllMatch(a, s[1..]))
  }

  /** `AllMatch` says of each position of `s` that its character matches `a`. */
  lemma {:induction false} AllMatchEvery(a: Re, s: string)
    ensures AllMatch(a, s) <==> forall i :: 0 <= i < |s| ==> MatchesChar(a, s[i])
  {
    if s != [] {
      AllMatchEvery(a, s[1..]);
      assert forall i :: 1 <= i < |s| ==> s[1..][i - 1] == s[i];
    }
  }

  /** `AllMatch` of a concatenation is `AllMatch` of both parts. */
  lemma {:induction false} AllMatchAppend(a: Re, u: string, v: string)
    ensures AllMatch(a, u + v) <==> AllMatch(a, u) && AllMatch(a, v)
  {
    if u == [] {
      assert u + v == v;
    } else {
      assert (u + v)[0] == u[0] && (u + v)[1..] == u[1..] + v;
      AllMatchAppend(a, u[1..], v);
    }
  }

  /** A repeated one-character pattern matches the strings made only of its characters. */
  lemma {:induction false} StarSingle(a: Re, s: string)
    requires Width(a) == Some(1)
    ensures Matches(Star(a), s) <==> AllMatch(a, s)
    decreases |s|
  {
    if s != [] {
      assert s[..1] == [s[0]];
      StarSingle(a, s[1..]);
      if Matches(Star(a), s) {
        var k :| 1 <= k <= |s| && Matches(a, s[..k]) && Matches(Star(a), s[k..]);
        WidthSound(a, s[..k]);
      }
    }
  }

  /** `x+` for a one-character `x` matches the non-empty strings made only of its characters. */
  lemma PlusSingle(a: Re, s: string)
    requires Width(a) == Some(1)
    ensures Matches(Plus(a), s) <==> |s| >= 1 && AllMatch(a, s)
  {
    ConcatFixed(a, Star(a), s);
    if s != [] {
      assert s[..1] == [s[0]];
      StarSingle(a, s[1..]);
    }
  }

  /** `x{n}` for a one-character `x` matches the strings of `n` of its characters. */
  lemma {:induction false} PowerSingle(a: Re, n: nat, s: string)
    requires Width(a) == Some(1)
    ensures Matches(Power(a, n), s) <==> |s| == n && AllMatch(a, s)
  {
    if n > 0 {
      if s == [] {
        OneThen(a, Power(a, n - 1), s);
      } else {
        PowerSingle(a, n - 1, s[1..]);
        PowerStep(a, n, s);
      }
    }
  }

  /** One more copy of a one-character `x` takes one more character. */
  lemma PowerStep(a: Re, n: nat, s: string)
    requires Width(a) == Some(1) && n > 0 && s != []
    requires Matches(Power(a, n - 1), s[1..]) <==> |s[1..]| == n - 1 && AllMatch(a, s[1..])
    ensures Matches(Power(a, n), s) <==> |s| == n && AllMatch(a, s)
  {
    OneThen(a, Power(a, n - 1), s);
  }

  /** A one-character `a` followed by `b` matches a character `a` accepts, then a match of `b`. */
  lemma OneThen(a: Re, b: Re, s: string)
    requires Width(a) == Some(1)
    ensures Matches(Concat(a, b), s) <==> s != [] && MatchesChar(a, s[0]) && Matches(b, s[1..])
  {
    ConcatFixed(a, b, s);
    if s != [] {
      assert s[..1] == [s[0]];
    }
  }

  /** Up to `m` optional copies of a one-character `x` match at most `m` of its characters. */
  lemma {:induction false} UpToSingle(a: Re, m: nat, s: string)
    requires Width(a) == Some(1)
    ensures Matches(UpTo(a, m), s) <==> |s| <= m && AllMatch(a, s)
  {
    if m > 0 {
      OneThen(a, UpTo(a, m - 1), s);
      if s != [] {
          UpToSingle(a, m - 1, s[1..]);
      }
    }
  }

  /** `x{lo,hi}` for a one-character `x` matches between `lo` and `hi` of its characters. */
  lemma BetweenSingle(a: Re, lo: nat, hi: nat, s: string)
    requires Width(a) == Some(1) && lo <= hi
    ensures Matches(Between(a, lo, hi), s) <==> lo <= |s| <= hi && AllMatch(a, s)
  {
    PowerWidth(a, lo);
    ConcatFixed(Power(a, lo), UpTo(a, hi - lo), s);
    if lo <= |s| {
      var p, q := s[..lo], s[lo..];
      assert Matches(Power(a, lo), p) <==> AllMatch(a, p) by {
        PowerSingle(a, lo, p);
      }
      assert Matches(UpTo(a, hi - lo), q) <==> |q| <= hi - lo && AllMatch(a, q) by {
        UpToSingle(a, hi - lo, q);
      }
      assert AllMatch(a, s) <==> AllMatch(a, p) && AllMatch(a, q) by {
        AllMatchAppend(a, p, q);
        assert s == p + q;
      }
    }
  }

  /** A one-character pattern anchored only with `^` looks at the first character alone. */
  lemma PrefixSingle(a: Re, s: string)
    requires Width(a) == Some(1)
    ensures PrefixMatch(a, s) <==> |s| >= 1 && MatchesChar(a, s[0])
  {
    if |s| >= 1 {
      assert s[..1] == [s[0]];
    }
    if PrefixMatch(a, s) {
      var k :| 0 <= k <= |s| && Matches(a, s[..k]);
      WidthSound(a, s[..k]);
    }
  }

  /** A one-character pattern anchored with `^` and `$` matches the one-character strings it accepts. */
  lemma FullSingle(a: Re, s: string)
    requires Width(a) == Some(1)
    ensures FullMatch(a, s) <==> |s| == 1 && MatchesChar(a, s[0])
  {
    if FullMatch(a, s) {
      WidthSound(a, s);
      assert s == [s[0]];
    }
    if |s| == 1 && MatchesChar(a, s[0]) {
      assert s == [s[0]];
    }
  }
}
