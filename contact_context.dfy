/**
 * `src/contexts/ContactContext.tsx`: the contact list state the provider shares. The search
 * filter and the alphabetical index (`groupedContacts`) are derived from the contact list;
 * the selection is a list of contact ids toggled one at a time, and a bulk delete removes
 * every selected contact from the store.
 */
module ContactContext {
  import opened Common
  import opened Seqs
  import opened Text
  import opened Regex
  import opened Types
  import opened LocalStorage

  // ---------------------------------------------------------------------------------------
  // Search

  /** The search test of `filteredContacts`: the lowercased name contains the lowercased query. */
  function MatchesQuery(query: string): Contact -> bool
  {
    (c: Contact) => Includes(LowerAscii(c.name), LowerAscii(query))
  }

  /** `filteredContacts`: the contacts whose name contains the query, ignoring case, in list order. */
  function FilteredContacts(contacts: seq<Contact>, query: string): (r: seq<Contact>)
    ensures forall i :: 0 <= i < |r| ==> Includes(LowerAscii(r[i].name), LowerAscii(query))
  {
    Filter(contacts, MatchesQuery(query))
  }

  /** Each contact survives the search as often as it occurs, if it matches, and in list order. */
  lemma FilteredContactsExactly(contacts: seq<Contact>, query: string, c: Contact)
    ensures multiset(FilteredContacts(contacts, query))[c] ==
      if Includes(LowerAscii(c.name), LowerAscii(query)) then multiset(contacts)[c] else 0
    ensures IsSubsequence(FilteredContacts(contacts, query), contacts)
  {
    FilterCount(contacts, MatchesQuery(query), c);
    FilterIsSubsequence(contacts, MatchesQuery(query));
  }

  /** The empty query keeps every contact. */
  lemma EmptyQueryKeepsAll(contacts: seq<Contact>)
    ensures FilteredContacts(contacts, "") == contacts
  {
    forall i | 0 <= i < |contacts| ensures MatchesQuery("")(contacts[i]) {
      IncludesTrivial(LowerAscii(contacts[i].name));
    }
    FilterAll(contacts, MatchesQuery(""));
  }

  // ---------------------------------------------------------------------------------------
  // Sorting by name

  /**
   * `localeCompare(…, 'ja')` is abstracted as a collation key: `a` sorts before `b` when
   * `rank(a) < rank(b)`, and names of equal rank compare as equal.
   */
  predicate SortedByName(s: seq<Contact>, rank: string -> real)
  {
    forall i, j :: 0 <= i < j < |s| ==> rank(s[i].name) <= rank(s[j].name)
  }

  /** The contacts whose name has collation key `k`. */
  function HasRank(rank: string -> real, k: real): Contact -> bool
  {
    (c: Contact) => rank(c.name) == k
  }

  /** Inserts `x` into a sorted list, before every contact that does not sort strictly before it. */
  function Insert(x: Contact, s: seq<Contact>, rank: string -> real): (r: seq<Contact>)
    ensures multiset(r) == multiset(s) + multiset{x}
  {
    if s == [] || rank(x.name) <= rank(s[0].name) then [x] + s
    else
      assert s == [s[0]] + s[1..];
      [s[0]] + Insert(x, s[1..], rank)
  }

  lemma {:induction false} InsertSorted(x: Contact, s: seq<Contact>, rank: string -> real)
    requires SortedByName(s, rank)
    ensures SortedByName(Insert(x, s, rank), rank)
  {
    if s != [] && rank(x.name) > rank(s[0].name) {
      InsertSorted(x, s[1..], rank);
      var t := Insert(x, s[1..], rank);
      assert multiset(t) == multiset(s[1..]) + multiset{x};
      forall j | 0 <= j < |t| ensures rank(s[0].name) <= rank(t[j].name) {
        assert t[j] in multiset(t);
        if t[j] != x {
          assert t[j] in multiset(s[1..]);
          var m :| 0 <= m < |s[1..]| && s[1..][m] == t[j];
          assert s[m + 1] == t[j];
        }
      }
    }
  }

  /** Inserting `x` ahead of its equals puts it first among the contacts of its rank. */
  lemma {:induction false} InsertStable(x: Contact, s: seq<Contact>, rank: string -> real, k: real)
    ensures Filter(Insert(x, s, rank), HasRank(rank, k)) ==
      (if rank(x.name) == k then [x] else []) + Filter(s, HasRank(rank, k))
  {
    var p := HasRank(rank, k);
    if s == [] || rank(x.name) <= rank(s[0].name) {
      FilterCons(x, s, p);
    } else {
      InsertStable(x, s[1..], rank, k);
      // `x` sorts strictly after `s[0]`, so at most one of them has rank `k`.
      FilterPastCons(s[0], Insert(x, s[1..], rank), x, Filter(s[1..], p), p);
      FilterCons(s[0], s[1..], p);
      assert s == [s[0]] + s[1..];
    }
  }

  /** `[...contacts].sort((a, b) => a.name.localeCompare(b.name, 'ja'))`, a stable sort. */
  function SortByName(s: seq<Contact>, rank: string -> real): (r: seq<Contact>)
    ensures multiset(r) == multiset(s)
    ensures SortedByName(r, rank)
  {
    if s == [] then []
    else
      var t := SortByName(s[1..], rank);
      InsertSorted(s[0], t, rank);
      assert s == [s[0]] + s[1..];
      Insert(s[0], t, rank)
  }

  /** The sort is stable: the contacts of each rank keep their original order. */
  lemma {:induction false} SortByNameStable(s: seq<Contact>, rank: string -> real, k: real)
    ensures Filter(SortByName(s, rank), HasRank(rank, k)) == Filter(s, HasRank(rank, k))
  {
    if s != [] {
      SortByNameStable(s[1..], rank, k);
      InsertStable(s[0], SortByName(s[1..], rank), rank, k);
    }
  }

  // ---------------------------------------------------------------------------------------
  // The alphabetical index

  const UpperLatin: Re := Class([CharRange('A', 'Z')])
  const RowA: Re := Class([CharRange('あ', 'お'), CharRange('ア', 'オ')])
  const RowKa: Re := Class([CharRange('か', 'こ'), CharRange('カ', 'コ')])
  const RowSa: Re := Class([CharRange('さ', 'そ'), CharRange('サ', 'ソ')])
  const RowTa: Re := Class([CharRange('た', 'と'), CharRange('タ', 'ト')])
  const RowNa: Re := Class([CharRange('な', 'の'), CharRange('ナ', 'ノ')])
  const RowHa: Re := Class([CharRange('は', 'ほ'), CharRange('ハ', 'ホ')])
  const RowMa: Re := Class([CharRange('ま', 'も'), CharRange('マ', 'モ')])
  const RowYa: Re := Class([CharRange('や', 'や'), CharRange('ゆ', 'ゆ'), CharRange('よ', 'よ'),
                            CharRange('ヤ', 'ヤ'), CharRange('ユ', 'ユ'), CharRange('ヨ', 'ヨ')])
  const RowRa: Re := Class([CharRange('ら', 'ろ'), CharRange('ラ', 'ロ')])
  const RowWa: Re := Class([CharRange('わ', 'わ'), CharRange('を', 'を'), CharRange('ん', 'ん'),
                            CharRange('ワ', 'ワ'), CharRange('ヲ', 'ヲ'), CharRange('ン', 'ン')])

  /** The kana row heads, in `grouppOrder` order. */
  const KanaKeys: seq<string> := ["あ", "か", "さ", "た", "な", "は", "ま", "や", "ら", "わ"]

  /** The keys `A`–`Z`, each a one-character string. */
  const LatinKeys: seq<string> := seq(26, i requires 0 <= i < 26 => [('A' as int + i) as char])

  /** `grouppOrder`: `A`–`Z`, the kana row heads, then `#`. */
  const Order: seq<string> := LatinKeys + KanaKeys + ["#"]

  /**
   * The bucket key `groupedContacts` computes from `firstChar` (the uppercased first
   * character), as written: a string starting with `A`–`Z` is its own key, whole.
   */
  function FirstLetterAsWritten(firstChar: string): string
  {
    if PrefixMatch(UpperLatin, firstChar) then firstChar else KanaKey(firstChar)
  }

  /** The bucket key taking only the first character of `firstChar`, as the index intends. */
  function FirstLetter(firstChar: string): string
  {
    if PrefixMatch(UpperLatin, firstChar) then firstChar[..1] else KanaKey(firstChar)
  }

  /** The kana rows and `#`: the second to last branches of the classification. */
  function KanaKey(firstChar: string): string
  {
    if PrefixMatch(RowA, firstChar) then "あ"
    else if PrefixMatch(RowKa, firstChar) then "か"
    else if PrefixMatch(RowSa, firstChar) then "さ"
    else if PrefixMatch(RowTa, firstChar) then "た"
    else if PrefixMatch(RowNa, firstChar) then "な"
    else if PrefixMatch(RowHa, firstChar) then "は"
    else if PrefixMatch(RowMa, firstChar) then "ま"
    else if PrefixMatch(RowYa, firstChar) then "や"
    else if PrefixMatch(RowRa, firstChar) then "ら"
    else if PrefixMatch(RowWa, firstChar) then "わ"
    else "#"
  }

  /**
   * Every non-empty `firstChar` gets a key of `grouppOrder`: its first character when that
   * is `A`–`Z`, else a kana row head or `#`.
   */
  lemma FirstLetterInOrder(firstChar: string)
    requires firstChar != []
    ensures FirstLetter(firstChar) in Order
    ensures 'A' <= firstChar[0] <= 'Z' ==> FirstLetter(firstChar) == [firstChar[0]]
    ensures !('A' <= firstChar[0] <= 'Z') ==> FirstLetter(firstChar) == KanaKey(firstChar)
  {
    PrefixSingle(UpperLatin, firstChar);
    UpperLatinChar(firstChar[0]);
    KanaKeyInOrder(firstChar);
    if 'A' <= firstChar[0] <= 'Z' {
      LatinKeyInOrder(firstChar[0]);
      assert firstChar[..1] == [firstChar[0]];
    }
  }

  /** `[A-Z]` accepts exactly `A`–`Z`. */
  lemma UpperLatinChar(c: char)
    ensures MatchesChar(UpperLatin, c) <==> 'A' <= c <= 'Z'
  {
    if 'A' <= c <= 'Z' {
      assert [CharRange('A', 'Z')][0].lo <= c <= [CharRange('A', 'Z')][0].hi;
    }
  }

  /** The kana branches always yield a key of `grouppOrder`. */
  lemma KanaKeyInOrder(firstChar: string)
    ensures KanaKey(firstChar) in Order
  {
    assert |LatinKeys| == 26;
    assert Order[26..36] == KanaKeys;
    assert Order[36] == "#";
    var k := KanaKey(firstChar);
    if k != "#" {
      assert k in KanaKeys;
    }
  }

  /** Every character of `A`–`Z` is a key of `grouppOrder`, at its alphabet position. */
  lemma LatinKeyInOrder(c: char)
    requires 'A' <= c <= 'Z'
    ensures [c] in Order && Order[c as int - 'A' as int] == [c]
  {
    assert |LatinKeys| == 26;
    assert Order[c as int - 'A' as int] == LatinKeys[c as int - 'A' as int];
  }

  /** Every key of `grouppOrder` is a one-character string or a kana/`#` literal of length one. */
  lemma OrderKeysAreSingleCharacters()
    ensures forall i :: 0 <= i < |Order| ==> |Order[i]| == 1
  {
    assert |LatinKeys| == 26;
    forall i | 0 <= i < |Order| ensures |Order[i]| == 1 {
      if i < 26 {
        assert Order[i] == LatinKeys[i];
      } else if i < 36 {
        assert Order[i] == KanaKeys[i - 26];
      }
    }
  }

  /** No key occurs twice in `grouppOrder`. */
  lemma OrderDistinct()
    ensures forall i, j :: 0 <= i < j < |Order| ==> Order[i] != Order[j]
  {
    assert |LatinKeys| == 26;
    forall i, j | 0 <= i < j < |Order| ensures Order[i] != Order[j] {
      if j < 26 {
        assert Order[i] == LatinKeys[i] && Order[j] == LatinKeys[j];
        assert Order[i][0] != Order[j][0];
      } else if i < 26 {
        assert Order[i] == LatinKeys[i];
        assert 'A' <= Order[i][0] <= 'Z';
        assert j < 36 ==> Order[j] == KanaKeys[j - 26];
      } else {
        assert Order[26..] == KanaKeys + ["#"];
      }
    }
  }

  /**
   * As written, a first character whose uppercase form is several characters long and starts
   * with `A`–`Z` becomes a key of its own: `ß` uppercases to `SS`, and `SS` is not in
   * `grouppOrder`, so the contact never appears in the index.
   */
  lemma MultiCharacterUppercaseIsDropped()
    ensures FirstLetterAsWritten("SS") == "SS" && "SS" !in Order
  {
    PrefixSingle(UpperLatin, "SS");
    UpperLatinChar('S');
    OrderKeysAreSingleCharacters();
  }

  /** On a one-character `firstChar` the written and the intended classification agree. */
  lemma FirstLetterOnOneCharacter(firstChar: string)
    requires |firstChar| == 1
    ensures FirstLetterAsWritten(firstChar) == FirstLetter(firstChar)
  {
    assert firstChar[..1] == firstChar;
  }

  /** The classification of one character, with each character class written out as comparisons. */
  function CharKey(c: char): string
  {
    if 'A' <= c <= 'Z' then [c]
    else if 'あ' <= c <= 'お' || 'ア' <= c <= 'オ' then "あ"
    else if 'か' <= c <= 'こ' || 'カ' <= c <= 'コ' then "か"
    else if 'さ' <= c <= 'そ' || 'サ' <= c <= 'ソ' then "さ"
    else if 'た' <= c <= 'と' || 'タ' <= c <= 'ト' then "た"
    else if 'な' <= c <= 'の' || 'ナ' <= c <= 'ノ' then "な"
    else if 'は' <= c <= 'ほ' || 'ハ' <= c <= 'ホ' then "は"
    else if 'ま' <= c <= 'も' || 'マ' <= c <= 'モ' then "ま"
    else if c == 'や' || c == 'ゆ' || c == 'よ' || c == 'ヤ' || c == 'ユ' || c == 'ヨ' then "や"
    else if 'ら' <= c <= 'ろ' || 'ラ' <= c <= 'ロ' then "ら"
    else if c == 'わ' || c == 'を' || c == 'ん' || c == 'ワ' || c == 'ヲ' || c == 'ン' then "わ"
    else "#"
  }

  /** A two-range class, as comparisons. */
  lemma TwoRanges(a: CharRange, b: CharRange, c: char)
    ensures MatchesChar(Class([a, b]), c) <==> a.lo <= c <= a.hi || b.lo <= c <= b.hi
  {
    if a.lo <= c <= a.hi {
      assert [a, b][0] == a;
    } else if b.lo <= c <= b.hi {
      assert [a, b][1] == b;
    }
  }

  /** A class of six single characters, as membership in the string of those characters. */
  lemma SixChars(w: string, c: char)
    requires |w| == 6
    ensures var r := [CharRange(w[0], w[0]), CharRange(w[1], w[1]), CharRange(w[2], w[2]),
                      CharRange(w[3], w[3]), CharRange(w[4], w[4]), CharRange(w[5], w[5])];
      MatchesChar(Class(r), c) <==> c in w
  {
    var r := [CharRange(w[0], w[0]), CharRange(w[1], w[1]), CharRange(w[2], w[2]),
              CharRange(w[3], w[3]), CharRange(w[4], w[4]), CharRange(w[5], w[5])];
    if c in w {
      var i :| 0 <= i < 6 && w[i] == c;
      assert r[i].lo <= c <= r[i].hi;
    }
  }

  /** The comparisons agree with the regular expressions, on every character. */
  lemma CharKeyIsFirstLetter(c: char)
    ensures CharKey(c) == FirstLetter([c])
  {
    var s := [c];
    assert PrefixMatch(UpperLatin, s) <==> 'A' <= c <= 'Z' by {
      PrefixSingle(UpperLatin, s);
      UpperLatinChar(c);
    }
    KanaRowsAToNa(c);
    KanaRowsHaToWa(c);
    if 'A' <= c <= 'Z' {
      assert s[..1] == s && CharKey(c) == [c] == FirstLetter(s);
    } else if 'あ' <= c <= 'お' || 'ア' <= c <= 'オ' {
      assert CharKey(c) == "あ" == KanaKey(s);
    } else if 'か' <= c <= 'こ' || 'カ' <= c <= 'コ' {
      assert CharKey(c) == "か" == KanaKey(s);
    } else if 'さ' <= c <= 'そ' || 'サ' <= c <= 'ソ' {
      assert CharKey(c) == "さ" == KanaKey(s);
    } else if 'た' <= c <= 'と' || 'タ' <= c <= 'ト' {
      assert CharKey(c) == "た" == KanaKey(s);
    } else if 'な' <= c <= 'の' || 'ナ' <= c <= 'ノ' {
      assert CharKey(c) == "な" == KanaKey(s);
    } else if 'は' <= c <= 'ほ' || 'ハ' <= c <= 'ホ' {
      assert CharKey(c) == "は" == KanaKey(s);
    } else if 'ま' <= c <= 'も' || 'マ' <= c <= 'モ' {
      assert CharKey(c) == "ま" == KanaKey(s);
    } else if c in "やゆよヤユヨ" {
      assert CharKey(c) == "や" == KanaKey(s);
    } else if 'ら' <= c <= 'ろ' || 'ラ' <= c <= 'ロ' {
      assert CharKey(c) == "ら" == KanaKey(s);
    } else if c in "わをんワヲン" {
      assert CharKey(c) == "わ" == KanaKey(s);
    } else {
      assert CharKey(c) == "#" == KanaKey(s);
    }
  }

  /** The rows あ to な, matched with `^` against one character, as comparisons. */
  lemma KanaRowsAToNa(c: char)
    ensures PrefixMatch(RowA, [c]) <==> 'あ' <= c <= 'お' || 'ア' <= c <= 'オ'
    ensures PrefixMatch(RowKa, [c]) <==> 'か' <= c <= 'こ' || 'カ' <= c <= 'コ'
    ensures PrefixMatch(RowSa, [c]) <==> 'さ' <= c <= 'そ' || 'サ' <= c <= 'ソ'
    ensures PrefixMatch(RowTa, [c]) <==> 'た' <= c <= 'と' || 'タ' <= c <= 'ト'
    ensures PrefixMatch(RowNa, [c]) <==> 'な' <= c <= 'の' || 'ナ' <= c <= 'ノ'
  {
    RowComparisons(CharRange('あ', 'お'), CharRange('ア', 'オ'), c);
    RowComparisons(CharRange('か', 'こ'), CharRange('カ', 'コ'), c);
    RowComparisons(CharRange('さ', 'そ'), CharRange('サ', 'ソ'), c);
    RowComparisons(CharRange('た', 'と'), CharRange('タ', 'ト'), c);
    RowComparisons(CharRange('な', 'の'), CharRange('ナ', 'ノ'), c);
  }

  /** The rows は to わ, matched with `^` against one character, as comparisons. */
  lemma KanaRowsHaToWa(c: char)
    ensures PrefixMatch(RowHa, [c]) <==> 'は' <= c <= 'ほ' || 'ハ' <= c <= 'ホ'
    ensures PrefixMatch(RowMa, [c]) <==> 'ま' <= c <= 'も' || 'マ' <= c <= 'モ'
    ensures PrefixMatch(RowYa, [c]) <==> c in "やゆよヤユヨ"
    ensures PrefixMatch(RowRa, [c]) <==> 'ら' <= c <= 'ろ' || 'ラ' <= c <= 'ロ'
    ensures PrefixMatch(RowWa, [c]) <==> c in "わをんワヲン"
  {
    RowComparisons(CharRange('は', 'ほ'), CharRange('ハ', 'ホ'), c);
    RowComparisons(CharRange('ま', 'も'), CharRange('マ', 'モ'), c);
    PrefixSingle(RowYa, [c]);
    SixChars("やゆよヤユヨ", c);
    RowComparisons(CharRange('ら', 'ろ'), CharRange('ラ', 'ロ'), c);
    PrefixSingle(RowWa, [c]);
    SixChars("わをんワヲン", c);
  }

  /** A two-range row class matched with `^` against one character, as comparisons. */
  lemma RowComparisons(a: CharRange, b: CharRange, c: char)
    ensures PrefixMatch(Class([a, b]), [c]) <==> a.lo <= c <= a.hi || b.lo <= c <= b.hi
  {
    PrefixSingle(Class([a, b]), [c]);
    TwoRanges(a, b, c);
  }

  /** `contact.name[0].toUpperCase()` classified: the bucket key of a non-empty name, one character long. */
  function NameKey(name: string): (r: string)
    requires name != []
    ensures |r| == 1
  {
    CharKey(ToUpperAscii(name[0]))
  }

  /** The key of a non-empty name is a key of `grouppOrder`. */
  lemma NameKeyInOrder(name: string)
    requires name != []
    ensures NameKey(name) in Order
  {
    CharKeyIsFirstLetter(ToUpperAscii(name[0]));
    FirstLetterInOrder([ToUpperAscii(name[0])]);
  }

  /** The key of a non-empty name is the regular-expression classification of its uppercased first character. */
  lemma NameKeyIsFirstLetter(name: string)
    requires name != []
    ensures NameKey(name) == FirstLetter([ToUpperAscii(name[0])])
  {
    CharKeyIsFirstLetter(ToUpperAscii(name[0]));
  }

  /** The contacts of the bucket `key`; a contact with an empty name belongs to none. */
  function InBucket(key: string): Contact -> bool
  {
    (c: Contact) => c.name != [] && NameKey(c.name) == key
  }

  /** The contacts whose key is one of `keys`. */
  function KeyIn(keys: seq<string>): Contact -> bool
  {
    (c: Contact) => c.name != [] && NameKey(c.name) in keys
  }

  /** What `groups[key]` holds after the `forEach`: the contacts of that key, in list order. */
  function Bucket(s: seq<Contact>, key: string): seq<Contact>
  {
    Filter(s, InBucket(key))
  }

  /** `keys.filter(key => groups[key]).map(key => [key, groups[key]])`: the non-empty buckets, in key order. */
  function Index(s: seq<Contact>, keys: seq<string>): (r: seq<(string, seq<Contact>)>)
    ensures forall i :: 0 <= i < |r| ==> r[i].0 in keys && r[i].1 != [] && r[i].1 == Bucket(s, r[i].0)
  {
    if keys == [] then []
    else
      var rest := Index(s, keys[1..]);
      assert forall k :: k in keys && k != keys[0] ==> k in keys[1..];
      (if Bucket(s, keys[0]) != [] then [(keys[0], Bucket(s, keys[0]))] else []) + rest
  }

  /** Every key of `keys` with a non-empty bucket has an entry in the index. */
  lemma {:induction false} IndexComplete(s: seq<Contact>, keys: seq<string>, k: string)
    requires k in keys && Bucket(s, k) != []
    ensures exists i :: 0 <= i < |Index(s, keys)| && Index(s, keys)[i] == (k, Bucket(s, k))
  {
    var rest := Index(s, keys[1..]);
    var head := if Bucket(s, keys[0]) != [] then [(keys[0], Bucket(s, keys[0]))] else [];
    IndexCons(s, keys);
    var r := head + rest;
    if k == keys[0] {
      assert 0 < |r| && r[0] == (k, Bucket(s, k));
    } else {
      assert k in keys[1..];
      IndexComplete(s, keys[1..], k);
      var j :| 0 <= j < |rest| && rest[j] == (k, Bucket(s, k));
      AppendIndexRight(head, rest, j);
    }
  }

  /** The buckets of an index, one after the other. */
  function Flatten(entries: seq<(string, seq<Contact>)>): seq<Contact>
  {
    if entries == [] then [] else entries[0].1 + Flatten(entries[1..])
  }

  /** The keys of an index, in order. */
  function Keys(entries: seq<(string, seq<Contact>)>): seq<string>
  {
    if entries == [] then [] else [entries[0].0] + Keys(entries[1..])
  }

  /** The index over a non-empty key list: the first key's entry, if any, then the rest. */
  lemma IndexCons(s: seq<Contact>, keys: seq<string>)
    requires keys != []
    ensures Index(s, keys) == (if Bucket(s, keys[0]) != [] then [(keys[0], Bucket(s, keys[0]))] else []) + Index(s, keys[1..])
  {
  }

  lemma {:induction false} IndexAppend(s: seq<Contact>, a: seq<string>, b: seq<string>)
    ensures Index(s, a + b) == Index(s, a) + Index(s, b)
  {
    if a != [] {
      assert (a + b)[0] == a[0] && (a + b)[1..] == a[1..] + b;
      IndexCons(s, a + b);
      IndexCons(s, a);
      IndexAppend(s, a[1..], b);
    } else {
      assert a + b == b;
    }
  }

  /** The index lists its keys in the order of the key list. */
  lemma {:induction false} IndexKeysInKeyOrder(s: seq<Contact>, keys: seq<string>)
    ensures IsSubsequence(Keys(Index(s, keys)), keys)
  {
    if keys != [] {
      IndexKeysInKeyOrder(s, keys[1..]);
      var rest := Index(s, keys[1..]);
      if Bucket(s, keys[0]) != [] {
        var r := [(keys[0], Bucket(s, keys[0]))] + rest;
        assert r[1..] == rest;
        assert Keys(r) == [keys[0]] + Keys(rest);
      } else {
        assert Index(s, keys) == rest;
        SubsequenceOfTail(Keys(rest), keys);
      }
    }
  }

  lemma SubsequenceOfTail(a: seq<string>, b: seq<string>)
    requires b != [] && IsSubsequence(a, b[1..])
    ensures IsSubsequence(a, b)
  {
  }

  /**
   * With distinct keys, the buckets of the index hold, together, exactly the contacts whose
   * key is one of the keys, each as often as it occurs.
   */
  lemma {:induction false} IndexFlattenCount(s: seq<Contact>, keys: seq<string>)
    requires forall i, j :: 0 <= i < j < |keys| ==> keys[i] != keys[j]
    ensures multiset(Flatten(Index(s, keys))) == multiset(Filter(s, KeyIn(keys)))
  {
    if keys == [] {
      forall i | 0 <= i < |s| ensures !KeyIn(keys)(s[i]) { }
      FilterNone(s, KeyIn(keys));
    } else {
      var rest := keys[1..];
      IndexFlattenCount(s, rest);
      assert keys[0] !in rest by {
        forall j | 0 <= j < |rest| ensures rest[j] != keys[0] {
          assert rest[j] == keys[j + 1];
        }
      }
      KeyInSplit(s, keys);
      FlattenIndexCons(s, keys);
    }
  }

  /** With the first key not repeated, the contacts of the keys are those of the first key and those of the rest. */
  lemma KeyInSplit(s: seq<Contact>, keys: seq<string>)
    requires keys != [] && keys[0] !in keys[1..]
    ensures multiset(Filter(s, KeyIn(keys))) == multiset(Bucket(s, keys[0])) + multiset(Filter(s, KeyIn(keys[1..])))
  {
    assert keys == [keys[0]] + keys[1..];
    forall i | 0 <= i < |s|
      ensures !(InBucket(keys[0])(s[i]) && KeyIn(keys[1..])(s[i]))
      ensures KeyIn(keys)(s[i]) == (InBucket(keys[0])(s[i]) || KeyIn(keys[1..])(s[i]))
    {
    }
    FilterDisjointUnion(s, InBucket(keys[0]), KeyIn(keys[1..]), KeyIn(keys));
  }

  /** The buckets of the index over a non-empty key list: the first key's bucket, then the rest's buckets. */
  lemma FlattenIndexCons(s: seq<Contact>, keys: seq<string>)
    requires keys != []
    ensures Flatten(Index(s, keys)) == Bucket(s, keys[0]) + Flatten(Index(s, keys[1..]))
  {
    IndexCons(s, keys);
    var b := Bucket(s, keys[0]);
    var tail := Index(s, keys[1..]);
    if b != [] {
      var r := [(keys[0], b)] + tail;
      assert r[0].1 == b && r[1..] == tail;
      assert Flatten(r) == b + Flatten(tail);
    } else {
      assert Index(s, keys) == tail;
      assert b + Flatten(tail) == Flatten(tail);
    }
  }

  /** Every contact with a non-empty name has a key of `grouppOrder`. */
  lemma {:induction false} EveryNameHasAKey(s: seq<Contact>)
    requires forall i :: 0 <= i < |s| ==> s[i].name != []
    ensures Filter(s, KeyIn(Order)) == s
  {
    forall i | 0 <= i < |s| ensures KeyIn(Order)(s[i]) {
      NameKeyInOrder(s[i].name);
    }
    FilterAll(s, KeyIn(Order));
  }

  /** `m` is the bucket map the `forEach` has built after visiting `s`. */
  ghost predicate BucketsOf(m: map<string, seq<Contact>>, s: seq<Contact>)
  {
    forall key :: (key in m <==> Bucket(s, key) != []) && (key in m ==> m[key] == Bucket(s, key))
  }

  /** One step of the `forEach`: pushing a contact onto the bucket of its key. */
  lemma PushContact(m: map<string, seq<Contact>>, s: seq<Contact>, c: Contact)
    requires c.name != [] && BucketsOf(m, s)
    ensures var key := NameKey(c.name);
      BucketsOf(m[key := (if key in m then m[key] else []) + [c]], s + [c])
  {
    var key := NameKey(c.name);
    var m' := m[key := (if key in m then m[key] else []) + [c]];
    forall k ensures (k in m' <==> Bucket(s + [c], k) != []) && (k in m' ==> m'[k] == Bucket(s + [c], k)) {
      FilterSnoc(s, c, InBucket(k));
    }
  }

  /** One step of the `keys.filter(…).map(…)`: the entry of the next key, if its bucket is not empty. */
  lemma IndexSnoc(s: seq<Contact>, keys: seq<string>, key: string)
    ensures Index(s, keys + [key]) == Index(s, keys) + if Bucket(s, key) != [] then [(key, Bucket(s, key))] else []
  {
    IndexAppend(s, keys, [key]);
    assert Index(s, [key]) == if Bucket(s, key) != [] then [(key, Bucket(s, key))] else [];
  }

  /** Two lists with the same elements agree on whether every name is non-empty. */
  lemma NamesNonEmptyPermuted(a: seq<Contact>, b: seq<Contact>)
    requires multiset(a) == multiset(b)
    ensures (forall i :: 0 <= i < |a| ==> a[i].name != []) <==> (forall i :: 0 <= i < |b| ==> b[i].name != [])
  {
    if forall i :: 0 <= i < |a| ==> a[i].name != [] {
      forall j | 0 <= j < |b| ensures b[j].name != [] {
        assert b[j] in multiset(a);
      }
    }
    if forall i :: 0 <= i < |b| ==> b[i].name != [] {
      forall j | 0 <= j < |a| ensures a[j].name != [] {
        assert a[j] in multiset(b);
      }
    }
  }

  /**
   * `groupedContacts` over the list it is given; `ContactProvider.Grouped` passes it the
   * provider's `filteredContacts`. It sorts the filtered contacts by name, pushes each into
   * the bucket of its key, then lists the non-empty buckets in `grouppOrder` order. A
   * contact with an empty name makes `contact.name[0].toUpperCase()` throw; the result is
   * then `None`.
   */
  method GroupedContacts(filtered: seq<Contact>, rank: string -> real) returns (r: Option<seq<(string, seq<Contact>)>>)
    ensures r.None? <==> exists i :: 0 <= i < |filtered| && filtered[i].name == []
    ensures r.Some? ==> r.value == Index(SortByName(filtered, rank), Order)
  {
    var sorted := SortByName(filtered, rank);
    NamesNonEmptyPermuted(sorted, filtered);
    var buckets := BucketByKey(sorted);
    if buckets.None? {
      return None;
    }
    var entries := ListBuckets(buckets.value, sorted, Order);
    return Some(entries);
  }

  /** The `forEach` of `groupedContacts`: each contact pushed onto the bucket of its key, in list order. */
  method BucketByKey(s: seq<Contact>) returns (r: Option<map<string, seq<Contact>>>)
    ensures r.None? <==> exists i :: 0 <= i < |s| && s[i].name == []
    ensures r.Some? ==> BucketsOf(r.value, s)
  {
    var buckets: map<string, seq<Contact>> := map[];
    var i := 0;
    while i < |s|
      invariant 0 <= i <= |s|
      invariant forall j :: 0 <= j < i ==> s[j].name != []
      invariant BucketsOf(buckets, s[..i])
    {
      var contact := s[i];
      if contact.name == [] {
        return None;
      }
      TakeOneMore(s, i);
      buckets := VisitContact(buckets, s[..i], contact);
      i := i + 1;
    }
    assert s[..i] == s;
    return Some(buckets);
  }

  /**
   * The callback of the `forEach` on a contact with a non-empty name: its key computed, then
   * the contact pushed onto that key's bucket, which is created when missing.
   */
  method VisitContact(buckets: map<string, seq<Contact>>, ghost seen: seq<Contact>, contact: Contact)
    returns (r: map<string, seq<Contact>>)
    requires contact.name != [] && BucketsOf(buckets, seen)
    ensures BucketsOf(r, seen + [contact])
  {
    var key := NameKey(contact.name);
    var bucket := if key in buckets then buckets[key] else [];
    PushContact(buckets, seen, contact);
    r := buckets[key := bucket + [contact]];
  }

  /** `keys.filter(key => groups[key]).map(key => [key, groups[key]])` over the bucket map. */
  method ListBuckets(buckets: map<string, seq<Contact>>, ghost s: seq<Contact>, keys: seq<string>)
    returns (entries: seq<(string, seq<Contact>)>)
    requires BucketsOf(buckets, s)
    ensures entries == Index(s, keys)
  {
    entries := [];
    var j := 0;
    while j < |keys|
      invariant 0 <= j <= |keys|
      invariant entries == Index(s, keys[..j])
    {
      var key := keys[j];
      assert keys[..j + 1] == keys[..j] + [key];
      IndexSnoc(s, keys[..j], key);
      if key in buckets {
        entries := entries + [(key, buckets[key])];
      }
      j := j + 1;
    }
    assert keys[..j] == keys;
  }

  /**
   * The index is a rearrangement of the filtered contacts: every contact lands in exactly
   * one bucket, as often as it occurs. This rests on `NameKey` uppercasing ASCII letters
   * only, so every key is one character of `grouppOrder`; `toUpperCase`'s full Unicode
   * uppercasing can produce a key outside it (see `MultiCharacterUppercaseIsDropped`).
   */
  lemma {:induction false} GroupedIsPermutation(filtered: seq<Contact>, rank: string -> real)
    requires forall i :: 0 <= i < |filtered| ==> filtered[i].name != []
    ensures multiset(Flatten(Index(SortByName(filtered, rank), Order))) == multiset(filtered)
  {
    var sorted := SortByName(filtered, rank);
    forall i | 0 <= i < |sorted| ensures sorted[i].name != [] {
      assert sorted[i] in multiset(filtered);
    }
    OrderDistinct();
    IndexFlattenCount(sorted, Order);
    EveryNameHasAKey(sorted);
  }

  /**
   * Each bucket holds exactly the sorted contacts of its key, in sorted order, so contacts of
   * one bucket appear in name order; the keys appear in `grouppOrder` order.
   */
  lemma GroupedBucketsOrdered(filtered: seq<Contact>, rank: string -> real)
    ensures var sorted := SortByName(filtered, rank);
      var index := Index(sorted, Order);
      && IsSubsequence(Keys(index), Order)
      && forall i :: 0 <= i < |index| ==>
           index[i].1 != [] && IsSubsequence(index[i].1, sorted) && SortedByName(index[i].1, rank)
  {
    var sorted := SortByName(filtered, rank);
    var index := Index(sorted, Order);
    IndexKeysInKeyOrder(sorted, Order);
    forall i | 0 <= i < |index| ensures IsSubsequence(index[i].1, sorted) && SortedByName(index[i].1, rank) {
      FilterIsSubsequence(sorted, InBucket(index[i].0));
      SubsequenceSorted(index[i].1, sorted, rank);
    }
  }

  /** A subsequence of a sorted list is sorted. */
  lemma {:induction false} SubsequenceSorted(a: seq<Contact>, b: seq<Contact>, rank: string -> real)
    requires IsSubsequence(a, b) && SortedByName(b, rank)
    ensures SortedByName(a, rank)
  {
    if a != [] && b != [] {
      if a[0] == b[0] && IsSubsequence(a[1..], b[1..]) {
        SubsequenceSorted(a[1..], b[1..], rank);
        SubsequenceBound(a[1..], b[1..], rank, rank(b[0].name));
      } else {
        SubsequenceSorted(a, b[1..], rank);
      }
    }
  }

  /** Every element of a subsequence of `b` is an element of `b`, so it respects a lower bound of `b`. */
  lemma {:induction false} SubsequenceBound(a: seq<Contact>, b: seq<Contact>, rank: string -> real, lo: real)
    requires IsSubsequence(a, b) && forall j :: 0 <= j < |b| ==> lo <= rank(b[j].name)
    ensures forall j :: 0 <= j < |a| ==> lo <= rank(a[j].name)
  {
    if a != [] && b != [] {
      if a[0] == b[0] && IsSubsequence(a[1..], b[1..]) {
        SubsequenceBound(a[1..], b[1..], rank, lo);
        assert forall j :: 1 <= j < |a| ==> a[j] == a[1..][j - 1];
      } else {
        SubsequenceBound(a, b[1..], rank, lo);
      }
    }
  }

  // ---------------------------------------------------------------------------------------
  // Selection

  /**
   * `handleMultipleSelected(id)`'s update: a selected id is removed (every copy of it), an
   * unselected one is appended. Removing keeps the other ids in their order, each as often
   * as it was there.
   */
  function Toggle(selected: seq<string>, id: string): (r: seq<string>)
    ensures id in r <==> id !in selected
    ensures forall x :: x != id ==> (x in r <==> x in selected)
    ensures id !in selected ==> r == selected + [id]
    ensures id in selected ==> IsSubsequence(r, selected)
    ensures id in selected ==> forall x :: x != id ==> multiset(r)[x] == multiset(selected)[x]
  {
    if id in selected then
      var p := (x: string) => x != id;
      FilterIsSubsequence(selected, p);
      assert forall x :: x != id ==> multiset(Filter(selected, p))[x] == multiset(selected)[x] by {
        forall x | x != id ensures multiset(Filter(selected, p))[x] == multiset(selected)[x] {
          FilterCount(selected, p, x);
        }
      }
      Filter(selected, p)
    else selected + [id]
  }

  /** Toggling keeps a selection free of repetitions. */
  lemma ToggleKeepsDistinct(selected: seq<string>, id: string)
    requires Distinct(selected)
    ensures Distinct(Toggle(selected, id))
  {
    if id in selected {
      FilterDistinct(selected, (x: string) => x != id);
    } else {
      var r := selected + [id];
      forall i, j | 0 <= i < j < |r| ensures r[i] != r[j] {
        if j == |selected| {
          assert r[i] == selected[i];
        }
      }
    }
  }

  /** Toggling an unselected id twice restores the selection exactly. */
  lemma ToggleTwice(selected: seq<string>, id: string)
    requires id !in selected
    ensures Toggle(Toggle(selected, id), id) == selected
  {
    FilterSnoc(selected, id, (x: string) => x != id);
    FilterAll(selected, (x: string) => x != id);
  }

  /** `contacts.map(contact => contact.id)`. */
  function Ids(contacts: seq<Contact>): (r: seq<string>)
    ensures |r| == |contacts|
    ensures forall i :: 0 <= i < |r| ==> r[i] == contacts[i].id
  {
    seq(|contacts|, i requires 0 <= i < |contacts| => contacts[i].id)
  }

  /** The contacts whose id is not among `ids`: those a bulk delete of `ids` keeps. */
  function NotSelected(ids: seq<string>): Contact -> bool
  {
    (c: Contact) => c.id !in ids
  }

  /** Selecting all the contacts of a list and deleting the selection empties that list. */
  lemma DeleteAllSelected(contacts: seq<Contact>)
    ensures Filter(contacts, NotSelected(Ids(contacts))) == []
  {
    var ids := Ids(contacts);
    forall i | 0 <= i < |contacts| ensures !NotSelected(ids)(contacts[i]) {
      assert ids[i] == contacts[i].id;
    }
    FilterNone(contacts, NotSelected(ids));
  }

  /**
   * A bulk delete keeps exactly the contacts whose id is not selected, each as often as
   * before and in their original order.
   */
  lemma DeleteSelectedExactly(contacts: seq<Contact>, ids: seq<string>, c: Contact)
    ensures multiset(Filter(contacts, NotSelected(ids)))[c] == if c.id in ids then 0 else multiset(contacts)[c]
    ensures IsSubsequence(Filter(contacts, NotSelected(ids)), contacts)
  {
    FilterCount(contacts, NotSelected(ids), c);
    FilterIsSubsequence(contacts, NotSelected(ids));
  }

  /** Deleting the ids one at a time is keeping the contacts none of them names. */
  lemma DeleteStep(contacts: seq<Contact>, ids: seq<string>, k: nat)
    requires k < |ids|
    ensures WithoutContact(Filter(contacts, NotSelected(ids[..k])), ids[k]) == Filter(contacts, NotSelected(ids[..k + 1]))
  {
    assert ids[..k + 1] == ids[..k] + [ids[k]];
    FilterFilter(contacts, NotSelected(ids[..k]), IdIsNot(ids[k]), NotSelected(ids[..k + 1]));
  }

  /**
   * `ids.forEach((id) => deleteContact(id))`: each delete rewrites the stored list, so after
   * the loop the store keeps exactly the contacts none of the ids names; it is not written at
   * all when there is no id.
   */
  method DeleteEach(storage: Storage, ids: seq<string>)
    modifies storage
    ensures storage.contactsEntry ==
      if ids == [] then old(storage.contactsEntry) else Some(Filter(old(storage.Contacts()), NotSelected(ids)))
    ensures storage.Contacts() == Filter(old(storage.Contacts()), NotSelected(ids))
    ensures storage.groupsEntry == old(storage.groupsEntry)
  {
    ghost var stored := storage.Contacts();
    DeleteNone(stored);
    assert ids[..0] == [];
    var k := 0;
    while k < |ids|
      invariant 0 <= k <= |ids|
      invariant k == 0 ==> storage.contactsEntry == old(storage.contactsEntry)
      invariant k > 0 ==> storage.contactsEntry == Some(Filter(stored, NotSelected(ids[..k])))
      invariant storage.groupsEntry == old(storage.groupsEntry)
    {
      DeleteNext(storage, stored, ids, k);
      k := k + 1;
    }
    assert ids[..k] == ids;
  }

  /** One `deleteContact(id)` of the loop: the store then lacks the contacts of one more id. */
  method DeleteNext(storage: Storage, ghost stored: seq<Contact>, ids: seq<string>, k: nat)
    requires k < |ids| && storage.Contacts() == Filter(stored, NotSelected(ids[..k]))
    modifies storage
    ensures storage.contactsEntry == Some(Filter(stored, NotSelected(ids[..k + 1])))
    ensures storage.groupsEntry == old(storage.groupsEntry)
  {
    DeleteStep(stored, ids, k);
    storage.DeleteContact(ids[k]);
  }

  /** Deleting no id keeps every contact. */
  lemma DeleteNone(contacts: seq<Contact>)
    ensures Filter(contacts, NotSelected([])) == contacts
  {
    FilterAll(contacts, NotSelected([]));
  }

  // ---------------------------------------------------------------------------------------
  // The provider

  /** The `ContactProvider`'s state, reading and writing through the browser store. */
  class ContactProvider {
    /** The `contacts` state. */
    var contacts: seq<Contact>
    /** The `searchQuery` state. */
    var searchQuery: string
    /** The `selectedContacts` state: the ids ticked for deletion. */
    var selectedContacts: seq<string>
    /** The `openDialog` state. */
    var openDialog: bool
    /** The `editContact` state. */
    var editContact: Option<Contact>
    /** The `errorMessage` state. */
    var errorMessage: Option<string>
    /** The `successMessage` state. */
    var successMessage: Option<string>
    /** The store the provider reads and writes. */
    const storage: Storage

    /** The provider's first render. */
    constructor(storage: Storage)
      ensures contacts == [] && searchQuery == "" && selectedContacts == []
      ensures !openDialog && editContact == None && errorMessage == None && successMessage == None
      ensures this.storage == storage
    {
      contacts := [];
      searchQuery := "";
      selectedContacts := [];
      openDialog := false;
      editContact := None;
      errorMessage := None;
      successMessage := None;
      this.storage := storage;
    }

    /** `filteredContacts`, recomputed from the current state. */
    function Filtered(): (r: seq<Contact>)
      reads this
      ensures forall i :: 0 <= i < |r| ==> Includes(LowerAscii(r[i].name), LowerAscii(searchQuery))
    {
      FilteredContacts(contacts, searchQuery)
    }

    /**
     * `groupedContacts`, recomputed from `filteredContacts`: `None` when a filtered contact
     * has an empty name, otherwise the key-ordered index of the sorted filtered contacts,
     * whose buckets together hold every filtered contact exactly as often as it occurs.
     */
    method Grouped(rank: string -> real) returns (r: Option<seq<(string, seq<Contact>)>>)
      ensures r.None? <==> exists i :: 0 <= i < |Filtered()| && Filtered()[i].name == []
      ensures r.Some? ==> r.value == Index(SortByName(Filtered(), rank), Order)
      ensures r.Some? ==> multiset(Flatten(r.value)) == multiset(Filtered())
    {
      var filtered := Filtered();
      r := GroupedContacts(filtered, rank);
      if r.Some? {
        GroupedIsPermutation(filtered, rank);
      }
      assert filtered == Filtered();
    }

    /** `updateContacts()`, run on mount and whenever the groups change: `setContacts(getContacts())`. */
    method UpdateContacts()
      modifies this
      ensures contacts == storage.Contacts()
      ensures searchQuery == old(searchQuery) && selectedContacts == old(selectedContacts)
      ensures openDialog == old(openDialog) && editContact == old(editContact)
      ensures errorMessage == old(errorMessage) && successMessage == old(successMessage)
    {
      contacts := storage.GetContacts();
    }

    /** `setSearchQuery(query)`. */
    method SetSearchQuery(query: string)
      modifies this
      ensures searchQuery == query && contacts == old(contacts) && selectedContacts == old(selectedContacts)
      ensures openDialog == old(openDialog) && editContact == old(editContact)
      ensures errorMessage == old(errorMessage) && successMessage == old(successMessage)
    {
      searchQuery := query;
    }

    /** `handleNewContact()`: opens the dialog with no contact to edit. */
    method HandleNewContact()
      modifies this
      ensures openDialog && editContact == None
      ensures contacts == old(contacts) && searchQuery == old(searchQuery) && selectedContacts == old(selectedContacts)
      ensures errorMessage == old(errorMessage) && successMessage == old(successMessage)
    {
      editContact := None;
      openDialog := true;
    }

    /** `handleMultipleSelected(id)`: flips whether `id` is selected. */
    method HandleMultipleSelected(id: string)
      modifies this
      ensures selectedContacts == Toggle(old(selectedContacts), id)
      ensures contacts == old(contacts) && searchQuery == old(searchQuery)
      ensures openDialog == old(openDialog) && editContact == old(editContact)
      ensures errorMessage == old(errorMessage) && successMessage == old(successMessage)
    {
      selectedContacts := Toggle(selectedContacts, id);
    }

    /** `selectAllContacts()`: selects the id of every contact, filtered out or not, in list order. */
    method SelectAllContacts()
      modifies this
      ensures selectedContacts == Ids(contacts)
      ensures contacts == old(contacts) && searchQuery == old(searchQuery)
      ensures openDialog == old(openDialog) && editContact == old(editContact)
      ensures errorMessage == old(errorMessage) && successMessage == old(successMessage)
    {
      selectedContacts := Ids(contacts);
    }

    /** `deselectAllContacts()`. */
    method DeselectAllContacts()
      modifies this
      ensures selectedContacts == []
      ensures contacts == old(contacts) && searchQuery == old(searchQuery)
      ensures openDialog == old(openDialog) && editContact == old(editContact)
      ensures errorMessage == old(errorMessage) && successMessage == old(successMessage)
    {
      selectedContacts := [];
    }

    /**
     * `handleDeleteMultiple()`: deletes each selected id from the store in turn (each delete
     * rewrites the stored list), reloads the list, clears the selection and the success message.
     */
    method HandleDeleteMultiple()
      modifies this, storage
      ensures storage.contactsEntry ==
        if old(selectedContacts) == [] then old(storage.contactsEntry)
        else Some(Filter(old(storage.Contacts()), NotSelected(old(selectedContacts))))
      ensures storage.Contacts() == Filter(old(storage.Contacts()), NotSelected(old(selectedContacts)))
      ensures storage.groupsEntry == old(storage.groupsEntry)
      ensures contacts == storage.Contacts() && selectedContacts == [] && successMessage == None
      ensures searchQuery == old(searchQuery) && openDialog == old(openDialog)
      ensures editContact == old(editContact) && errorMessage == old(errorMessage)
    {
      DeleteEach(storage, selectedContacts);
      contacts := storage.GetContacts();
      selectedContacts := [];
      successMessage := None;
    }
  }
}
