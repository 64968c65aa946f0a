/** Python string primitives that the contact cleaner relies on: whitespace,
    `str.strip`, `str.lstrip(c)`, `str.split()`, `' '.join`, `str.lower`,
    `str.capitalize` and the `in` substring test. */
module Text {

  /** Python's `str.isspace()`, which is also what `\s`, `strip()` and
      `split()` treat as whitespace. */
  predicate IsSpace(c: char)
  {
    ('\t' <= c <= '\r') || ('\U{1C}' <= c <= '\U{1F}') || c == ' ' ||
    c == '\U{85}' || c == '\U{A0}' || c == '\U{1680}' ||
    ('\U{2000}' <= c <= '\U{200A}') || c == '\U{2028}' || c == '\U{2029}' ||
    c == '\U{202F}' || c == '\U{205F}' || c == '\U{3000}'
  }

  /** `\d`, restricted to the ASCII digits. */
  predicate IsDigit(c: char)
  {
    '0' <= c <= '9'
  }

  /** A non-empty run of non-whitespace characters: what `split()` yields. */
  predicate IsWord(w: string)
  {
    |w| > 0 && forall i :: 0 <= i < |w| ==> !IsSpace(w[i])
  }

  predicate StartsWith(s: string, prefix: string)
  {
    |prefix| <= |s| && s[..|prefix|] == prefix
  }

  /** `s.lstrip(c)` for a single character `c`. */
  function LStrip(s: string, c: char): (r: string)
    ensures |r| <= |s| && r == s[|s| - |r|..]
    ensures forall i :: 0 <= i < |s| - |r| ==> s[i] == c
    ensures r == [] || r[0] != c
  {
    if s != [] && s[0] == c then
      var r := LStrip(s[1..], c);
      SuffixOfTail(s, r);
      r
    else s
  }

  /** `s.lstrip()`: drops the leading whitespace. */
  function DropLeadingSpaces(s: string): (r: string)
    ensures |r| <= |s| && r == s[|s| - |r|..]
    ensures forall i :: 0 <= i < |s| - |r| ==> IsSpace(s[i])
    ensures r == [] || !IsSpace(r[0])
  {
    if s != [] && IsSpace(s[0]) then
      var r := DropLeadingSpaces(s[1..]);
      SuffixOfTail(s, r);
      r
    else s
  }

  /** `s.rstrip()`: drops the trailing whitespace. */
  function DropTrailingSpaces(s: string): (r: string)
    ensures |r| <= |s| && r == s[..|r|]
    ensures forall i :: |r| <= i < |s| ==> IsSpace(s[i])
    ensures r == [] || !IsSpace(r[|r| - 1])
  {
    if s != [] && IsSpace(s[|s| - 1]) then
      var r := DropTrailingSpaces(s[..|s| - 1]);
      PrefixOfInit(s, r);
      r
    else s
  }

  /** A suffix of the tail of s is a suffix of s. */
  lemma SuffixOfTail<T>(s: seq<T>, r: seq<T>)
    requires |s| > 0 && |r| <= |s| - 1 && r == s[1..][|s| - 1 - |r|..]
    ensures r == s[|s| - |r|..]
    ensures forall i :: 0 < i < |s| ==> s[i] == s[1..][i - 1]
  {
  }

  /** A prefix of s without its last element is a prefix of s. */
  lemma PrefixOfInit<T>(s: seq<T>, r: seq<T>)
    requires |s| > 0 && |r| <= |s| - 1 && r == s[..|s| - 1][..|r|]
    ensures r == s[..|r|]
    ensures forall i :: 0 <= i < |s| - 1 ==> s[i] == s[..|s| - 1][i]
  {
  }

  /** `s.strip()`. */
  function Strip(s: string): (r: string)
    ensures r == [] || (!IsSpace(r[0]) && !IsSpace(r[|r| - 1]))
    ensures forall i :: 0 <= i < |r| ==> r[i] in s
  {
    DropTrailingSpaces(DropLeadingSpaces(s))
  }

  /** Length of the run of non-whitespace characters that starts `s`. */
  function WordLength(s: string): (n: nat)
    ensures n <= |s|
    ensures forall i :: 0 <= i < n ==> !IsSpace(s[i])
    ensures n < |s| ==> IsSpace(s[n])
  {
    if s == [] || IsSpace(s[0]) then 0 else 1 + WordLength(s[1..])
  }

  /** `s.split()` with no separator: the maximal runs of non-whitespace. */
  function Split(s: string): (ws: seq<string>)
    ensures forall i :: 0 <= i < |ws| ==> IsWord(ws[i])
    decreases |s|
  {
    var t := DropLeadingSpaces(s);
    if t == [] then []
    else
      var n := WordLength(t);
      FirstWord(t);
      WordsCons(t[..n], Split(t[n..]));
      [t[..n]] + Split(t[n..])
  }

  /** The run of non-whitespace that starts a string with a non-whitespace
      first character is a word. */
  lemma FirstWord(t: string)
    requires t != [] && !IsSpace(t[0])
    ensures IsWord(t[..WordLength(t)])
  {
    var w := t[..WordLength(t)];
    forall i | 0 <= i < |w| ensures !IsSpace(w[i]) {
      assert w[i] == t[i];
    }
  }

  lemma WordsCons(w: string, ws: seq<string>)
    requires IsWord(w) && forall i :: 0 <= i < |ws| ==> IsWord(ws[i])
    ensures forall i :: 0 <= i < |[w] + ws| ==> IsWord(([w] + ws)[i])
  {
    forall i | 0 <= i < |[w] + ws| ensures IsWord(([w] + ws)[i]) {
      if i > 0 {
        assert ([w] + ws)[i] == ws[i - 1];
      }
    }
  }

  /** `' '.join(ws)`. */
  function Join(ws: seq<string>): string
  {
    if |ws| == 0 then ""
    else if |ws| == 1 then ws[0]
    else ws[0] + " " + Join(ws[1..])
  }

  /** The normal form `' '.join(s.split())` produces: no whitespace at either
      end, and every whitespace character a single ' ' between two words. */
  predicate SingleSpaced(s: string)
  {
    (s == [] || (!IsSpace(s[0]) && !IsSpace(s[|s| - 1]))) &&
    forall i :: 0 <= i < |s| && IsSpace(s[i]) ==>
      s[i] == ' ' && i + 1 < |s| && !IsSpace(s[i + 1])
  }

  function MapChars(s: string, f: char -> char): (r: string)
    ensures |r| == |s| && forall i :: 0 <= i < |s| ==> r[i] == f(s[i])
  {
    seq(|s|, i requires 0 <= i < |s| => f(s[i]))
  }

  /** `c.lower()` on the Latin letters the name allowlists mention: ASCII,
      Latin-1 and the Turkish letters; every other character maps to itself. */
  function ToLower(c: char): char
  {
    if 'A' <= c <= 'Z' || ('À' <= c <= 'Þ' && c != '×') then (c as int + 32) as char
    else if c == 'Ğ' || c == 'Ş' || c == 'Ž' then (c as int + 1) as char
    else if c == 'Ÿ' then 'ÿ'
    else if c == 'İ' then 'i'
    else c
  }

  /** The title case `str.capitalize` gives a leading character, on the same
      letters as ToLower. */
  function ToUpper(c: char): char
  {
    if 'a' <= c <= 'z' || ('à' <= c <= 'þ' && c != '÷') then (c as int - 32) as char
    else if c == 'ğ' || c == 'ş' || c == 'ž' then (c as int - 1) as char
    else if c == 'ÿ' then 'Ÿ'
    else if c == 'ı' then 'I'
    else c
  }

  /** `s.lower()`. */
  function Lower(s: string): string
  {
    MapChars(s, ToLower)
  }

  /** `w.capitalize()`: first character upper case, the rest lower case. */
  function Capitalize(w: string): string
  {
    if w == [] then [] else [ToUpper(w[0])] + Lower(w[1..])
  }

  predicate IsCapitalized(w: string)
  {
    |w| > 0 && w[0] == ToUpper(w[0]) && forall i :: 1 <= i < |w| ==> w[i] == ToLower(w[i])
  }

  /** `needle in hay` for strings, scanning hay from the left. */
  function Contains(hay: string, needle: string): bool
  {
    if |needle| > |hay| then false
    else if hay[..|needle|] == needle then true
    else Contains(hay[1..], needle)
  }

  /** The reference meaning of a substring test: an occurrence at some offset. */
  ghost predicate OccursAt(hay: string, needle: string, k: int)
  {
    0 <= k && k + |needle| <= |hay| && hay[k..k + |needle|] == needle
  }

  /** `needle in hay` as its definition: an occurrence at some offset. */
  ghost predicate IsSubstring(needle: string, hay: string)
  {
    exists k :: OccursAt(hay, needle, k)
  }

  // ---------------------------------------------------------------------------
  // Lemmas

  /** The scanning substring test finds an occurrence exactly when one exists. */
  lemma {:induction false} ContainsIff(hay: string, needle: string)
    ensures Contains(hay, needle) <==> IsSubstring(needle, hay)
  {
    if |needle| > |hay| {
    } else if hay[..|needle|] == needle {
      assert OccursAt(hay, needle, 0);
    } else {
      ContainsIff(hay[1..], needle);
      if IsSubstring(needle, hay[1..]) {
        var k :| OccursAt(hay[1..], needle, k);
        SliceOfTail(hay, k, |needle|);
        assert OccursAt(hay, needle, k + 1);
      }
      if IsSubstring(needle, hay) {
        var k :| OccursAt(hay, needle, k);
        assert k != 0;
        SliceOfTail(hay, k - 1, |needle|);
        assert OccursAt(hay[1..], needle, k - 1);
      }
    }
  }

  /** A slice of the tail of s is the slice of s one further on. */
  lemma SliceOfTail(s: string, k: int, m: int)
    requires 0 <= k && 0 <= m && k + m <= |s| - 1
    ensures s[1..][k..k + m] == s[k + 1..k + 1 + m]
  {
  }

  lemma LowerLength(s: string)
    ensures |Lower(s)| == |s|
  {
  }

  lemma CaseMapsIdempotent(c: char)
    ensures ToUpper(ToUpper(c)) == ToUpper(c)
    ensures ToLower(ToLower(c)) == ToLower(c)
  {
  }

  /** The case maps never turn a letter into whitespace or back. */
  lemma CaseMapsKeepSpace(c: char)
    ensures IsSpace(ToUpper(c)) == IsSpace(c)
    ensures IsSpace(ToLower(c)) == IsSpace(c)
  {
  }

  /** Capitalizing a word leaves a capitalized word, and doing it twice is
      the same as doing it once. */
  lemma CapitalizeWord(w: string)
    requires IsWord(w)
    ensures IsWord(Capitalize(w)) && IsCapitalized(Capitalize(w))
    ensures Capitalize(Capitalize(w)) == Capitalize(w)
  {
    var c := Capitalize(w);
    CaseMapsIdempotent(w[0]);
    CaseMapsKeepSpace(w[0]);
    forall i | 1 <= i < |w|
      ensures c[i] == ToLower(w[i]) && !IsSpace(c[i]) && c[i] == ToLower(c[i])
    {
      CaseMapsIdempotent(w[i]);
      CaseMapsKeepSpace(w[i]);
    }
    assert Capitalize(c) == c;
  }

  /** A word followed by whitespace (or nothing) is exactly one word long. */
  lemma {:induction false} WordLengthOfWord(w: string, rest: string)
    requires forall i :: 0 <= i < |w| ==> !IsSpace(w[i])
    requires rest == [] || IsSpace(rest[0])
    ensures WordLength(w + rest) == |w|
  {
    if w != [] {
      assert (w + rest)[1..] == w[1..] + rest;
      WordLengthOfWord(w[1..], rest);
    }
  }

  /** Splitting after leading whitespace is splitting without it. */
  lemma SplitSkipsSpace(s: string)
    ensures Split(" " + s) == Split(s)
  {
    assert (" " + s)[1..] == s;
  }

  /** A word followed by whitespace (or nothing) splits off as the first word. */
  lemma SplitWordThen(w: string, rest: string)
    requires IsWord(w)
    requires rest == [] || IsSpace(rest[0])
    ensures Split(w + rest) == [w] + Split(rest)
  {
    var s := w + rest;
    assert DropLeadingSpaces(s) == s;
    WordLengthOfWord(w, rest);
    assert s[..|w|] == w;
    assert s[|w|..] == rest;
  }

  /** A word, one space, then more text: the word splits off first. */
  lemma SplitWordSpace(w: string, rest: string)
    requires IsWord(w)
    ensures Split(w + " " + rest) == [w] + Split(rest)
  {
    assert w + " " + rest == w + (" " + rest);
    SplitWordThen(w, " " + rest);
    SplitSkipsSpace(rest);
  }

  lemma HeadTail<T>(s: seq<T>)
    requires |s| > 0
    ensures s == [s[0]] + s[1..]
  {
  }

  lemma SplitOneWord(w: string)
    requires IsWord(w)
    ensures Split(w) == [w]
  {
    SplitWordThen(w, "");
    AppendNothing(w);
    SplitNothing();
  }

  lemma AppendNothing<T>(s: seq<T>)
    ensures s + [] == s && [] + s == s
  {
  }

  lemma SplitNothing()
    ensures Split("") == []
  {
  }

  /** `' '.join` of words splits back into the same words. */
  lemma {:induction false} SplitJoin(ws: seq<string>)
    requires forall i :: 0 <= i < |ws| ==> IsWord(ws[i])
    ensures Split(Join(ws)) == ws
  {
    if |ws| == 1 {
      SplitOneWord(ws[0]);
    } else if |ws| > 1 {
      var w, rest := ws[0], ws[1..];
      assert forall i :: 0 <= i < |rest| ==> rest[i] == ws[i + 1];
      SplitJoin(rest);
      assert Join(ws) == w + " " + Join(rest);
      SplitWordSpace(w, Join(rest));
      HeadTail(ws);
    }
  }

  /** `' '.join` of words is in single-spaced normal form. */
  lemma {:induction false} JoinSingleSpaced(ws: seq<string>)
    requires forall i :: 0 <= i < |ws| ==> IsWord(ws[i])
    ensures SingleSpaced(Join(ws))
    ensures |ws| > 0 ==> |Join(ws)| > 0
  {
    if |ws| > 1 {
      var w, rest := ws[0], Join(ws[1..]);
      JoinSingleSpaced(ws[1..]);
      var j := w + " " + rest;
      forall i | 0 <= i < |j| && IsSpace(j[i])
        ensures j[i] == ' ' && i + 1 < |j| && !IsSpace(j[i + 1])
      {
        if i > |w| {
          assert j[i] == rest[i - |w| - 1];
          assert j[i + 1] == rest[i - |w|];
        }
      }
    }
  }

  /** `strip()` removes exactly the outer whitespace: its result is the
      slice of s that starts at the first non-whitespace character, with
      only whitespace before and after it. */
  lemma StripSlice(s: string)
    ensures var a := |s| - |DropLeadingSpaces(s)|;
      && a + |Strip(s)| <= |s|
      && Strip(s) == s[a..a + |Strip(s)|]
      && (forall i :: 0 <= i < a ==> IsSpace(s[i]))
      && (forall i :: a + |Strip(s)| <= i < |s| ==> IsSpace(s[i]))
  {
    var t := DropLeadingSpaces(s);
    var a := |s| - |t|;
    var r := DropTrailingSpaces(t);
    SuffixPrefix(s, t, r);
    SpacesOfSuffix(s, t, |r|);
  }

  /** Whitespace from n on in the suffix t of s is whitespace in s. */
  lemma SpacesOfSuffix(s: string, t: string, n: nat)
    requires |t| <= |s| && t == s[|s| - |t|..] && n <= |t|
    requires forall i :: n <= i < |t| ==> IsSpace(t[i])
    ensures forall i :: |s| - |t| + n <= i < |s| ==> IsSpace(s[i])
  {
    forall i | |s| - |t| + n <= i < |s| ensures IsSpace(s[i]) {
      assert s[i] == t[i - (|s| - |t|)];
    }
  }

  /** A prefix r of the suffix t of s is the slice of s where t starts. */
  lemma SuffixPrefix(s: string, t: string, r: string)
    requires |t| <= |s| && t == s[|s| - |t|..] && |r| <= |t| && r == t[..|r|]
    ensures r == s[|s| - |t|..|s| - |t| + |r|]
  {
  }

  /** Stripping a single-spaced string changes nothing. */
  lemma StripSingleSpaced(s: string)
    requires SingleSpaced(s)
    ensures Strip(s) == s
  {
    assert DropLeadingSpaces(s) == s;
    assert DropTrailingSpaces(s) == s;
  }

  /** A single-spaced string is `' '.join` of its own `split()`. */
  lemma {:induction false} JoinSplitSingleSpaced(s: string)
    requires SingleSpaced(s)
    ensures Join(Split(s)) == s
    decreases |s|
  {
    if s != [] {
      var n := WordLength(s);
      if n == |s| {
        assert s[..n] == s && s + "" == s;
        SplitWordThen(s, "");
      } else {
        var w, tail := s[..n], s[n + 1..];
        SingleSpacedAfterWord(s, n);
        assert s == w + " " + tail;
        SplitWordSpace(w, tail);
        JoinSplitSingleSpaced(tail);
        SplitEmptyIff(tail);
        JoinCons(w, Split(tail));
      }
    }
  }

  lemma JoinCons(w: string, ws: seq<string>)
    requires ws != []
    ensures Join([w] + ws) == w + " " + Join(ws)
  {
    assert ([w] + ws)[1..] == ws;
  }

  /** What follows the first word and its separating space is again
      single-spaced, and not empty. */
  lemma SingleSpacedAfterWord(s: string, n: nat)
    requires SingleSpaced(s) && s != []
    requires n == WordLength(s) && n < |s|
    ensures s[n] == ' ' && n + 1 < |s| && SingleSpaced(s[n + 1..]) && !IsSpace(s[n + 1])
  {
    var tail := s[n + 1..];
    forall i | 0 <= i < |tail| && IsSpace(tail[i])
      ensures tail[i] == ' ' && i + 1 < |tail| && !IsSpace(tail[i + 1])
    {
      assert tail[i] == s[n + 1 + i];
    }
  }

  /** Two non-whitespace characters at i and k with whitespace at j between. */
  predicate SeparatedAt(s: string, i: int, j: int, k: int)
  {
    0 <= i < j < k < |s| && !IsSpace(s[i]) && IsSpace(s[j]) && !IsSpace(s[k])
  }

  /** `split()` yields at least two words exactly when some whitespace
      separates two non-whitespace characters. */
  lemma SplitCountIff(s: string)
    ensures |Split(s)| >= 2 <==> exists i, j, k :: SeparatedAt(s, i, j, k)
  {
    if |Split(s)| >= 2 {
      var i, j, k := SeparatorOfTwoWords(s);
    }
    if exists i, j, k :: SeparatedAt(s, i, j, k) {
      var i, j, k :| SeparatedAt(s, i, j, k);
      TwoWordsOfSeparator(s, i, j, k);
    }
  }

  lemma SeparatorOfTwoWords(s: string) returns (i: int, j: int, k: int)
    requires |Split(s)| >= 2
    ensures SeparatedAt(s, i, j, k)
  {
    var t := DropLeadingSpaces(s);
    var a := |s| - |t|;
    var n := WordLength(t);
    var rest := t[n..];
    assert Split(rest) != [] by {
      assert Split(s) == [t[..n]] + Split(rest);
    }
    var q := NonSpaceOfWords(rest);
    i, j, k := a, a + n, a + n + q;
    assert s[i] == t[0] && s[j] == t[n] && s[k] == t[n + q] by {
      assert t == s[a..];
    }
  }

  lemma NonSpaceOfWords(s: string) returns (q: nat)
    requires Split(s) != []
    ensures q < |s| && !IsSpace(s[q]) && (q == 0 || IsSpace(s[0]))
  {
    var t := DropLeadingSpaces(s);
    q := |s| - |t|;
    assert s[q] == t[0];
  }

  lemma TwoWordsOfSeparator(s: string, i: int, j: int, k: int)
    requires SeparatedAt(s, i, j, k)
    ensures |Split(s)| >= 2
  {
    var t := DropLeadingSpaces(s);
    var i', j', k' := SeparatedAfterStrip(s, t, i, j, k);
    SecondWordAfter(t, i', j', k');
    SplitStep(s, t, WordLength(t));
  }

  /** Removing the leading whitespace keeps a separator, shifted left. */
  lemma SeparatedAfterStrip(s: string, t: string, i: int, j: int, k: int)
      returns (i': int, j': int, k': int)
    requires SeparatedAt(s, i, j, k) && t == DropLeadingSpaces(s)
    ensures SeparatedAt(t, i', j', k')
  {
    LeadingSpacesBefore(s, i);
    i' := SuffixIndex(s, t, i);
    j' := SuffixIndex(s, t, j);
    k' := SuffixIndex(s, t, k);
  }

  /** `lstrip()` stops at or before the first non-whitespace character. */
  lemma LeadingSpacesBefore(s: string, x: int)
    requires 0 <= x < |s| && !IsSpace(s[x])
    ensures |s| - |DropLeadingSpaces(s)| <= x
  {
  }

  /** After the first word of t, a separator leaves another word. */
  lemma SecondWordAfter(t: string, i: int, j: int, k: int)
    requires SeparatedAt(t, i, j, k)
    ensures Split(t[WordLength(t)..]) != []
  {
    FirstWordBefore(t, j);
    NonSpaceAfter(t, WordLength(t), k);
  }

  /** The first word ends at or before the first whitespace character. */
  lemma FirstWordBefore(t: string, x: int)
    requires 0 <= x < |t| && IsSpace(t[x])
    ensures WordLength(t) <= x
  {
  }

  /** A non-whitespace character at or after n leaves a word in t[n..]. */
  lemma NonSpaceAfter(t: string, n: nat, x: int)
    requires n <= x < |t| && !IsSpace(t[x])
    ensures Split(t[n..]) != []
  {
    var rest := t[n..];
    assert rest[x - n] == t[x];
    SplitEmptyIff(rest);
  }

  /** Where s[x] sits in its suffix t. */
  lemma SuffixIndex(s: string, t: string, x: int) returns (y: int)
    requires |t| <= |s| && t == s[|s| - |t|..] && |s| - |t| <= x < |s|
    ensures y == x - (|s| - |t|) && 0 <= y < |t| && t[y] == s[x]
  {
    y := x - (|s| - |t|);
  }

  lemma {:induction false} SplitEmptyIff(s: string)
    ensures Split(s) == [] <==> forall i :: 0 <= i < |s| ==> IsSpace(s[i])
  {
    var t := DropLeadingSpaces(s);
    if t != [] {
      assert s[|s| - |t|] == t[0];
    }
  }

  /** Stripping commutes with a character map that keeps whitespace where it
      was. */
  lemma {:induction false} StripMapCommute(s: string, f: char -> char)
    requires forall c :: IsSpace(f(c)) == IsSpace(c)
    ensures Strip(MapChars(s, f)) == MapChars(Strip(s), f)
  {
    DropLeadingMapCommute(s, f);
    DropTrailingMapCommute(DropLeadingSpaces(s), f);
  }

  lemma {:induction false} DropLeadingMapCommute(s: string, f: char -> char)
    requires forall c :: IsSpace(f(c)) == IsSpace(c)
    ensures DropLeadingSpaces(MapChars(s, f)) == MapChars(DropLeadingSpaces(s), f)
  {
    if s != [] && IsSpace(s[0]) {
      assert MapChars(s, f)[1..] == MapChars(s[1..], f);
      DropLeadingMapCommute(s[1..], f);
    }
  }

  lemma {:induction false} DropTrailingMapCommute(s: string, f: char -> char)
    requires forall c :: IsSpace(f(c)) == IsSpace(c)
    ensures DropTrailingSpaces(MapChars(s, f)) == MapChars(DropTrailingSpaces(s), f)
  {
    if s != [] && IsSpace(s[|s| - 1]) {
      assert MapChars(s, f)[..|s| - 1] == MapChars(s[..|s| - 1], f);
      DropTrailingMapCommute(s[..|s| - 1], f);
    }
  }

  /** Leading whitespace removal does not look past the first non-space. */
  lemma {:induction false} DropLeadingAppend(s: string, x: string)
    requires DropLeadingSpaces(s) != []
    ensures DropLeadingSpaces(s + x) == DropLeadingSpaces(s) + x
  {
    assert (s + x)[0] == s[0];
    if IsSpace(s[0]) {
      assert (s + x)[1..] == s[1..] + x;
      DropLeadingAppend(s[1..], x);
    }
  }

  /** Appending text that starts with whitespace does not lengthen the first
      word, unless the word already ended inside s. */
  lemma {:induction false} WordLengthAppend(t: string, x: string)
    requires WordLength(t) < |t| || x == [] || IsSpace(x[0])
    ensures WordLength(t + x) == WordLength(t)
  {
    if t == [] {
      assert t + x == x;
    } else if IsSpace(t[0]) {
      assert (t + x)[0] == t[0];
    } else {
      assert (t + x)[0] == t[0];
      assert (t + x)[1..] == t[1..] + x;
      WordLengthAppend(t[1..], x);
    }
  }

  lemma SliceAppend(a: string, b: string, n: nat)
    requires n <= |a|
    ensures (a + b)[..n] == a[..n] && (a + b)[n..] == a[n..] + b
  {
  }

  /** One step of `split()`: the first word, then the split of what follows. */
  lemma SplitStep(s: string, t: string, n: nat)
    requires t == DropLeadingSpaces(s) && t != [] && n == WordLength(t)
    ensures Split(s) == [t[..n]] + Split(t[n..])
  {
  }

  /** Every character of a word `split()` yields is a character of its input. */
  lemma {:induction false} SplitCharsFrom(s: string)
    ensures forall k, i :: 0 <= k < |Split(s)| && 0 <= i < |Split(s)[k]| ==> Split(s)[k][i] in s
    decreases |s|
  {
    var t := DropLeadingSpaces(s);
    if t != [] {
      var n := WordLength(t);
      var rest := t[n..];
      SplitStep(s, t, n);
      SplitCharsFrom(rest);
      SliceCharsIn(s, |s| - |t|, |s|);
      SliceCharsIn(t, 0, n);
      SliceCharsIn(t, n, |t|);
      WordsConsCharsIn(t[..n], Split(rest), s);
    }
  }

  lemma SliceCharsIn(s: string, lo: nat, hi: nat)
    requires lo <= hi <= |s|
    ensures forall c :: c in s[lo..hi] ==> c in s
  {
    forall c | c in s[lo..hi] ensures c in s {
      var j :| 0 <= j < hi - lo && s[lo..hi][j] == c;
      assert s[lo + j] == c;
    }
  }

  lemma WordsConsCharsIn(w: string, wr: seq<string>, s: string)
    requires forall c :: c in w ==> c in s
    requires forall k, i :: 0 <= k < |wr| && 0 <= i < |wr[k]| ==> wr[k][i] in s
    ensures forall k, i :: 0 <= k < |[w] + wr| && 0 <= i < |([w] + wr)[k]| ==> ([w] + wr)[k][i] in s
  {
    forall k, i | 0 <= k < |[w] + wr| && 0 <= i < |([w] + wr)[k]| ensures ([w] + wr)[k][i] in s {
      if k == 0 {
        assert w[i] in w;
      } else {
        assert ([w] + wr)[k] == wr[k - 1];
      }
    }
  }

  /** Trailing whitespace does not change what `split()` yields. */
  lemma {:induction false} SplitAppendSpaces(s: string, sp: string)
    requires forall i :: 0 <= i < |sp| ==> IsSpace(sp[i])
    ensures Split(s + sp) == Split(s)
    decreases |s|
  {
    var t := DropLeadingSpaces(s);
    if t == [] {
      SplitEmptyIff(s);
      SplitEmptyIff(s + sp);
      forall i | 0 <= i < |s + sp| ensures IsSpace((s + sp)[i]) {
        if i >= |s| {
          assert (s + sp)[i] == sp[i - |s|];
        } else {
          assert (s + sp)[i] == s[i];
        }
      }
    } else {
      DropLeadingAppend(s, sp);
      var n := WordLength(t);
      WordLengthAppend(t, sp);
      SplitStep(s, t, n);
      SplitStep(s + sp, t + sp, n);
      SliceAppend(t, sp, n);
      SplitAppendSpaces(t[n..], sp);
    }
  }

  /** `split()` ignores what `strip()` removes. */
  lemma SplitStrip(s: string)
    ensures Split(Strip(s)) == Split(s)
  {
    var l := DropLeadingSpaces(s);
    var r := DropTrailingSpaces(l);
    assert l == r + l[|r|..];
    SplitAppendSpaces(r, l[|r|..]);
    assert DropLeadingSpaces(l) == l;
  }
}
