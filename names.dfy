/** Name policy: `clean_name`, `replace_non_latin_characters`,
    `is_valid_name`, `is_latin_name`, `all_question_marks` and
    `is_valid_name_spacy`, over their two character allowlists. */
module Names {
  import opened Text

  /** The non-ASCII letters of the allowlist shared by `clean_name`,
      `replace_non_latin_characters` and `is_latin_name`. */
  predicate IsNameDiacritic(c: char)
  {
    || c == 'ç' || c == 'Ç' || c == 'ğ' || c == 'Ğ' || c == 'ı' || c == 'İ' || c == 'ö' || c == 'Ö'
    || c == 'ş' || c == 'Ş' || c == 'ü' || c == 'Ü' || c == 'é' || c == 'É' || c == 'è' || c == 'È'
    || c == 'ê' || c == 'Ê' || c == 'á' || c == 'Á' || c == 'à' || c == 'À' || c == 'â' || c == 'Â'
    || c == 'í' || c == 'Í' || c == 'ì' || c == 'Ì' || c == 'î' || c == 'Î' || c == 'ó' || c == 'Ó'
    || c == 'ò' || c == 'Ò' || c == 'ô' || c == 'Ô' || c == 'ú' || c == 'Ú' || c == 'ù' || c == 'Ù'
    || c == 'û' || c == 'Û' || c == 'ÿ' || c == 'Ÿ' || c == 'ý' || c == 'Ý' || c == 'ž' || c == 'Ž'
    || c == 'ñ' || c == 'Ñ' || c == 'ß'
  }

  predicate IsAsciiLetter(c: char)
  {
    'a' <= c <= 'z' || 'A' <= c <= 'Z'
  }

  /** The character class `replace_non_latin_characters` keeps: letters,
      apostrophe, whitespace and hyphen. */
  predicate InReplaceAllowlist(c: char)
  {
    IsAsciiLetter(c) || IsNameDiacritic(c) || c == '\'' || IsSpace(c) || c == '-'
  }

  /** The character class of `clean_name` and `is_latin_name`: the one above
      plus '?'. */
  predicate InNameAllowlist(c: char)
  {
    InReplaceAllowlist(c) || c == '?'
  }

  /** Membership in `valid_chars` of the entity check: the ASCII letters,
      `string.whitespace` (tab to carriage return, and the space) and the
      Latin-1 letters from À to ÿ except Æ, Ð, Þ, æ, ð and þ (the signs ×
      and ÷ are not letters). No apostrophe, hyphen, '?', ğ, ş or ı. */
  predicate IsValidChar(c: char)
  {
    || IsAsciiLetter(c)
    || '\t' <= c <= '\r' || c == ' '
    || ('À' <= c <= 'ÿ' && c !in {'Æ', 'Ð', '×', 'Þ', 'æ', 'ð', '÷', 'þ'})
  }

  // ---------------------------------------------------------------------------
  // clean_name

  /** The substitution that deletes every character outside the allowlist. */
  function RemoveDisallowed(s: string): (r: string)
    ensures forall i :: 0 <= i < |r| ==> InNameAllowlist(r[i])
  {
    if s == [] then []
    else (if InNameAllowlist(s[0]) then [s[0]] else []) + RemoveDisallowed(s[1..])
  }

  function CapitalizeAll(ws: seq<string>): (r: seq<string>)
    ensures |r| == |ws| && forall i :: 0 <= i < |ws| ==> r[i] == Capitalize(ws[i])
  {
    seq(|ws|, i requires 0 <= i < |ws| => Capitalize(ws[i]))
  }

  /** `clean_name`: delete disallowed characters, strip, and join the
      capitalized words with single spaces. */
  function CleanName(name: string): string
  {
    Join(CapitalizeAll(Split(Strip(RemoveDisallowed(name)))))
  }

  // ---------------------------------------------------------------------------
  // replace_non_latin_characters, is_valid_name, is_latin_name, all_question_marks

  function Substitute(c: char): char
  {
    if InReplaceAllowlist(c) then c else '?'
  }

  /** `replace_non_latin_characters`: every character outside its allowlist
      becomes '?', then the result is stripped. */
  function ReplaceNonLatinCharacters(name: string): string
  {
    Strip(MapChars(name, Substitute))
  }

  /** `is_valid_name`: at least a first name and a last name. */
  predicate IsValidName(name: string)
  {
    |Split(name)| >= 2
  }

  /** `is_latin_name`: the anchored pattern `^[...]+$` matches. */
  predicate IsLatinName(name: string)
  {
    |name| > 0 && forall i :: 0 <= i < |name| ==> InNameAllowlist(name[i])
  }

  /** `all_question_marks`. */
  predicate AllQuestionMarks(name: string)
  {
    forall i :: 0 <= i < |name| ==> name[i] == '?'
  }

  // ---------------------------------------------------------------------------
  // is_valid_name_spacy

  /** The early-return loop over the blacklist: does some lowercased entry
      occur in the lowercased name? */
  function BlacklistHit(nameLower: string, blacklist: seq<string>): bool
  {
    if blacklist == [] then false
    else if Contains(nameLower, Lower(blacklist[0])) then true
    else BlacklistHit(nameLower, blacklist[1..])
  }

  /** `is_valid_name_spacy`. The entity-recognizer loop at its end returns
      True whichever way it goes, so it is left out. */
  function IsValidNameSpacy(name: string, blacklist: seq<string>): bool
  {
    if exists i :: 0 <= i < |name| && !IsValidChar(name[i]) then false
    else
      var nameLower := Lower(name);
      if BlacklistHit(nameLower, blacklist) then false
      else
        var parts := Split(name);
        if |parts| == 1 && !Contains(nameLower, "u.") then false
        else if (exists i :: 0 <= i < |parts| && |parts[i]| == 1) && !Contains(nameLower, "u.") then false
        else true
  }

  // ---------------------------------------------------------------------------
  // Lemmas

  /** Case mapping keeps an allowed character allowed. */
  lemma CaseMapsStayAllowed(c: char)
    requires InNameAllowlist(c)
    ensures InNameAllowlist(ToUpper(c)) && InNameAllowlist(ToLower(c))
  {
    if IsAsciiLetter(c) {
    } else if IsNameDiacritic(c) {
      assert InNameAllowlist(ToUpper(c));
      assert InNameAllowlist(ToLower(c));
    }
  }

  lemma {:induction false} RemoveDisallowedKeepsAllowed(s: string)
    requires forall i :: 0 <= i < |s| ==> InNameAllowlist(s[i])
    ensures RemoveDisallowed(s) == s
  {
    if s != [] {
      RemoveDisallowedKeepsAllowed(s[1..]);
    }
  }

  /** The deletion works character by character: it distributes over
      concatenation ... */
  lemma {:induction false} RemoveDisallowedAppend(a: string, b: string)
    ensures RemoveDisallowed(a + b) == RemoveDisallowed(a) + RemoveDisallowed(b)
  {
    if a != [] {
      var c, rest := a[0], a[1..];
      assert a == [c] + rest && a + b == [c] + (rest + b);
      RemoveDisallowedCons(c, rest);
      RemoveDisallowedCons(c, rest + b);
      RemoveDisallowedAppend(rest, b);
      assert RemoveDisallowed([c]) + (RemoveDisallowed(rest) + RemoveDisallowed(b)) ==
        (RemoveDisallowed([c]) + RemoveDisallowed(rest)) + RemoveDisallowed(b);
    } else {
      assert a + b == b;
    }
  }

  lemma RemoveDisallowedCons(c: char, s: string)
    ensures RemoveDisallowed([c] + s) == RemoveDisallowed([c]) + RemoveDisallowed(s)
  {
    assert ([c] + s)[0] == c && ([c] + s)[1..] == s && [c][1..] == [];
  }

  /** ... and deletes exactly the characters outside the allowlist. */
  lemma RemoveDisallowedChar(c: char)
    ensures RemoveDisallowed([c]) == [c] <==> InNameAllowlist(c)
    ensures RemoveDisallowed([c]) == [] <==> !InNameAllowlist(c)
  {
    assert [c][1..] == [];
  }

  predicate AllAllowed(s: string)
  {
    forall i :: 0 <= i < |s| ==> InNameAllowlist(s[i])
  }

  lemma SplitKeepsAllowed(s: string)
    requires AllAllowed(s)
    ensures forall k :: 0 <= k < |Split(s)| ==> AllAllowed(Split(s)[k])
  {
    SplitCharsFrom(s);
  }

  lemma {:induction false} JoinKeepsAllowed(ws: seq<string>)
    requires forall k :: 0 <= k < |ws| ==> AllAllowed(ws[k])
    ensures AllAllowed(Join(ws))
  {
    if |ws| > 1 {
      JoinKeepsAllowed(ws[1..]);
      var j := Join(ws);
      assert j == ws[0] + " " + Join(ws[1..]);
      forall i | 0 <= i < |j| ensures InNameAllowlist(j[i]) {
        if i > |ws[0]| {
          assert j[i] == Join(ws[1..])[i - |ws[0]| - 1];
        }
      }
    }
  }

  lemma CapitalizeKeepsAllowed(w: string)
    requires AllAllowed(w)
    ensures AllAllowed(Capitalize(w))
  {
    if w != [] {
      CaseMapsStayAllowed(w[0]);
      forall i | 1 <= i < |w| ensures InNameAllowlist(ToLower(w[i])) {
        CaseMapsStayAllowed(w[i]);
      }
    }
  }

  /** `str.capitalize` treats a hyphenated name as one word: the letter
      after the hyphen is lowered, as in "Jean-François" to "Jean-françois". */
  lemma CapitalizeHyphenated(w: string, i: nat)
    requires 0 < i && i + 1 < |w| && w[i] == '-'
    ensures Capitalize(w)[i] == '-' && Capitalize(w)[i + 1] == ToLower(w[i + 1])
  {
  }

  /** The same on a short name with a Turkish letter after the hyphen. */
  lemma CapitalizeHyphenatedExample()
    ensures Capitalize("Jo-Ça") == "Jo-ça"
  {
    var tail := "o-Ça";
    assert ToLower('o') == 'o' && ToLower('-') == '-' && ToLower('Ç') == 'ç' && ToLower('a') == 'a';
    assert Lower(tail) == [ToLower('o'), ToLower('-'), ToLower('Ç'), ToLower('a')];
  }

  /** What `clean_name` returns: only allowed characters, single-spaced, and
      its words are the capitalized words of the input once the disallowed
      characters are gone. */
  lemma CleanNameShape(name: string)
    ensures var r := CleanName(name);
      && AllAllowed(r)
      && SingleSpaced(r)
      && Split(r) == CapitalizeAll(Split(RemoveDisallowed(name)))
      && forall k :: 0 <= k < |Split(r)| ==> IsCapitalized(Split(r)[k])
  {
    var f := RemoveDisallowed(name);
    var st := Strip(f);
    StripKeepsAllowed(f);
    SplitStrip(f);
    SplitKeepsAllowed(st);
    var ws := Split(st);
    CapitalizedWords(ws);
    var cs := CapitalizeAll(ws);
    assert CleanName(name) == Join(cs);
    JoinKeepsAllowed(cs);
    JoinSingleSpaced(cs);
    SplitJoin(cs);
  }

  lemma StripKeepsAllowed(s: string)
    requires AllAllowed(s)
    ensures AllAllowed(Strip(s))
  {
    var st := Strip(s);
    forall i | 0 <= i < |st| ensures InNameAllowlist(st[i]) {
      assert st[i] in s;
    }
  }

  /** Capitalizing allowlisted words gives capitalized allowlisted words. */
  lemma CapitalizedWords(ws: seq<string>)
    requires forall k :: 0 <= k < |ws| ==> IsWord(ws[k]) && AllAllowed(ws[k])
    ensures forall k :: 0 <= k < |ws| ==>
      var c := CapitalizeAll(ws)[k]; IsWord(c) && IsCapitalized(c) && AllAllowed(c)
  {
    var cs := CapitalizeAll(ws);
    forall k | 0 <= k < |ws|
      ensures IsWord(cs[k]) && IsCapitalized(cs[k]) && AllAllowed(cs[k])
    {
      CapitalizeWord(ws[k]);
      CapitalizeKeepsAllowed(ws[k]);
    }
  }

  /** Capitalizing words twice is capitalizing them once. */
  lemma CapitalizeAllTwice(ws: seq<string>)
    requires forall k :: 0 <= k < |ws| ==> IsWord(ws[k])
    ensures CapitalizeAll(CapitalizeAll(ws)) == CapitalizeAll(ws)
  {
    forall k | 0 <= k < |ws| ensures Capitalize(Capitalize(ws[k])) == Capitalize(ws[k]) {
      CapitalizeWord(ws[k]);
    }
  }

  /** Cleaning a cleaned name changes nothing. */
  lemma CleanNameIdempotent(name: string)
    ensures CleanName(CleanName(name)) == CleanName(name)
  {
    var r := CleanName(name);
    CleanNameShape(name);
    RemoveDisallowedKeepsAllowed(r);
    StripSingleSpaced(r);
    assert CleanName(r) == Join(CapitalizeAll(Split(r)));
    CapitalizeAllTwice(Split(RemoveDisallowed(name)));
    assert CapitalizeAll(Split(r)) == Split(r);
    JoinSplitSingleSpaced(r);
  }

  /** A cleaned name that passes `is_valid_name` also passes `is_latin_name`. */
  lemma ValidCleanedIsLatin(name: string)
    requires IsValidName(CleanName(name))
    ensures IsLatinName(CleanName(name))
  {
    CleanNameShape(name);
    SplitEmptyIff(CleanName(name));
  }

  /** A cleaned name passes `is_valid_name` exactly when the input, once its
      disallowed characters are gone, has whitespace between two other
      characters. */
  lemma CleanNameValidIff(name: string)
    ensures IsValidName(CleanName(name)) <==>
      exists i, j, k :: SeparatedAt(RemoveDisallowed(name), i, j, k)
  {
    CleanNameShape(name);
    SplitCountIff(RemoveDisallowed(name));
  }

  /** `is_valid_name` holds exactly when whitespace separates two other
      characters. */
  lemma IsValidNameIff(name: string)
    ensures IsValidName(name) <==> exists i, j, k :: SeparatedAt(name, i, j, k)
  {
    SplitCountIff(name);
  }

  /** The substitution leaves whitespace whitespace and everything else
      not. */
  lemma SubstituteKeepsSpace()
    ensures forall c :: IsSpace(Substitute(c)) == IsSpace(c)
  {
    forall c ensures IsSpace(Substitute(c)) == IsSpace(c) {
      if !InReplaceAllowlist(c) {
        assert !IsSpace(c);
      }
    }
  }

  lemma SubstituteAllowed(c: char)
    ensures InNameAllowlist(Substitute(c))
  {
  }

  /** Stripping before or after the substitution is the same. */
  lemma ReplaceSubstitutesStripped(name: string)
    ensures ReplaceNonLatinCharacters(name) == MapChars(Strip(name), Substitute)
  {
    SubstituteKeepsSpace();
    StripMapCommute(name, Substitute);
  }

  /** `replace_non_latin_characters` keeps every allowed character of the
      stripped name where it is and puts '?' in place of every other one. */
  lemma ReplaceNonLatinShape(name: string)
    ensures |ReplaceNonLatinCharacters(name)| == |Strip(name)|
    ensures forall i :: 0 <= i < |Strip(name)| ==>
      ReplaceNonLatinCharacters(name)[i] == if InReplaceAllowlist(Strip(name)[i]) then Strip(name)[i] else '?'
  {
    ReplaceSubstitutesStripped(name);
  }

  /** What the replacement leaves, unless empty, passes `is_latin_name`. */
  lemma ReplacedIsLatin(name: string)
    ensures ReplaceNonLatinCharacters(name) != [] ==> IsLatinName(ReplaceNonLatinCharacters(name))
  {
    var st := Strip(name);
    var r := MapChars(st, Substitute);
    ReplaceSubstitutesStripped(name);
    forall i | 0 <= i < |r| ensures InNameAllowlist(r[i]) {
      SubstituteAllowed(st[i]);
    }
  }

  /** On a name `is_latin_name` accepts, the replacement only strips. */
  lemma ReplaceFixesLatin(name: string)
    requires IsLatinName(name)
    ensures ReplaceNonLatinCharacters(name) == Strip(name)
  {
    ReplaceSubstitutesStripped(name);
    var st := Strip(name);
    forall i | 0 <= i < |st| ensures Substitute(st[i]) == st[i] {
      assert st[i] in name;
    }
  }

  /** The replacement degenerates to nothing but '?' (the empty string
      included) exactly when no character of the stripped name is in the
      replacement allowlist. */
  lemma AllQuestionMarksAfterReplace(name: string)
    ensures AllQuestionMarks(ReplaceNonLatinCharacters(name)) <==>
      forall i :: 0 <= i < |Strip(name)| ==> !InReplaceAllowlist(Strip(name)[i])
  {
    ReplaceSubstitutesStripped(name);
    AllQuestionMarksOfSubstituted(Strip(name));
  }

  lemma AllQuestionMarksOfSubstituted(s: string)
    ensures AllQuestionMarks(MapChars(s, Substitute)) <==>
      forall i :: 0 <= i < |s| ==> !InReplaceAllowlist(s[i])
  {
    var r := MapChars(s, Substitute);
    forall i | 0 <= i < |s| ensures (r[i] == '?') == !InReplaceAllowlist(s[i]) {
      SubstituteQuestion(s[i]);
    }
  }

  /** A character becomes '?' exactly when it is outside the allowlist. */
  lemma SubstituteQuestion(c: char)
    ensures (Substitute(c) == '?') == !InReplaceAllowlist(c)
  {
    assert !InReplaceAllowlist('?');
  }

  /** The blacklist loop finds a hit exactly when some lowercased entry is a
      substring of the lowercased name. */
  lemma {:induction false} BlacklistHitIff(nameLower: string, blacklist: seq<string>)
    ensures BlacklistHit(nameLower, blacklist) <==>
      exists k :: 0 <= k < |blacklist| && IsSubstring(Lower(blacklist[k]), nameLower)
  {
    if blacklist != [] {
      ContainsIff(nameLower, Lower(blacklist[0]));
      BlacklistHitIff(nameLower, blacklist[1..]);
      forall k | 1 <= k < |blacklist|
        ensures blacklist[k] == blacklist[1..][k - 1]
      {
      }
    }
  }

  /** `is_valid_name_spacy` rejects exactly the names with a character
      outside `valid_chars`, a blacklisted substring, or — when "u." does not
      occur — a single part or a one-character part. */
  lemma IsValidNameSpacyIff(name: string, blacklist: seq<string>)
    ensures !IsValidNameSpacy(name, blacklist) <==>
      || (exists i :: 0 <= i < |name| && !IsValidChar(name[i]))
      || (exists k :: 0 <= k < |blacklist| && IsSubstring(Lower(blacklist[k]), Lower(name)))
      || (!IsSubstring("u.", Lower(name)) &&
          (|Split(name)| == 1 || exists p :: p in Split(name) && |p| == 1))
  {
    BlacklistHitIff(Lower(name), blacklist);
    ContainsIff(Lower(name), "u.");
    OneCharPart(Split(name));
  }

  lemma OneCharPart(parts: seq<string>)
    ensures (exists p :: p in parts && |p| == 1) <==> (exists i :: 0 <= i < |parts| && |parts[i]| == 1)
  {
    if exists p :: p in parts && |p| == 1 {
      var p :| p in parts && |p| == 1;
      var i :| 0 <= i < |parts| && parts[i] == p;
    }
  }

  /** An empty blacklist entry (a blank line in the file) rejects every name. */
  lemma EmptyEntryRejectsAll(name: string, blacklist: seq<string>)
    requires "" in blacklist
    ensures !IsValidNameSpacy(name, blacklist)
  {
    var k :| 0 <= k < |blacklist| && blacklist[k] == "";
    assert Lower(blacklist[k]) == "";
    assert OccursAt(Lower(name), "", 0);
    IsValidNameSpacyIff(name, blacklist);
  }

  /** The empty name passes the entity check unless the blacklist holds an
      empty entry. */
  lemma EmptyNameSpacy(blacklist: seq<string>)
    ensures IsValidNameSpacy("", blacklist) <==> "" !in blacklist
  {
    IsValidNameSpacyIff("", blacklist);
    forall k | 0 <= k < |blacklist| && IsSubstring(Lower(blacklist[k]), "")
      ensures blacklist[k] == ""
    {
      LowerLength(blacklist[k]);
    }
    if "" in blacklist {
      EmptyEntryRejectsAll("", blacklist);
    }
    assert Split("") == [];
  }

  /** Apostrophe, hyphen, '?' and the Turkish ğ, ş and ı pass the name
      allowlist but not `valid_chars`, so a name holding one of them fails
      the entity check. */
  lemma SpacyRejectsNamePunctuation(name: string, blacklist: seq<string>, i: nat)
    requires i < |name| && name[i] in {'\'', '-', '?', 'ğ', 'ş', 'ı'}
    ensures InNameAllowlist(name[i])
    ensures !IsValidNameSpacy(name, blacklist)
  {
  }

  /** The "u." exception of the one-part and one-letter tests never fires:
      '.' is not in `valid_chars`, so a name whose lower case contains "u."
      has already failed the character test. */
  lemma UDotNeverExempts(name: string, blacklist: seq<string>)
    requires Contains(Lower(name), "u.")
    ensures exists i :: 0 <= i < |name| && !IsValidChar(name[i])
    ensures !IsValidNameSpacy(name, blacklist)
  {
    ContainsIff(Lower(name), "u.");
    var k :| OccursAt(Lower(name), "u.", k);
    var i := k + 1;
    assert Lower(name)[k..k + 2][1] == Lower(name)[i];
    LowerDot(name[i]);
  }

  /** Only '.' lowers to '.', and it is not in `valid_chars`. */
  lemma LowerDot(c: char)
    requires ToLower(c) == '.'
    ensures c == '.' && !IsValidChar(c)
  {
  }
}
