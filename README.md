# mynet-parser contact cleaner, modelled in Dafny

`mynet-parser.py` cleans a semicolon-separated export of contact rows. Each
row passes through up to three stages, chosen on the command line. The name
stage is `is_latin_name`, then optionally `replace_non_latin_characters`,
then `clean_name` and `is_valid_name`. The entity check is
`is_valid_name_spacy`. The number stage is `convert_to_international`.
Rejected rows are dropped. The script collects four report lists: invalid
numbers, invalid names, non-Latin names and changed names.

This project models all of that except the file handling:

- `text.dfy` (module `Text`): the Python string primitives the script
  relies on. These are `str.isspace`, `strip`, `lstrip(c)`, `split()`,
  `' '.join`, `lower`, `capitalize` and the `in` substring test. Each comes
  with the lemmas that the name policy needs (split/join round trips, the
  two-word criterion, and case-map idempotence).
- `phone.dfy` (module `Phone`): `clean_phone_number` and
  `convert_to_international`. The `phonenumbers` library is a value of type
  `PhoneLib`: a parse function that may fail, plus the two validity
  predicates. E.164 formatting (section 6 of ITU-T Recommendation E.164) is
  written out as '+', the country code, then the national significant
  number.
- `names.dfy` (module `Names`): the two character allowlists and the name
  functions. The letters, the apostrophe, whitespace and the hyphen form the
  class `replace_non_latin_characters` keeps (line 86); `clean_name` and
  `is_latin_name` accept that class plus '?' (lines 77 and 101). The entity
  check has its own set, the `valid_chars` string of `process_csv`
  (line 118).
- `pipeline.dfy` (module `Pipeline`): the row loop of `process_csv`.
  - `ProcessRows` is a method with a `for` loop. It appends to the four
    lists and leaves a row early at every rejection, as the source does.
  - It is proved equal to `Run`, a fold of the per-row function
    `ProcessRow`. The lemmas about rows and runs are stated over `Run`.

Behaviour of the code worth knowing, which the model follows:

- The doc comment of `clean_phone_number` (lines 47-49) promises to keep a
  leading '+'. The first substitution removes it, so "+49 …" is parsed as
  "049 …" (`Phone.PlusBranchDead`).
- A repaired or cleaned name is appended to `changed_names` before the
  entity check and the number stage run, so the entry stays even when one
  of them drops the row (`Pipeline.NameCheckCases`,
  `Pipeline.ChangeKeptForDroppedRow`).
- `str.capitalize` lowers everything after the first character, hyphens
  included: "Jean-François Müller" comes out of `clean_name` as
  "Jean-françois Müller" (`Names.CapitalizeHyphenated`).
- The "u." exception of the one-part and one-letter tests in
  `is_valid_name_spacy` (lines 31 and 35) never fires. '.' is not in
  `valid_chars`, so a name whose lower case contains "u." has already been
  rejected at line 20 (`Names.UDotNeverExempts`).
- The entity check receives the name after the non-Latin repair but before
  `clean_name`. `invalid_names` records that same name, not the one the row
  was read with.

## Model

| member | source | states |
|---|---|---|
| Text.Strip | mynet-parser.py:78 | `strip()` leaves no whitespace at either end and only characters of its input; `Text.StripSlice` proves it removes exactly the outer whitespace |
| Text.LStrip | mynet-parser.py:60 | `lstrip('0')` removes exactly the leading run of the character and leaves a remainder not starting with it |
| Text.ContainsIff | mynet-parser.py:24-35 | the scanning `in` test on strings succeeds exactly when the needle occurs at some offset |
| Text.CapitalizeWord | mynet-parser.py:79 | `capitalize` keeps a word a word, makes it capitalized, and is idempotent |
| Text.CaseMapsIdempotent | mynet-parser.py:79 | upper-casing twice is upper-casing once, and the same for lower-casing |
| Text.IsSpace | mynet-parser.py:78-79 | the whitespace of `strip()` and `split()`; `Text.CaseMapsKeepSpace` and `Names.SubstituteKeepsSpace` show the case maps and the '?' substitution keep it where it is |
| Text.IsDigit | mynet-parser.py:51-52 | the class `\d`; `Phone.Digits` and `Phone.CleanPhoneNumberIsDigits` are stated with it |
| Text.Split | mynet-parser.py:79 | every part of `split()` is a word; `Text.SplitJoin`, `Text.SplitCountIff`, `Text.SplitEmptyIff` and `Text.SplitCharsFrom` characterize it |
| Text.Join | mynet-parser.py:79 | `' '.join`; `Text.JoinSingleSpaced` and `Text.SplitJoin` characterize it |
| Text.ToUpper | mynet-parser.py:79 | the case map for the first letter of `capitalize`; `Text.CaseMapsIdempotent` proves it idempotent |
| Text.ToLower | mynet-parser.py:24 | the case map of `lower()`; `Text.CaseMapsIdempotent` proves it idempotent |
| Text.Lower | mynet-parser.py:24 | `lower()` maps each character, keeping the length (`Text.LowerLength`) |
| Text.Capitalize | mynet-parser.py:79 | `capitalize`; `Text.CapitalizeWord` proves it keeps a word a word, capitalized and idempotent |
| Text.Contains | mynet-parser.py:26 | the `in` test; `Text.ContainsIff` proves it finds an occurrence exactly when one exists |
| Text.CaseMapsKeepSpace | mynet-parser.py:79 | the case maps neither create nor remove whitespace |
| Text.SplitJoin | mynet-parser.py:79 | `' '.join` of words splits back into exactly those words |
| Text.JoinSingleSpaced | mynet-parser.py:79 | `' '.join` of words has no outer whitespace and single spaces between words |
| Text.JoinSplitSingleSpaced | mynet-parser.py:79 | a single-spaced string is `' '.join` of its own `split()` |
| Text.StripSlice | mynet-parser.py:78 | `strip()` returns the contiguous slice of its input that starts at the first non-whitespace character; everything before and after that slice is whitespace |
| Text.DropLeadingSpaces | mynet-parser.py:78 | `lstrip()` returns a suffix of the input, removes only whitespace, and leaves no whitespace in front |
| Text.DropTrailingSpaces | mynet-parser.py:78 | `rstrip()` returns a prefix of the input, removes only whitespace, and leaves no whitespace at the end |
| Text.StripSingleSpaced | mynet-parser.py:78 | stripping a single-spaced string changes nothing |
| Text.SplitStrip | mynet-parser.py:78-79 | `split()` ignores what `strip()` removes |
| Text.SplitCountIff | mynet-parser.py:94-95 | `split()` yields at least two parts exactly when whitespace separates two non-whitespace characters |
| Text.SplitEmptyIff | mynet-parser.py:94-95 | `split()` yields nothing exactly when the string is all whitespace |
| Text.SplitCharsFrom | mynet-parser.py:79 | every character of a part of `split()` is a character of the input |
| Text.StripMapCommute | mynet-parser.py:86-87 | stripping commutes with a character map that keeps whitespace where it is |
| Phone.Digits | mynet-parser.py:51-52 | the kept characters are digits, never more than the input has |
| Phone.DigitsOfDigits | mynet-parser.py:51-52 | a string of digits is its own digit sequence |
| Phone.DigitsOfNonDigits | mynet-parser.py:51 | a run of non-digits, such as `\D+` removes, contributes no digits |
| Phone.DropLeadingNonDigits | mynet-parser.py:51 | removing `^\D+` leaves a suffix of the input that is empty or starts with a digit; `Phone.DropLeadingNonDigitsKeepsDigits` proves it keeps every digit |
| Phone.DropTrailingNonDigits | mynet-parser.py:51 | removing `\D+$` leaves a prefix of the input that is empty or ends with a digit, and removes only non-digits; `Phone.DropTrailingNonDigitsKeepsDigits` proves it keeps every digit |
| Phone.DropInnerNonDigits | mynet-parser.py:52 | removing `(?<!^)\D` keeps the first character and the digits after it; `Phone.CleanPhoneNumberIsDigits` builds on it |
| Phone.CleanPhoneNumber | mynet-parser.py:46-53 | `clean_phone_number`; `Phone.CleanPhoneNumberIsDigits` proves it returns exactly the input's digits in order, `Phone.CleanPhoneNumberIdempotent` that it is idempotent |
| Phone.LocalNumberForm | mynet-parser.py:59-60 | the local rewrite; `Phone.LocalFormOfDigits` proves it puts one '0' before the digits without their leading zeros, `Phone.PlusBranchDead` that its '+' test never holds after cleaning |
| Phone.DropLeadingNonDigitsKeepsDigits | mynet-parser.py:51 | removing `^\D+` keeps every digit |
| Phone.DropTrailingNonDigitsKeepsDigits | mynet-parser.py:51 | removing `\D+$` keeps every digit and the first character when one remains |
| Phone.DigitsAppend | mynet-parser.py:51-52 | the digits of a concatenation are the digits of each part, in order |
| Phone.CleanPhoneNumberIsDigits | mynet-parser.py:46-53 | `clean_phone_number` returns exactly the digit characters of its input, in order |
| Phone.CleanPhoneNumberIdempotent | mynet-parser.py:46-53 | cleaning twice is cleaning once; the result never holds '+' |
| Phone.PlusBranchDead | mynet-parser.py:51-59 | the cleaned number never starts with '+', so the '+' test before the local rewrite never succeeds |
| Phone.ParseInputForm | mynet-parser.py:57-60 | the parser gets all digits starting with '0': the cleaned digits when they start with "00", otherwise one '0' and the digits without leading zeros ("0" for no digits) |
| Phone.LocalFormOfDigits | mynet-parser.py:59-60 | the local rewrite gives exactly one leading '0' before the digits stripped of their zeros |
| Phone.LStripOneZero | mynet-parser.py:60 | `lstrip('0')` removes exactly the one '0' the local rewrite puts in front |
| Phone.Decimal | mynet-parser.py:63 | the decimal digits of a country code or national number: non-empty and all digits |
| Phone.NationalSignificantNumber | mynet-parser.py:63 | the national significant number of an E.164 string, with its leading zeros: non-empty and all digits |
| Phone.FormatE164 | mynet-parser.py:63 | `format_number(..., E164)`: '+', the country code, then the national significant number; `Phone.LStripE164` proves what stripping its '+' leaves |
| Phone.ConvertToInternational | mynet-parser.py:55-69 | a number comes back exactly when the library parses the rewritten digits and finds the result possible and valid; it is non-empty and all digits |
| Phone.ConvertIgnoresNonDigits | mynet-parser.py:55-61 | two inputs with the same digits convert alike |
| Phone.ConvertRestoresE164 | mynet-parser.py:61-65 | '+' followed by the result is the E.164 form of the parsed number |
| Phone.LStripE164 | mynet-parser.py:63-64 | stripping '+' from an E.164 string leaves the country code then the national significant number, all digits |
| Phone.CanonicalIsClean | mynet-parser.py:46-65 | a converted number is already clean and has no leading '+' |
| Names.IsNameDiacritic | mynet-parser.py:77 | the non-ASCII letters listed in the three name patterns, character for character; `Names.CaseMapsStayAllowed` shows the model's case maps stay inside them |
| Names.InReplaceAllowlist | mynet-parser.py:86 | the class `replace_non_latin_characters` keeps: ASCII letters, the listed letters, apostrophe, whitespace and hyphen; `Names.SubstituteQuestion` is stated with it |
| Names.InNameAllowlist | mynet-parser.py:77 | the class of `clean_name` and `is_latin_name` (line 101): the class above plus '?'; `Names.SubstituteAllowed` relates the two |
| Names.IsValidChar | mynet-parser.py:118 | membership in `valid_chars`: ASCII letters, `string.whitespace` and the listed Latin-1 letters; `Names.SpacyRejectsNamePunctuation` shows how it differs from the name allowlist |
| Names.Substitute | mynet-parser.py:86-87 | the '?' substitution of one character; `Names.SubstituteQuestion` proves it gives '?' exactly outside the line-86 class |
| Names.CapitalizeAll | mynet-parser.py:79 | `word.capitalize()` for every word; `Names.CapitalizedWords` proves the results are capitalized, allowlisted words and `Names.CapitalizeAllTwice` that capitalizing twice is capitalizing once |
| Names.CleanName | mynet-parser.py:71-80 | `clean_name`; `Names.CleanNameShape` and `Names.CleanNameIdempotent` characterize its output |
| Names.ReplaceNonLatinCharacters | mynet-parser.py:82-88 | `replace_non_latin_characters`; `Names.ReplaceNonLatinShape`, `Names.ReplacedIsLatin` and `Names.ReplaceFixesLatin` characterize it |
| Names.IsValidName | mynet-parser.py:90-95 | `is_valid_name`; `Names.IsValidNameIff` proves it holds exactly when whitespace separates two non-whitespace characters |
| Names.IsLatinName | mynet-parser.py:97-102 | the anchored pattern matches exactly a non-empty string of allowlisted characters |
| Names.AllQuestionMarks | mynet-parser.py:104-108 | every character is '?', the empty string included; `Names.AllQuestionMarksAfterReplace` relates it to the repair |
| Names.BlacklistHit | mynet-parser.py:24-27 | the early-return blacklist loop; `Names.BlacklistHitIff` proves it hits exactly when some lowercased entry occurs in the lowercased name |
| Names.IsValidNameSpacy | mynet-parser.py:18-44 | `is_valid_name_spacy`; `Names.IsValidNameSpacyIff` states when it returns False |
| Names.RemoveDisallowed | mynet-parser.py:77-78 | what the first substitution of `clean_name` leaves is all in the allowlist; `Names.RemoveDisallowedAppend` and `Names.RemoveDisallowedChar` prove it deletes exactly the characters outside it, keeping the rest in order |
| Names.RemoveDisallowedAppend | mynet-parser.py:77-78 | the deletion works character by character: it distributes over concatenation |
| Names.RemoveDisallowedChar | mynet-parser.py:77-78 | a single character is kept exactly when it is in the allowlist and deleted exactly when it is not |
| Names.RemoveDisallowedKeepsAllowed | mynet-parser.py:77-78 | the substitution removes nothing from a string already in the allowlist |
| Names.CaseMapsStayAllowed | mynet-parser.py:77-79 | upper- and lower-casing keep an allowlisted character in the allowlist |
| Names.SplitKeepsAllowed | mynet-parser.py:78-79 | the parts of an allowlisted string are allowlisted |
| Names.JoinKeepsAllowed | mynet-parser.py:79 | joining allowlisted parts gives an allowlisted string |
| Names.CapitalizeKeepsAllowed | mynet-parser.py:79 | capitalizing an allowlisted word keeps it allowlisted |
| Names.StripKeepsAllowed | mynet-parser.py:78 | stripping an allowlisted string keeps it allowlisted |
| Names.CapitalizedWords | mynet-parser.py:79 | capitalizing allowlisted words gives capitalized, allowlisted words |
| Names.CleanNameShape | mynet-parser.py:71-80 | `clean_name` output is allowlisted and single-spaced; its words are the capitalized words of the input after deletion |
| Names.CapitalizeAllTwice | mynet-parser.py:79 | capitalizing every word twice is doing it once |
| Names.CleanNameIdempotent | mynet-parser.py:71-80 | `clean_name` of a cleaned name returns it unchanged |
| Names.CapitalizeHyphenated | mynet-parser.py:79 | a hyphen does not start a new word: the letter after it is lowered |
| Names.CapitalizeHyphenatedExample | mynet-parser.py:79 | "Jo-Ça" capitalizes to "Jo-ça" |
| Names.ValidCleanedIsLatin | mynet-parser.py:71-102 | a cleaned name that passes `is_valid_name` also passes `is_latin_name` |
| Names.CleanNameValidIff | mynet-parser.py:71-95 | a cleaned name has two parts exactly when the input, after deletion, has whitespace between two other characters |
| Names.IsValidNameIff | mynet-parser.py:90-95 | `is_valid_name` holds exactly when whitespace separates two non-whitespace characters |
| Names.SubstituteKeepsSpace | mynet-parser.py:86-87 | the '?' substitution keeps whitespace whitespace and everything else not |
| Names.SubstituteAllowed | mynet-parser.py:86 | every substituted character is in the `clean_name` allowlist |
| Names.SubstituteQuestion | mynet-parser.py:86 | a character becomes '?' exactly when it is outside the replacement allowlist |
| Names.ReplaceSubstitutesStripped | mynet-parser.py:86-87 | substituting then stripping is stripping then substituting |
| Names.ReplaceNonLatinShape | mynet-parser.py:82-88 | the result has the stripped name's length; allowed characters stay in place and every other one becomes '?' |
| Names.ReplacedIsLatin | mynet-parser.py:82-102 | a non-empty replacement result passes `is_latin_name` |
| Names.ReplaceFixesLatin | mynet-parser.py:82-102 | on a name `is_latin_name` accepts, the replacement only strips |
| Names.AllQuestionMarksOfSubstituted | mynet-parser.py:86-108 | a substituted string is all '?' exactly when no character of it is in the replacement allowlist |
| Names.AllQuestionMarksAfterReplace | mynet-parser.py:82-108 | the replacement is all '?' (the empty string included) exactly when no character of the stripped name is in the replacement allowlist |
| Names.BlacklistHitIff | mynet-parser.py:24-27 | the blacklist loop finds a hit exactly when some lowercased entry occurs in the lowercased name |
| Names.IsValidNameSpacyIff | mynet-parser.py:18-44 | `is_valid_name_spacy` is False exactly when a character is outside `valid_chars`, a blacklist entry occurs, or "u." is absent and there is one part or a one-character part |
| Names.EmptyEntryRejectsAll | mynet-parser.py:11-27 | an empty blacklist entry (a blank line in the file) rejects every name |
| Names.EmptyNameSpacy | mynet-parser.py:18-44 | the empty name passes exactly when the blacklist has no empty entry |
| Names.UDotNeverExempts | mynet-parser.py:20-35 | a name whose lower case contains "u." has a character outside `valid_chars`, so it is rejected before the "u." exception is consulted |
| Names.SpacyRejectsNamePunctuation | mynet-parser.py:18-21 | apostrophe, hyphen, '?', ğ, ş and ı pass the name allowlist but not `valid_chars` (line 118), so a name holding one fails the entity check |
| Pipeline.ProcessCsv | mynet-parser.py:127-177 | nothing is produced when the header is not the expected one; otherwise every row has both key fields and the report is that of the row loop |
| Pipeline.ProcessRows | mynet-parser.py:140-177 | the loop's written rows and four lists are those of `Run`, the fold of the per-row outcome |
| Pipeline.RunCounts | mynet-parser.py:140-177 | every row is written or lands in exactly one rejection list |
| Pipeline.ChangeEntry | mynet-parser.py:152 | the audit entry `f"{before} -> {after}"` of lines 152 and 162; `Pipeline.NameCheckCases` states when one is appended |
| Pipeline.CleanStep | mynet-parser.py:157-163 | the cleaning step; `Pipeline.NameCheckCases` states its verdicts and audit entries |
| Pipeline.NameCheck | mynet-parser.py:144-163 | the name stage; `Pipeline.NameCheckCases` states its verdicts and audit entries |
| Pipeline.LaterStages | mynet-parser.py:165-177 | the entity check and number stages; `Pipeline.LaterStagesCases` states their verdicts and `Pipeline.LaterStagesOrder` that the entity check decides before the number stage |
| Pipeline.ProcessRow | mynet-parser.py:140-177 | one pass of the loop body; `Pipeline.StageOrder` proves the first failing stage decides, and `Pipeline.RejectionReasons`, `Pipeline.WrittenRowFields` and `Pipeline.WrittenRowShape` characterize the outcome |
| Pipeline.Record | mynet-parser.py:150-177 | the appends of one row; `Pipeline.RecordCases` states them list by list |
| Pipeline.Run | mynet-parser.py:140-177 | the report of the loop as a fold; `Pipeline.ProcessRows` is proved equal to it, `Pipeline.RunCounts` accounts for every row and `Pipeline.RunListsIff` characterizes all five lists, `changed_names` included |
| Pipeline.RunCollect | mynet-parser.py:140-177 | the report of a run is the collection of its per-row results |
| Pipeline.CollectListsIff | mynet-parser.py:150-177 | a text is in one of the four report lists, or an entry in `changed_names`, exactly when some row result put it there |
| Pipeline.RunListsIff | mynet-parser.py:140-177 | a row is written, or a text is in a rejection list, exactly when some input row's outcome says so; an audit entry is in `changed_names` exactly when some input row produced it, whether or not that row was written |
| Pipeline.NameCheckCases | mynet-parser.py:144-163 | the name stage rejects as non-Latin exactly when `is_latin_name` fails and repair is off or leaves only '?'; otherwise it rejects the checked name or accepts it with its cleaned form. The audit entries are the repair entry whenever a name was repaired (line 152), even if it is then rejected, and then the cleaning entry when cleaning changed an accepted name (line 162) |
| Pipeline.LaterStagesCases | mynet-parser.py:165-177 | the entity check rejects the checked name, the number stage rejects the number as read when conversion fails, a written row carries the converted number; `Pipeline.LaterStagesOrder` gives the order in which they decide |
| Pipeline.LaterStagesOrder | mynet-parser.py:165-174 | the entity check decides before the number stage: a failing entity check rejects the checked name whatever the number, a number is rejected exactly when the entity check passes or is off and conversion fails, and neither stage rejects as non-Latin |
| Pipeline.WrittenRowFields | mynet-parser.py:140-177 | a written row has the same fields; only name and number change, into the cleaned name and the converted number when those stages ran |
| Pipeline.WrittenRowShape | mynet-parser.py:140-177 | the written name is a cleaned, single-spaced, two-word Latin name and a fixed point of `clean_name`; the written number is canonical digits |
| Pipeline.StageOrder | mynet-parser.py:144-174 | the stages run in order and the first that fails decides: a failing name stage gives its own rejection, a failing entity check after a passing name stage rejects the checked name whatever the number, and a number is rejected exactly when the active name stages pass and conversion fails |
| Pipeline.RejectionReasons | mynet-parser.py:144-174 | why each rejection happens, and which text it reports; the non-Latin rejection in both directions |
| Pipeline.CleanedNamePasses | mynet-parser.py:144-163 | a cleaned two-word Latin name passes the name stage unchanged, with no audit entry |
| Pipeline.NameOnlyWritesPassingRow | mynet-parser.py:144-177 | with the name stage alone, such a row is written as it is |
| Pipeline.NameStageStable | mynet-parser.py:144-177 | running the name stage alone again over a row it wrote writes it unchanged and records nothing |
| Pipeline.ChangeKeptForDroppedRow | mynet-parser.py:157-174 | a row whose name was cleaned and whose number is invalid is dropped, but its audit entry is still recorded |

## Left out

- Reading and writing the CSV files, the `utf-8-sig` decoding, the printed
  report and the success message (lines 125-130, 132-134, 137-138 and
  179-197) are I/O. The model takes the header and the rows as values and
  returns the lists. The header comparison of line 131 and its early return
  at line 135 are kept: `Pipeline.ProcessCsv` returns no report when the
  header differs.
- `load_blacklist` reads a file; the blacklist is a `seq<string>` parameter.
- `argparse` and the script entry point are command-line glue.
- `spacy.load` and the entity-recognizer loop at lines 38-44 are left out.
  Both of the loop's paths return True, so it cannot change the result.
- The internals of `phonenumbers` are left out. `parse`, `is_possible_number`
  and `is_valid_number` are parameters; `NumberParseException` is `None`
  from `parse`.
- Text.IsDigit: `\d` is restricted to the ASCII digits; Python also
  matches every other Unicode decimal digit.
- Text.ToLower: lower-casing covers ASCII, Latin-1 and the letters Ğ, Ş, Ž,
  Ÿ and İ. 'İ' lowers to 'i', where Python gives 'i' plus U+0307. Other
  characters map to themselves.
- Text.ToUpper: upper-casing covers the same letters. 'ß' stays 'ß', where
  Python's `capitalize` gives "Ss", and 'ı' gives 'I'.
- Text.Lower: each character lowers to one character, so the length is
  kept. Python's `'İ'.lower()` is 'i' plus U+0307, two characters, so
  `Text.LowerLength` fails in Python for strings holding 'İ'.
- Names.CaseMapsStayAllowed: the lower-case clause rests on the model's 'İ'
  to 'i'. In Python 'İ' lowers to 'i' plus U+0307, and U+0307 is outside
  the allowlist of line 77.
- Names.CapitalizeKeepsAllowed: for the same reason, in Python
  `"Aİ".capitalize()` is "Ai̇", which is not allowlisted; the clause holds
  for words with no 'İ' after the first character.
- Names.CapitalizedWords: its allowlist clause fails in Python for the same
  words, those with an 'İ' after the first character.
- Names.ValidCleanedIsLatin: in Python `clean_name("ALİ VELİ")` is
  "Ali̇ Veli̇", which passes `is_valid_name` and fails `is_latin_name`; the
  lemma holds for names with no 'İ' after the first letter of a word.
- Names.BlacklistHit: in Python a blacklist entry holding 'İ' (such as
  "İSMAİL") lowers to a string holding U+0307. No name that passes the
  `valid_chars` test contains U+0307, so such an entry never hits. The model
  lowers it to "ismail" and rejects "Ismail Yilmaz", which Python accepts.
  `Names.BlacklistHitIff` and `Names.IsValidNameSpacyIff` are exact for the
  model's `Lower` and inherit this difference.
- Names.CleanNameShape: the allowlist clause rests on the model's 'İ' to 'i'.
  In Python, `capitalize` lowers an 'İ' after the first letter to 'i' plus
  U+0307, which is outside the allowlist, so `clean_name("ALİ VELİ")` returns
  "Ali̇ Veli̇" and the clause fails for such names.
- Names.CleanNameIdempotent: for the same names a second `clean_name` in
  Python deletes the U+0307, so it is not a fixed point there.
- Pipeline.WrittenRowShape: for the same names the written name in Python
  is not Latin and not a fixed point of `clean_name`; the Latin and
  fixed-point clauses hold for the model's case maps only.
- Pipeline.NameStageStable: for the same names a rerun in Python fails
  `is_latin_name` on the written name, so the row is rejected or repaired
  instead of written unchanged.
- Pipeline.ProcessCsv: a short row, which `DictReader` fills with `None`, is
  not modelled; every row has a value for every header field. Nor is a long
  row: `DictReader` stores its extra fields under the key `None`, and
  `DictWriter` (line 137, which raises on extra keys by default) then stops
  the run with a `ValueError`, leaving a partial output file. The model
  writes such a row like any other.
- Names.IsValidNameSpacy: `valid_chars` is the fixed string that
  `process_csv` builds, so the function takes no character-set parameter.
- Phone.ConvertToInternational: the region is a parameter, and the loop
  passes `DefaultRegion` ("DE") as the source's default argument does.
