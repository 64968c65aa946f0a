/** Phone-number normalisation: `clean_phone_number` and
    `convert_to_international`, with the `phonenumbers` library behind a
    small interface of function values. */
module Phone {
  import opened Text

  datatype Option<T> = None | Some(value: T)

  /** The region `convert_to_international` assumes when none is given. */
  const DefaultRegion: string := "DE"

  /** The fields of a parsed number that its E.164 form is made of. */
  datatype PhoneNumber = PhoneNumber(
    countryCode: nat,
    nationalNumber: nat,
    italianLeadingZero: bool,
    numberOfLeadingZeros: nat)

  /** The numbering-plan library: `parse` gives None where it raises
      NumberParseException; the two predicates are `is_possible_number` and
      `is_valid_number`. */
  datatype PhoneLib = PhoneLib(
    parse: (string, string) -> Option<PhoneNumber>,
    isPossible: PhoneNumber -> bool,
    isValid: PhoneNumber -> bool)

  /** The digit characters of s, in their original order. */
  function Digits(s: string): (r: string)
    ensures |r| <= |s|
    ensures forall i :: 0 <= i < |r| ==> IsDigit(r[i])
  {
    if s == [] then [] else (if IsDigit(s[0]) then [s[0]] else []) + Digits(s[1..])
  }

  predicate AllDigits(s: string)
  {
    forall i :: 0 <= i < |s| ==> IsDigit(s[i])
  }

  // ---------------------------------------------------------------------------
  // clean_phone_number

  /** `^\D+` */
  function DropLeadingNonDigits(s: string): (r: string)
    ensures |r| <= |s| && r == s[|s| - |r|..]
    ensures r == [] || IsDigit(r[0])
  {
    if s != [] && !IsDigit(s[0]) then
      var r := DropLeadingNonDigits(s[1..]);
      SuffixOfTail(s, r);
      r
    else s
  }

  /** `\D+$` */
  function DropTrailingNonDigits(s: string): (r: string)
    ensures |r| <= |s| && r == s[..|r|]
    ensures forall i :: |r| <= i < |s| ==> !IsDigit(s[i])
    ensures r == [] || IsDigit(r[|r| - 1])
  {
    if s != [] && !IsDigit(s[|s| - 1]) then
      var r := DropTrailingNonDigits(s[..|s| - 1]);
      PrefixOfInit(s, r);
      r
    else s
  }

  /** `(?<!^)\D`: every non-digit except one at position 0 is removed. */
  function DropInnerNonDigits(s: string): string
  {
    if s == [] then [] else [s[0]] + Digits(s[1..])
  }

  /** `clean_phone_number`: the two regular-expression substitutions. */
  function CleanPhoneNumber(phone: string): string
  {
    DropInnerNonDigits(DropTrailingNonDigits(DropLeadingNonDigits(phone)))
  }

  // ---------------------------------------------------------------------------
  // convert_to_international

  /** The rewrite of a cleaned number before parsing: unless it starts with
      '+' or "00" it is taken as a local number and given exactly one
      leading zero. */
  function LocalNumberForm(cleaned: string): string
  {
    if !(StartsWith(cleaned, "+") || StartsWith(cleaned, "00")) then "0" + LStrip(cleaned, '0')
    else cleaned
  }

  function DigitChar(d: nat): (c: char)
    requires d < 10
    ensures IsDigit(c)
  {
    ['0', '1', '2', '3', '4', '5', '6', '7', '8', '9'][d]
  }

  /** `str(n)` for a natural number. */
  function Decimal(n: nat): (r: string)
    ensures |r| > 0 && AllDigits(r)
  {
    if n < 10 then [DigitChar(n)] else Decimal(n / 10) + [DigitChar(n % 10)]
  }

  function Zeros(n: nat): (r: string)
    ensures |r| == n && AllDigits(r)
  {
    if n == 0 then "" else Zeros(n - 1) + "0"
  }

  /** `format_number(n, PhoneNumberFormat.E164)`: '+', the country code, then
      the national significant number (with its Italian leading zeros). */
  function FormatE164(n: PhoneNumber): string
  {
    "+" + Decimal(n.countryCode) + NationalSignificantNumber(n)
  }

  function NationalSignificantNumber(n: PhoneNumber): (r: string)
    ensures |r| > 0 && AllDigits(r)
  {
    var zeros := if n.italianLeadingZero then Zeros(n.numberOfLeadingZeros) else "";
    AllDigitsAppend(zeros, Decimal(n.nationalNumber));
    zeros + Decimal(n.nationalNumber)
  }

  /** `convert_to_international`: None where parsing fails or the number is
      not both possible and valid, otherwise its E.164 form without '+'. */
  function ConvertToInternational(phone: string, region: string, lib: PhoneLib): (r: Option<string>)
    ensures r.Some? <==>
      var p := lib.parse(LocalNumberForm(Digits(phone)), region);
      p.Some? && lib.isPossible(p.value) && lib.isValid(p.value)
    ensures r.Some? ==> |r.value| > 0 && AllDigits(r.value)
  {
    var cleaned := CleanPhoneNumber(phone);
    CleanPhoneNumberIsDigits(phone);
    var candidate := LocalNumberForm(cleaned);
    match lib.parse(candidate, region)
    case None => None
    case Some(n) =>
      if lib.isPossible(n) && lib.isValid(n) then
        LStripE164(n);
        Some(LStrip(FormatE164(n), '+'))
      else None
  }

  // ---------------------------------------------------------------------------
  // Lemmas

  lemma {:induction false} DigitsAppend(a: string, b: string)
    ensures Digits(a + b) == Digits(a) + Digits(b)
  {
    if a != [] {
      var head := if IsDigit(a[0]) then [a[0]] else [];
      assert (a + b)[0] == a[0] && (a + b)[1..] == a[1..] + b;
      assert Digits(a + b) == head + Digits(a[1..] + b);
      DigitsAppend(a[1..], b);
      assert head + (Digits(a[1..]) + Digits(b)) == (head + Digits(a[1..])) + Digits(b);
    } else {
      assert a + b == b;
    }
  }

  lemma {:induction false} DigitsOfNonDigits(s: string)
    requires forall i :: 0 <= i < |s| ==> !IsDigit(s[i])
    ensures Digits(s) == []
  {
    if s != [] {
      DigitsOfNonDigits(s[1..]);
    }
  }

  lemma {:induction false} DigitsOfDigits(s: string)
    requires AllDigits(s)
    ensures Digits(s) == s
  {
    if s != [] {
      DigitsOfDigits(s[1..]);
    }
  }

  lemma {:induction false} DropLeadingNonDigitsKeepsDigits(s: string)
    ensures Digits(DropLeadingNonDigits(s)) == Digits(s)
  {
    if s != [] && !IsDigit(s[0]) {
      DropLeadingNonDigitsKeepsDigits(s[1..]);
    }
  }

  lemma {:induction false} DropTrailingNonDigitsKeepsDigits(s: string)
    ensures Digits(DropTrailingNonDigits(s)) == Digits(s)
    ensures DropTrailingNonDigits(s) == [] || DropTrailingNonDigits(s)[0] == s[0]
  {
    if s != [] && !IsDigit(s[|s| - 1]) {
      var init := s[..|s| - 1];
      DropTrailingNonDigitsKeepsDigits(init);
      assert s == init + [s[|s| - 1]];
      DigitsAppend(init, [s[|s| - 1]]);
    }
  }

  /** `clean_phone_number` keeps exactly the digits of its input, in order:
      the first substitution leaves a digit at position 0 and the second
      drops every other non-digit. */
  lemma CleanPhoneNumberIsDigits(phone: string)
    ensures CleanPhoneNumber(phone) == Digits(phone)
  {
    var a := DropLeadingNonDigits(phone);
    var b := DropTrailingNonDigits(a);
    DropLeadingNonDigitsKeepsDigits(phone);
    DropTrailingNonDigitsKeepsDigits(a);
    if b != [] {
      DigitsOfDigitHead(b);
    }
  }

  /** A string that starts with a digit keeps that digit in front. */
  lemma DigitsOfDigitHead(b: string)
    requires b != [] && IsDigit(b[0])
    ensures Digits(b) == [b[0]] + Digits(b[1..])
  {
  }

  /** Cleaning twice is cleaning once, and the result never holds a '+'. */
  lemma CleanPhoneNumberIdempotent(phone: string)
    ensures CleanPhoneNumber(CleanPhoneNumber(phone)) == CleanPhoneNumber(phone)
    ensures '+' !in CleanPhoneNumber(phone)
  {
    CleanPhoneNumberIsDigits(phone);
    CleanPhoneNumberIsDigits(Digits(phone));
    DigitsOfDigits(Digits(phone));
  }

  /** The '+' test before the local-number rewrite can never succeed: a
      leading '+' is already gone, so "+49…" is parsed as "049…". */
  lemma PlusBranchDead(phone: string)
    ensures !StartsWith(CleanPhoneNumber(phone), "+")
  {
    CleanPhoneNumberIsDigits(phone);
    var d := Digits(phone);
    assert d == [] || d[..1] != "+" by {
      if d != [] {
        assert d[..1][0] == d[0];
      }
    }
  }

  /** What reaches the parser is all digits and starts with '0'; it is the
      cleaned digits unchanged when they start with "00", and otherwise
      exactly one '0' followed by the digits without their leading zeros. */
  lemma ParseInputForm(phone: string)
    ensures var p := LocalNumberForm(CleanPhoneNumber(phone));
      && AllDigits(p) && |p| > 0 && p[0] == '0'
      && (StartsWith(Digits(phone), "00") ==> p == Digits(phone))
      && (!StartsWith(Digits(phone), "00") ==> p == "0" + LStrip(Digits(phone), '0') && (|p| == 1 || p[1] != '0'))
      && LStrip(p, '0') == LStrip(Digits(phone), '0')
  {
    var d := Digits(phone);
    CleanPhoneNumberIsDigits(phone);
    PlusBranchDead(phone);
    if StartsWith(d, "00") {
      assert LocalNumberForm(d) == d;
      assert d[0] == d[..2][0];
    } else {
      LocalFormOfDigits(d);
    }
  }

  lemma LocalFormOfDigits(d: string)
    requires AllDigits(d) && !StartsWith(d, "00")
    ensures var p := LocalNumberForm(d);
      && p == "0" + LStrip(d, '0') && AllDigits(p) && p[0] == '0'
      && (|p| == 1 || p[1] != '0') && LStrip(p, '0') == LStrip(d, '0')
  {
    var z := LStrip(d, '0');
    DigitsNoPlus(d);
    assert LocalNumberForm(d) == "0" + z;
    LStripKeepsDigits(d);
    AllDigitsAppend("0", z);
    LStripOneZero(z);
  }

  /** A string of digits does not start with '+'. */
  lemma DigitsNoPlus(d: string)
    requires AllDigits(d)
    ensures !StartsWith(d, "+")
  {
    if |d| > 0 {
      assert IsDigit(d[0]);
    }
  }

  lemma LStripKeepsDigits(d: string)
    requires AllDigits(d)
    ensures AllDigits(LStrip(d, '0'))
  {
    var z := LStrip(d, '0');
    forall i | 0 <= i < |z| ensures IsDigit(z[i]) {
      assert z[i] == d[|d| - |z| + i];
    }
  }

  /** One '0' put in front of a string that does not start with '0' is what
      `lstrip('0')` removes again. */
  lemma LStripOneZero(z: string)
    requires z == [] || z[0] != '0'
    ensures LStrip("0" + z, '0') == z
  {
    var p := "0" + z;
    assert p[0] == '0' && p[1..] == z;
    assert LStrip(z, '0') == z;
  }

  /** Every number handed to the parser is the same as one built from the
      cleaned digits: text around and between the digits does not matter. */
  lemma ConvertIgnoresNonDigits(a: string, b: string, region: string, lib: PhoneLib)
    requires Digits(a) == Digits(b)
    ensures ConvertToInternational(a, region, lib) == ConvertToInternational(b, region, lib)
  {
    CleanPhoneNumberIsDigits(a);
    CleanPhoneNumberIsDigits(b);
  }

  /** Putting the '+' back in front of the result gives the E.164 string
      the library formats for the parsed number. */
  lemma ConvertRestoresE164(phone: string, region: string, lib: PhoneLib)
    requires ConvertToInternational(phone, region, lib).Some?
    ensures "+" + ConvertToInternational(phone, region, lib).value ==
      FormatE164(lib.parse(LocalNumberForm(Digits(phone)), region).value)
  {
    CleanPhoneNumberIsDigits(phone);
    var n := lib.parse(LocalNumberForm(Digits(phone)), region).value;
    LStripE164(n);
  }

  lemma LStripE164(n: PhoneNumber)
    ensures "+" + LStrip(FormatE164(n), '+') == FormatE164(n)
    ensures LStrip(FormatE164(n), '+') == Decimal(n.countryCode) + NationalSignificantNumber(n)
    ensures |LStrip(FormatE164(n), '+')| > 0 && AllDigits(LStrip(FormatE164(n), '+'))
  {
    var body := Decimal(n.countryCode) + NationalSignificantNumber(n);
    var f := FormatE164(n);
    assert f == "+" + body;
    assert f[1..] == body;
    assert body[0] == Decimal(n.countryCode)[0];
    assert LStrip(body, '+') == body;
    AllDigitsAppend(Decimal(n.countryCode), NationalSignificantNumber(n));
  }

  lemma AllDigitsAppend(a: string, b: string)
    requires AllDigits(a) && AllDigits(b)
    ensures AllDigits(a + b)
  {
    forall i | 0 <= i < |a + b| ensures IsDigit((a + b)[i]) {
      if i >= |a| {
        assert (a + b)[i] == b[i - |a|];
      }
    }
  }

  /** A canonical number is already clean: cleaning it again changes
      nothing. */
  lemma CanonicalIsClean(phone: string, region: string, lib: PhoneLib)
    requires ConvertToInternational(phone, region, lib).Some?
    ensures var r := ConvertToInternational(phone, region, lib).value;
      CleanPhoneNumber(r) == r && r[0] != '+'
  {
    var r := ConvertToInternational(phone, region, lib).value;
    CleanPhoneNumberIsDigits(r);
    DigitsOfDigits(r);
  }
}
