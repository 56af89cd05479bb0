/**
 Field validation of the contact form (script.js, class FormValidator):
 `validateName`, `validatePhone` and the validation gate at the start of
 `handleSubmit`. Each validator reads the field's value, trims it and walks an
 ordered chain of checks; the first failing check decides the message shown
 under the field, and the validator returns whether every check passed.
 */
module FormValidator {

  /**
   The characters JavaScript's `trim()` strips and the regular-expression class
   `\s` matches: the ECMAScript WhiteSpace and LineTerminator code points.
   */
  predicate IsWhitespace(c: char) {
    || c == '\t' || c == '\n' || c == '\U{000B}' || c == '\U{000C}' || c == '\r'
    || c == ' ' || c == '\U{00A0}' || c == '\U{1680}'
    || ('\U{2000}' <= c <= '\U{200A}')
    || c == '\U{2028}' || c == '\U{2029}' || c == '\U{202F}' || c == '\U{205F}'
    || c == '\U{3000}' || c == '\U{FEFF}'
  }

  /** The regular-expression class `\d` (and the complement of `\D`). */
  predicate IsDigit(c: char) {
    '0' <= c <= '9'
  }

  /** The regular-expression class `[a-zA-Z\s]`. */
  predicate IsNameChar(c: char) {
    ('a' <= c <= 'z') || ('A' <= c <= 'Z') || IsWhitespace(c)
  }

  /** `s` with its leading whitespace removed. */
  function TrimStart(s: string): (r: string)
    ensures |r| <= |s| && r == s[|s| - |r|..]
    ensures forall k :: 0 <= k < |s| - |r| ==> IsWhitespace(s[k])
    ensures |r| > 0 ==> !IsWhitespace(r[0])
  {
    if |s| > 0 && IsWhitespace(s[0]) then TrimStart(s[1..]) else s
  }

  /** `s` with its trailing whitespace removed. */
  function TrimEnd(s: string): (r: string)
    ensures |r| <= |s| && r == s[..|r|]
    ensures forall k :: |r| <= k < |s| ==> IsWhitespace(s[k])
    ensures |r| > 0 ==> !IsWhitespace(r[|r| - 1])
  {
    if |s| > 0 && IsWhitespace(s[|s| - 1]) then TrimEnd(s[..|s| - 1]) else s
  }

  /** JavaScript `s.trim()`. */
  function Trim(s: string): (t: string)
    ensures |t| > 0 ==> !IsWhitespace(t[0]) && !IsWhitespace(t[|t| - 1])
    ensures t == [] <==> forall k :: 0 <= k < |s| ==> IsWhitespace(s[k])
  {
    var r := TrimStart(s);
    assert forall k :: |s| - |r| <= k < |s| ==> s[k] == r[k - (|s| - |r|)];
    TrimEnd(r)
  }

  /**
   `Trim(s)` is the slice `s[i..j]` that leaves only whitespace outside and
   neither starts nor ends with whitespace; in particular `s` is that slice
   padded with whitespace on both sides.
   */
  lemma TrimIsSlice(s: string, i: int, j: int)
    requires 0 <= i < j <= |s|
    requires forall k :: 0 <= k < i ==> IsWhitespace(s[k])
    requires forall k :: j <= k < |s| ==> IsWhitespace(s[k])
    requires !IsWhitespace(s[i]) && !IsWhitespace(s[j - 1])
    ensures Trim(s) == s[i..j]
  {
    var r := TrimStart(s);
    var lead := |s| - |r|;
    assert |r| > 0 ==> r[0] == s[lead];
    assert lead == i;
    var t := TrimEnd(r);
    var stop := lead + |t|;
    assert r[j - 1 - i] == s[j - 1];
    assert |t| > 0 ==> t[|t| - 1] == s[stop - 1];
    assert stop == j;
  }

  /** Trimming twice is trimming once. */
  lemma TrimIdempotent(s: string)
    ensures Trim(Trim(s)) == Trim(s)
  {
    var t := Trim(s);
    if |t| > 0 {
      TrimIsSlice(t, 0, |t|);
    }
  }

  /** JavaScript `s.replace(/\D/g, '')`: the digits of `s`, in order. */
  function Digits(s: string): (d: string)
    ensures |d| <= |s|
    ensures forall k :: 0 <= k < |d| ==> IsDigit(d[k])
    ensures (forall k :: 0 <= k < |s| ==> IsDigit(s[k])) ==> d == s
    ensures (forall k :: 0 <= k < |s| ==> !IsDigit(s[k])) ==> d == []
  {
    if s == [] then []
    else (if IsDigit(s[0]) then [s[0]] else []) + Digits(s[1..])
  }

  lemma {:induction false} DigitsConcat(a: string, b: string)
    ensures Digits(a + b) == Digits(a) + Digits(b)
  {
    if a == [] {
      assert a + b == b;
    } else {
      assert (a + b)[0] == a[0] && (a + b)[1..] == a[1..] + b;
      DigitsConcat(a[1..], b);
    }
  }

  /** Whitespace around a string adds no digits. */
  lemma DigitsOfPadded(head: string, x: string, tail: string)
    requires forall k :: 0 <= k < |head| ==> IsWhitespace(head[k])
    requires forall k :: 0 <= k < |tail| ==> IsWhitespace(tail[k])
    ensures Digits(head + x + tail) == Digits(x)
  {
    assert forall k :: 0 <= k < |head| ==> !IsDigit(head[k]);
    assert forall k :: 0 <= k < |tail| ==> !IsDigit(tail[k]);
    DigitsConcat(head + x, tail);
    DigitsConcat(head, x);
  }

  /** Leading whitespace holds no digits. */
  lemma DigitsTrimStart(s: string)
    ensures Digits(TrimStart(s)) == Digits(s)
  {
    var r := TrimStart(s);
    var head := s[..|s| - |r|];
    assert s == head + r;
    DigitsOfPadded(head, r, []);
    assert head + r + [] == s;
  }

  /** Trailing whitespace holds no digits. */
  lemma DigitsTrimEnd(s: string)
    ensures Digits(TrimEnd(s)) == Digits(s)
  {
    var t := TrimEnd(s);
    var tail := s[|t|..];
    assert s == t + tail;
    DigitsOfPadded([], t, tail);
    assert [] + t + tail == s;
  }

  /** Whitespace holds no digits, so trimming first does not change the digits. */
  lemma DigitsIgnoreTrim(s: string)
    ensures Digits(Trim(s)) == Digits(s)
  {
    var r := TrimStart(s);
    assert Trim(s) == TrimEnd(r);
    DigitsTrimEnd(r);
    DigitsTrimStart(s);
  }

  /**
   JavaScript's `s.length`: the number of UTF-16 code units, so a character
   outside the Basic Multilingual Plane counts twice.
   */
  function JsLength(s: string): (n: nat)
    ensures |s| <= n <= 2 * |s|
    ensures (forall k :: 0 <= k < |s| ==> s[k] as int < 0x10000) ==> n == |s|
  {
    if s == [] then 0 else (if s[0] as int < 0x10000 then 1 else 2) + JsLength(s[1..])
  }

  /** The per-field error messages shown by `showError`. */
  datatype FieldError =
    | NameRequired
    | NameTooShort
    | NameBadCharacters
    | PhoneRequired
    | PhoneTooShort
    | PhoneTooLong
    | PhoneInvalid

  function Message(e: FieldError): string {
    match e
    case NameRequired => "Name is required"
    case NameTooShort => "Name must be at least 2 characters"
    case NameBadCharacters => "Name should only contain letters and spaces"
    case PhoneRequired => "Phone number is required"
    case PhoneTooShort => "Phone number must be at least 10 digits"
    case PhoneTooLong => "Phone number cannot exceed 15 digits"
    case PhoneInvalid => "Please enter a valid phone number"
  }

  /** Each error has its own message, so the message tells which check failed. */
  lemma MessagesDistinct(e1: FieldError, e2: FieldError)
    requires e1 != e2
    ensures Message(e1) != Message(e2)
  {
  }

  /** A validator's outcome: `Accepted` is its `true` (the field is shown as valid). */
  datatype Check = Accepted | Rejected(error: FieldError)

  /** The test `/^[a-zA-Z\s]+$/.test(s)`. */
  predicate MatchesNamePattern(s: string) {
    |s| > 0 && forall k :: 0 <= k < |s| ==> IsNameChar(s[k])
  }

  /** `validateName` on the value of the name field. */
  function ValidateName(value: string): (r: Check)
    ensures r.Rejected? ==> r.error in {NameRequired, NameTooShort, NameBadCharacters}
    ensures r == Rejected(NameRequired) <==> Trim(value) == []
  {
    var name := Trim(value);
    if name == [] then Rejected(NameRequired)
    else if JsLength(name) < 2 then Rejected(NameTooShort)
    else if !MatchesNamePattern(name) then Rejected(NameBadCharacters)
    else Accepted
  }

  /**
   The name is accepted exactly when the trimmed value has at least two
   characters and consists only of ASCII letters and whitespace.
   */
  lemma NameAccepted(value: string)
    ensures ValidateName(value) == Accepted
        <==> var name := Trim(value);
             |name| >= 2 && forall k :: 0 <= k < |name| ==> IsNameChar(name[k])
  {
    var name := Trim(value);
    if forall k :: 0 <= k < |name| ==> IsNameChar(name[k]) {
      assert forall k :: 0 <= k < |name| ==> name[k] as int < 0x10000;
    }
  }

  /**
   A rejected name reports the first failing check in the order required, too
   short, bad characters: exactly a one-character name (of one UTF-16 code
   unit) is too short, whatever that character is, and a name reported for its
   characters is long enough but holds a character outside the pattern.
   */
  lemma NameErrorOrder(value: string)
    ensures var name := Trim(value);
            ValidateName(value) == Rejected(NameTooShort) <==> |name| == 1 && name[0] as int < 0x10000
    ensures var name := Trim(value);
            ValidateName(value) == Rejected(NameBadCharacters)
            ==> |name| >= 1 && exists k :: 0 <= k < |name| && !IsNameChar(name[k])
  {
    var name := Trim(value);
    if |name| == 1 {
      assert name[1..] == [];
      assert JsLength(name) == (if name[0] as int < 0x10000 then 1 else 2);
    }
  }

  /** The test `/^[\+]?[1-9][\d]{0,15}$/.test(s)`. */
  predicate MatchesPhonePattern(s: string) {
    var t := if |s| > 0 && s[0] == '+' then s[1..] else s;
    && 1 <= |t| <= 16
    && '1' <= t[0] <= '9'
    && forall k :: 1 <= k < |t| ==> IsDigit(t[k])
  }

  /** `validatePhone` on the value of the phone field. */
  function ValidatePhone(value: string): (r: Check)
    ensures r.Rejected? ==> r.error in {PhoneRequired, PhoneTooShort, PhoneTooLong, PhoneInvalid}
    ensures r == Rejected(PhoneRequired) <==> Trim(value) == []
  {
    var phone := Trim(value);
    if phone == [] then Rejected(PhoneRequired)
    else
      var cleanPhone := Digits(phone);
      if |cleanPhone| < 10 then Rejected(PhoneTooShort)
      else if |cleanPhone| > 15 then Rejected(PhoneTooLong)
      else if !MatchesPhonePattern(cleanPhone) then Rejected(PhoneInvalid)
      else Accepted
  }

  /**
   On a digits-only string the optional `+` of the phone pattern never matches,
   so the pattern only asks for 1 to 16 digits not starting with '0'.
   */
  lemma PhonePatternOnDigits(s: string)
    requires forall k :: 0 <= k < |s| ==> IsDigit(s[k])
    ensures MatchesPhonePattern(s) <==> 1 <= |s| <= 16 && s[0] != '0'
  {
  }

  /**
   The phone is accepted exactly when its digits, wherever they stand among
   other characters, number 10 to 15 and do not start with '0'.
   */
  lemma PhoneAccepted(value: string)
    ensures ValidatePhone(value) == Accepted
        <==> var d := Digits(value);
             10 <= |d| <= 15 && d[0] != '0'
  {
    DigitsIgnoreTrim(value);
    var d := Digits(value);
    PhonePatternOnDigits(d);
    if Trim(value) == [] {
      assert d == Digits([]);
    }
  }

  /**
   The phone errors come in the order required, too short, too long, invalid:
   each is reported exactly when the earlier checks pass and its own fails.
   */
  lemma PhoneErrorOrder(value: string)
    ensures ValidatePhone(value) == Rejected(PhoneTooShort) <==> Trim(value) != [] && |Digits(value)| < 10
    ensures ValidatePhone(value) == Rejected(PhoneTooLong) <==> |Digits(value)| > 15
    ensures ValidatePhone(value) == Rejected(PhoneInvalid)
        <==> 10 <= |Digits(value)| <= 15 && Digits(value)[0] == '0'
  {
    DigitsIgnoreTrim(value);
    PhonePatternOnDigits(Digits(Trim(value)));
    if Trim(value) == [] {
      assert Digits(value) == Digits([]);
    }
  }

  /** What one submission does up to the network call. */
  datatype Submission = Submission(name: Check, phone: Check, proceeds: bool)

  /**
   The validation gate of `handleSubmit`: both validators always run (each
   field shows its own outcome) and the submission goes on to the loading state
   and the request only when both accept.
   */
  function HandleSubmit(nameValue: string, phoneValue: string): (s: Submission)
    ensures s.name == ValidateName(nameValue) && s.phone == ValidatePhone(phoneValue)
    ensures s.proceeds <==> s.name == Accepted && s.phone == Accepted
  {
    var isNameValid := ValidateName(nameValue);
    var isPhoneValid := ValidatePhone(phoneValue);
    if isNameValid != Accepted || isPhoneValid != Accepted then
      Submission(isNameValid, isPhoneValid, false)
    else
      Submission(isNameValid, isPhoneValid, true)
  }

  /** The accept set of the whole gate, in terms of the two raw field values. */
  lemma SubmitGate(nameValue: string, phoneValue: string)
    ensures HandleSubmit(nameValue, phoneValue).proceeds
        <==> && |Trim(nameValue)| >= 2
             && (forall k :: 0 <= k < |Trim(nameValue)| ==> IsNameChar(Trim(nameValue)[k]))
             && 10 <= |Digits(phoneValue)| <= 15 && Digits(phoneValue)[0] != '0'
  {
    NameAccepted(nameValue);
    PhoneAccepted(phoneValue);
  }

  /** A phone "12" stops any submission at validation with the too-short message. */
  lemma ShortPhoneStopsSubmit(nameValue: string)
    ensures HandleSubmit(nameValue, "12").phone == Rejected(PhoneTooShort)
    ensures !HandleSubmit(nameValue, "12").proceeds
  {
    var phone := "12";
    assert !IsWhitespace(phone[0]);
    PhoneErrorOrder(phone);
  }

  /**
   An international number written with a leading plus sign is accepted when
   its digits are: the plus sign is dropped with the other non-digits.
   */
  lemma PlusPhoneAccepted(d: string)
    requires forall k :: 0 <= k < |d| ==> IsDigit(d[k])
    requires 10 <= |d| <= 15 && d[0] != '0'
    ensures ValidatePhone("+" + d) == Accepted
  {
    assert ("+" + d)[1..] == d;
    PhoneAccepted("+" + d);
  }

  lemma ExampleNameAccepted()
    ensures ValidateName("Jo") == Accepted
  {
    assert "Jo"[0] == 'J' && "Jo"[1] == 'o';
    TrimIsSlice("Jo", 0, 2);
    NameAccepted("Jo");
  }

  /** The name "Jo" with the phone "+14155550123" passes validation. */
  lemma ExampleSubmitProceeds()
    ensures HandleSubmit("Jo", "+14155550123").proceeds
  {
    assert "+14155550123" == "+" + "14155550123";
    PlusPhoneAccepted("14155550123");
    ExampleNameAccepted();
  }

  /**
   A name of one character outside the Basic Multilingual Plane is two UTF-16
   code units long, so it passes the length check and fails the pattern.
   */
  lemma AstralNameIsBadCharacters()
    ensures ValidateName("\U{1F600}") == Rejected(NameBadCharacters)
  {
    assert Trim("\U{1F600}") == "\U{1F600}" by { TrimIsSlice("\U{1F600}", 0, 1); }
  }
}
