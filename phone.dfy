/** The phone validator: an anchored match of `^\+[1-9]\d{9,14}$`, the
    structural shape of an ITU-T E.164 number: '+', a non-zero ASCII digit,
    then nine to fourteen more decimal digits. */
module Phone {
  import opened Common

  const ValidMessage := "Valid E.164 phone format"
  const InvalidMessage := "Invalid phone format. Use E.164: +[country][number]"

  /** `[1-9]`: ASCII only. */
  predicate IsLeadingDigit(c: char) {
    '1' <= c <= '9'
  }

  /** `\d{lo,hi}` followed by the end of the text, read as a regular
      expression: at most `hi` decimal digits, of which the first `lo` are
      compulsory, and nothing after them. */
  predicate DigitRun(t: string, lo: nat, hi: nat)
    decreases |t|
  {
    if t == [] then lo == 0
    else hi > 0 && IsDecimalDigit(t[0]) && DigitRun(t[1..], if lo > 0 then lo - 1 else 0, hi - 1)
  }

  /** The language of the pattern between its anchors. */
  predicate E164Shape(s: string) {
    |s| >= 2 && s[0] == '+' && IsLeadingDigit(s[1]) && DigitRun(s[2..], 9, 14)
  }

  /** What `PHONE_PATTERN.match(s)` accepts: `$` at the end or just before
      one final newline. */
  predicate PatternMatches(s: string) {
    E164Shape(s) || (EndsWithNewline(s) && E164Shape(s[..|s| - 1]))
  }

  /** Every character of `t` is a decimal digit. */
  predicate AllDecimalDigits(t: string) {
    forall k :: 0 <= k < |t| ==> IsDecimalDigit(t[k])
  }

  /** A run of `\d{lo,hi}` is exactly a string of decimal digits whose length
      lies between the two bounds. */
  lemma {:induction false} DigitRunIff(t: string, lo: nat, hi: nat)
    ensures DigitRun(t, lo, hi) <==> lo <= |t| <= hi && AllDecimalDigits(t)
    decreases |t|
  {
    if t != [] && hi > 0 {
      DigitRunIff(t[1..], if lo > 0 then lo - 1 else 0, hi - 1);
      if AllDecimalDigits(t) {
        assert AllDecimalDigits(t[1..]) by {
          forall k | 0 <= k < |t[1..]|
            ensures IsDecimalDigit(t[1..][k])
          {
            assert t[1..][k] == t[k + 1];
          }
        }
      }
      if IsDecimalDigit(t[0]) && AllDecimalDigits(t[1..]) {
        forall k | 0 <= k < |t|
          ensures IsDecimalDigit(t[k])
        {
          if k > 0 {
            assert t[k] == t[1..][k - 1];
          }
        }
      }
    }
  }

  /** The deterministic checker: length, then the '+', then the leading
      digit, then every remaining character. */
  predicate CheckShape(s: string) {
    11 <= |s| <= 16 && s[0] == '+' && IsLeadingDigit(s[1]) && AllDecimalDigits(s[2..])
  }

  /** The checker accepts exactly the language of the pattern. */
  lemma CheckShapeIff(s: string)
    ensures CheckShape(s) <==> E164Shape(s)
  {
    if |s| >= 2 {
      DigitRunIff(s[2..], 9, 14);
    }
  }

  /** A string of the language ends in a decimal digit, never in a newline. */
  lemma E164ShapeEndsInDigit(s: string)
    requires E164Shape(s)
    ensures IsDecimalDigit(s[|s| - 1]) && s[|s| - 1] != '\n'
  {
    CheckShapeIff(s);
    assert s[|s| - 1] == s[2..][|s| - 3];
    DecimalDigitAtLeastZero(s[|s| - 1]);
  }

  /** The pattern matches exactly when the checker accepts the input
      without its final newline. */
  lemma PatternMatchesIffCheck(s: string)
    ensures PatternMatches(s) <==> CheckShape(DropFinalNewline(s))
  {
    CheckShapeIff(DropFinalNewline(s));
    if E164Shape(s) {
      E164ShapeEndsInDigit(s);
    }
  }

  /** `PHONE_PATTERN.match(s)`, decided by the checker. */
  function MatchesPattern(s: string): (b: bool)
    ensures b <==> PatternMatches(s)
  {
    PatternMatchesIffCheck(s);
    CheckShape(DropFinalNewline(s))
  }

  /** validate_phone: the result echoes the input and is valid exactly when
      the whole input (up to one final newline) matches the pattern; the
      message is one of two fixed texts and tells which. */
  function ValidatePhone(phoneNumber: string): (r: ValidationResult)
    ensures r.input == phoneNumber
    ensures r.valid <==> PatternMatches(phoneNumber)
    ensures r.message == ValidMessage <==> r.valid
    ensures r.message == InvalidMessage <==> !r.valid
  {
    var isValid := MatchesPattern(phoneNumber);
    ValidationResult(isValid, phoneNumber, if isValid then ValidMessage else InvalidMessage)
  }

  /** A valid number, its final newline set aside, is '+' followed by 10 to
      15 decimal digits, the first an ASCII digit other than '0'; so its
      length is between 11 and 16. */
  lemma ValidPhoneShape(phoneNumber: string)
    requires ValidatePhone(phoneNumber).valid
    ensures var s := DropFinalNewline(phoneNumber);
            && 11 <= |s| <= 16
            && s[0] == '+' && IsLeadingDigit(s[1])
            && forall k :: 1 <= k < |s| ==> IsDecimalDigit(s[k])
  {
    var s := DropFinalNewline(phoneNumber);
    PatternMatchesIffCheck(phoneNumber);
    forall k | 1 <= k < |s|
      ensures IsDecimalDigit(s[k])
    {
      if k == 1 {
        AsciiDigitIsDecimal(s[1]);
      } else {
        assert s[k] == s[2..][k - 2];
      }
    }
  }

  /** Any input not starting with '+', or with '0' right after the '+', is
      rejected. */
  lemma PhoneRejectsBadStart(phoneNumber: string)
    requires |phoneNumber| == 0 || phoneNumber[0] != '+' || (|phoneNumber| >= 2 && phoneNumber[1] == '0')
    ensures !ValidatePhone(phoneNumber).valid
  {
    if ValidatePhone(phoneNumber).valid {
      ValidPhoneShape(phoneNumber);
    }
  }

  /** Any character after the '+' that is not a decimal digit (a space, a
      dash, a parenthesis, a dot, ...) makes the input invalid, unless it is
      the one final newline. */
  lemma PhoneRejectsSeparator(phoneNumber: string, k: nat)
    requires 0 < k < |phoneNumber| && !IsDecimalDigit(phoneNumber[k])
    requires !(k == |phoneNumber| - 1 && phoneNumber[k] == '\n')
    ensures !ValidatePhone(phoneNumber).valid
  {
    if ValidatePhone(phoneNumber).valid {
      ValidPhoneShape(phoneNumber);
    }
  }

  /** The documentation's valid example. */
  lemma ValidPhoneExample()
    ensures ValidatePhone("+12025551234").valid
    ensures ValidatePhone("+12025551234").message == "Valid E.164 phone format"
  {
    var good := "+12025551234";
    assert CheckShape(good) by {
      forall k | 0 <= k < |good[2..]|
        ensures IsDecimalDigit(good[2..][k])
      {
        AsciiDigitIsDecimal(good[2..][k]);
      }
    }
    PatternMatchesIffCheck(good);
  }

  /** Python's `$` lets one final newline through, and `input` keeps it. */
  lemma TrailingNewlinePhoneExample()
    ensures ValidatePhone("+12025551234\n").valid
    ensures ValidatePhone("+12025551234\n").input == "+12025551234\n"
  {
    var good := "+12025551234";
    ValidPhoneExample();
    assert (good + "\n")[..|good + "\n"| - 1] == good;
    assert PatternMatches(good + "\n");
  }

  /** The documentation's invalid example, a leading zero after the '+',
      and a space used as a separator. */
  lemma InvalidPhoneExamples()
    ensures !ValidatePhone("5551234").valid
    ensures ValidatePhone("5551234").message == "Invalid phone format. Use E.164: +[country][number]"
    ensures !ValidatePhone("+0123456789").valid
    ensures !ValidatePhone("+1 2025551234").valid
  {
    PhoneRejectsBadStart("5551234");
    PhoneRejectsBadStart("+0123456789");
    PhoneRejectsSeparator("+1 2025551234", 2);
  }

  /** `\d` takes any Unicode decimal digit while `[1-9]` is ASCII only: a
      number written in Arabic-Indic digits after an ASCII '1' is valid, and
      one whose first digit is Arabic-Indic is not. */
  lemma PhoneUnicodeDigits()
    ensures ValidatePhone("+1٢٠٢٥٥٥١٢٣٤").valid
    ensures !ValidatePhone("+١٢٠٢٥٥٥١٢٣٤").valid
  {
    var good := "+1٢٠٢٥٥٥١٢٣٤";
    assert CheckShape(good);
    CheckShapeIff(good);
    var bad := "+١٢٠٢٥٥٥١٢٣٤";
    if ValidatePhone(bad).valid {
      ValidPhoneShape(bad);
    }
  }
}
