/** Definitions shared by the four validators: the result record of the
    fixed-pattern validators, the character classes their patterns use, and
    the way Python's `$` anchor treats one final newline. */
module Common {

  datatype Option<+T> = None | Some(value: T)

  /** The dictionary `{valid, input, message}` returned by the e-mail and
      phone validators. */
  datatype ValidationResult = ValidationResult(valid: bool, input: string, message: string)

  /** `[a-zA-Z]`: in a Python `str` pattern a range is a range of code points,
      so this class is ASCII only. */
  predicate IsAsciiLetter(c: char) {
    'a' <= c <= 'z' || 'A' <= c <= 'Z'
  }

  /** `[0-9]` */
  predicate IsAsciiDigit(c: char) {
    '0' <= c <= '9'
  }

  /** The ten consecutive code points `zero` .. `zero + 9`. */
  predicate Block(x: int, zero: int) {
    zero <= x < zero + 10
  }

  /** `\d` in a Python `str` pattern: any Unicode decimal digit (general
      category Nd). Unicode 15.0 and 15.1 (Python 3.12 and 3.13) have 68
      such blocks of ten digits; each disjunct names the code point of a
      block's zero. */
  predicate IsDecimalDigit(c: char) {
    var x := c as int;
    Block(x, 0x0030) || Block(x, 0x0660) || Block(x, 0x06F0) || Block(x, 0x07C0)
    || Block(x, 0x0966) || Block(x, 0x09E6) || Block(x, 0x0A66) || Block(x, 0x0AE6)
    || Block(x, 0x0B66) || Block(x, 0x0BE6) || Block(x, 0x0C66) || Block(x, 0x0CE6)
    || Block(x, 0x0D66) || Block(x, 0x0DE6) || Block(x, 0x0E50) || Block(x, 0x0ED0)
    || Block(x, 0x0F20) || Block(x, 0x1040) || Block(x, 0x1090) || Block(x, 0x17E0)
    || Block(x, 0x1810) || Block(x, 0x1946) || Block(x, 0x19D0) || Block(x, 0x1A80)
    || Block(x, 0x1A90) || Block(x, 0x1B50) || Block(x, 0x1BB0) || Block(x, 0x1C40)
    || Block(x, 0x1C50) || Block(x, 0xA620) || Block(x, 0xA8D0) || Block(x, 0xA900)
    || Block(x, 0xA9D0) || Block(x, 0xA9F0) || Block(x, 0xAA50) || Block(x, 0xABF0)
    || Block(x, 0xFF10) || Block(x, 0x104A0) || Block(x, 0x10D30) || Block(x, 0x11066)
    || Block(x, 0x110F0) || Block(x, 0x11136) || Block(x, 0x111D0) || Block(x, 0x112F0)
    || Block(x, 0x11450) || Block(x, 0x114D0) || Block(x, 0x11650) || Block(x, 0x116C0)
    || Block(x, 0x11730) || Block(x, 0x118E0) || Block(x, 0x11950) || Block(x, 0x11C50)
    || Block(x, 0x11D50) || Block(x, 0x11DA0) || Block(x, 0x11F50) || Block(x, 0x16A60)
    || Block(x, 0x16AC0) || Block(x, 0x16B50) || Block(x, 0x1D7CE) || Block(x, 0x1D7D8)
    || Block(x, 0x1D7E2) || Block(x, 0x1D7EC) || Block(x, 0x1D7F6) || Block(x, 0x1E140)
    || Block(x, 0x1E2F0) || Block(x, 0x1E4F0) || Block(x, 0x1E950) || Block(x, 0x1FBF0)
  }

  /** Every ASCII digit is a decimal digit. */
  lemma AsciiDigitIsDecimal(c: char)
    requires IsAsciiDigit(c)
    ensures IsDecimalDigit(c)
  {
  }

  /** No decimal digit lies below '0', so no ASCII punctuation or control
      character before '0' (space, '(', ')', '-', '.', newline) is one. */
  lemma DecimalDigitAtLeastZero(c: char)
    requires IsDecimalDigit(c)
    ensures c as int >= 0x30
  {
  }

  /** Without the MULTILINE flag, Python's `$` matches at the end of the
      string and also just before a newline that is the last character. */
  predicate EndsWithNewline(s: string) {
    |s| > 0 && s[|s| - 1] == '\n'
  }

  /** The text a pattern ending in `$` has to match entirely: the input
      without its one final newline, if it has one. */
  function DropFinalNewline(s: string): (t: string)
    ensures EndsWithNewline(s) ==> s == t + "\n"
    ensures !EndsWithNewline(s) ==> t == s
  {
    if EndsWithNewline(s) then s[..|s| - 1] else s
  }
}
