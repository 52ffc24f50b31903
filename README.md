# Validation server validators in Dafny

This project models the four validators of the MCP validation server:

- **e-mail**: an anchored match against a simplified addr-spec pattern;
- **phone**: an anchored match against the E.164 shape `+[1-9]` followed by 9 to 14 digits;
- **URL**: a decision over the scheme, network location and path that `urllib.parse.urlparse` gives;
- **custom regex**: decodes a flag string, runs a caller-supplied pattern and reports the outcome.

Each validator returns a result record that echoes its input and says whether the input is valid and why.

One module per validator, plus a shared module:

- `Common` (`common.dfy`) holds:
  - the `{valid, input, message}` record;
  - the character classes the patterns use, including the Unicode decimal digits that `\d` accepts in a Python `str` pattern;
  - the rule by which Python's `$` also matches just before one final newline.
- `Email` (`email.dfy`) states the pattern's language as a concatenation (`AddrSpec`). A deterministic checker (first '@', last '.', three pieces) is proved to accept exactly that language. `ValidateEmail` is valid exactly when the input, up to one final newline, is in the language.
- `Phone` (`phone.dfy`) states `\d{9,14}$` as a bounded digit run (`DigitRun`) and proves it equal to a length-and-character check. `ValidatePhone` is valid exactly when the pattern matches.
- `Url` (`url.dfy`): `ValidateUrl` takes the parser's outcome as a parameter. Its contract fixes each of the four result shapes: success, missing domain, wrong scheme and parse error.
- `CustomRegex` (`custom_regex.dfy`):
  - `ParseFlags` is a method with the source's five successive membership tests. Each test adds an option to a set and appends a descriptor to a list. It is proved against a specification of the descriptors (`Descriptors`) and of the option set (`RequestedOptions`).
  - The compile-and-search step of Python's `re` engine is a function parameter, `search(pattern, options, text)`. Its `SearchOutcome` is one of: a match with its group 0, no match, a compile error, or another exception.
  - `Report` builds the result for each outcome, and `ValidateRegex` puts the two steps together.

## Model

| member | source | states |
|---|---|---|
| Common.IsDecimalDigit | src/mcp_validation_server/validators/phone.py:9 | `\d` in a `str` pattern: a character of one of the 68 blocks of ten consecutive code points of Unicode category Nd, from 0x30 to 0x1FBF0 |
| Common.DropFinalNewline | src/mcp_validation_server/validators/email.py:8 | the text `$` makes the pattern match entirely: the input without its one final newline, if it has one, and the input itself otherwise |
| Common.AsciiDigitIsDecimal | src/mcp_validation_server/validators/phone.py:9 | every ASCII digit is accepted by `\d` |
| Common.DecimalDigitAtLeastZero | src/mcp_validation_server/validators/phone.py:9 | no character `\d` accepts lies below '0', so spaces, '(', ')', '-', '.' and newline are never digits |
| Email.AddrSpec | src/mcp_validation_server/validators/email.py:8 | the language between `^` and `$`: one or more of `[a-zA-Z0-9._%+-]`, then "@", one or more of `[a-zA-Z0-9.-]`, then ".", then two or more ASCII letters |
| Email.PatternMatches | src/mcp_validation_server/validators/email.py:33 | `EMAIL_PATTERN.match(s)` with Python's `$`: s is in the language, or s ends in one newline and the rest is |
| Email.CheckPartsSound | src/mcp_validation_server/validators/email.py:7-9 | a string the checker accepts (first '@', last '.', then a local part, a domain and a top-level label of two or more letters) is in the pattern's language |
| Email.CheckPartsComplete | src/mcp_validation_server/validators/email.py:7-9 | every string of the pattern's language is accepted by the checker, since the only '@' is the first one and the top-level label has no '.' |
| Email.AtIsOnly | src/mcp_validation_server/validators/email.py:8 | in local + "@" + domain + "." + tld, the '@' after the local part is the first and only '@' |
| Email.DotIsLast | src/mcp_validation_server/validators/email.py:8 | in local + "@" + domain + "." + tld, the '.' before the label is the last '.', and the string ends in a letter |
| Email.PartsInPlace | src/mcp_validation_server/validators/email.py:8 | cutting such a string at that '@' and that '.' gives back a local part, a domain and a top-level label |
| Email.AddrSpecEndsInLetter | src/mcp_validation_server/validators/email.py:8 | a string of the language ends in an ASCII letter, never in a newline |
| Email.PatternMatchesIffCheck | src/mcp_validation_server/validators/email.py:7-9 | the anchored match succeeds exactly when the checker accepts the input without its final newline |
| Email.MatchesPattern | src/mcp_validation_server/validators/email.py:33 | `EMAIL_PATTERN.match(email)` succeeds exactly when the input is in the language, or is in it once one final newline is removed |
| Email.ValidateEmail | src/mcp_validation_server/validators/email.py:33-39 | echoes the input; valid exactly when the pattern matches; the message is "Valid email format" exactly when valid and "Invalid email format" exactly when not |
| Email.ValidEmailInLanguage | src/mcp_validation_server/validators/email.py:33-39 | a valid input, its final newline set aside, is local part + "@" + domain + "." + label |
| Email.ValidEmailHasOneAt | src/mcp_validation_server/validators/email.py:7-9 | a valid input has exactly one '@', and it is not the first character |
| Email.ValidEmailParts | src/mcp_validation_server/validators/email.py:7-9 | in a valid input, the text before the first '@' is a non-empty local part, the text up to the last '.' a non-empty domain, and the text after it two or more ASCII letters |
| Email.AddrSpecHasAt | src/mcp_validation_server/validators/email.py:8 | a string of the language contains an '@' |
| Email.ValidEmailExample | src/mcp_validation_server/validators/email.py:27-28 | "user@example.com" is valid, with message "Valid email format" |
| Email.TrailingNewlineEmailExample | src/mcp_validation_server/validators/email.py:33-37 | "user@example.com\n" is valid too, and its input is echoed with the newline |
| Email.InvalidEmailExamples | src/mcp_validation_server/validators/email.py:30-31 | "invalid.email" is invalid with message "Invalid email format"; so are "" and an address followed by two newlines |
| Phone.DigitRun | src/mcp_validation_server/validators/phone.py:9 | `\d{lo,hi}` followed by the end of the text, read as the pattern does: at most hi decimal digits, the first lo of them compulsory, and nothing after them |
| Phone.E164Shape | src/mcp_validation_server/validators/phone.py:9 | the language between `^` and `$`: "+", a digit 1-9 (ASCII only), then `\d{9,14}` to the end |
| Phone.PatternMatches | src/mcp_validation_server/validators/phone.py:35 | `PHONE_PATTERN.match(s)` with Python's `$`: s is in the language, or s ends in one newline and the rest is |
| Phone.DigitRunIff | src/mcp_validation_server/validators/phone.py:9 | a run matching `\d{lo,hi}` up to the end is exactly a string of decimal digits whose length lies between lo and hi |
| Phone.CheckShapeIff | src/mcp_validation_server/validators/phone.py:9 | the pattern's language is exactly the strings of length 11 to 16 made of '+', a digit 1-9, and decimal digits |
| Phone.E164ShapeEndsInDigit | src/mcp_validation_server/validators/phone.py:9 | a string of the language ends in a decimal digit, never in a newline |
| Phone.PatternMatchesIffCheck | src/mcp_validation_server/validators/phone.py:8-10 | the anchored match succeeds exactly when the length-and-character check accepts the input without its final newline |
| Phone.MatchesPattern | src/mcp_validation_server/validators/phone.py:35 | `PHONE_PATTERN.match(phone_number)` succeeds exactly when the input, or the input without one final newline, is in the language |
| Phone.ValidatePhone | src/mcp_validation_server/validators/phone.py:35-43 | echoes the input; valid exactly when the pattern matches; the message is "Valid E.164 phone format" exactly when valid and the E.164 hint exactly when not |
| Phone.ValidPhoneShape | src/mcp_validation_server/validators/phone.py:6-10 | a valid number, its final newline set aside, has 11 to 16 characters: '+', a digit 1-9, then only decimal digits (10 to 15 digits in all) |
| Phone.PhoneRejectsBadStart | src/mcp_validation_server/validators/phone.py:8-10 | an input that is empty, does not start with '+', or has '0' after the '+' is invalid |
| Phone.PhoneRejectsSeparator | src/mcp_validation_server/validators/phone.py:8-10 | any non-digit after the '+' (space, dash, parenthesis, dot) makes the input invalid, except a single final newline |
| Phone.ValidPhoneExample | src/mcp_validation_server/validators/phone.py:29-30 | "+12025551234" is valid, with message "Valid E.164 phone format" |
| Phone.TrailingNewlinePhoneExample | src/mcp_validation_server/validators/phone.py:35-39 | "+12025551234\n" is valid too, and its input keeps the newline |
| Phone.InvalidPhoneExamples | src/mcp_validation_server/validators/phone.py:32-33 | "5551234" is invalid with the E.164 hint; so are "+0123456789" and "+1 2025551234" |
| Phone.PhoneUnicodeDigits | src/mcp_validation_server/validators/phone.py:9 | Arabic-Indic digits after "+1" are accepted by `\d`, but not as the first digit, which `[1-9]` restricts to ASCII |
| Url.AllowedScheme | src/mcp_validation_server/validators/url.py:46 | `parsed.scheme in ["http", "https"]`: an exact, case-sensitive comparison with the two allowed schemes |
| Url.SchemeOrNone | src/mcp_validation_server/validators/url.py:67 | `parsed.scheme or "none"`: never empty, and the scheme itself when there is one |
| Url.PathOrRoot | src/mcp_validation_server/validators/url.py:59 | `parsed.path or "/"`: never empty, and the path itself when there is one |
| Url.ValidateUrl | src/mcp_validation_server/validators/url.py:42-83 | echoes the input; valid exactly when parsing succeeded, the scheme is exactly "http" or "https" and the network location is non-empty; gives the message and details of each of the four paths; a parser exception becomes a failure with "URL parsing error: " and empty details |
| Url.MissingDomainPrecedence | src/mcp_validation_server/validators/url.py:51-68 | with no network location the result depends only on the scheme-or-"none" detail, so even "https" gets "Invalid URL: missing domain" |
| Url.ParsedDetailsNeverEmpty | src/mcp_validation_server/validators/url.py:56-74 | after a successful parse, a failure carries exactly the scheme detail and it is non-empty; a success has non-empty path and scheme details |
| Url.MessageIdentifiesPath | src/mcp_validation_server/validators/url.py:51-83 | the message alone tells which of success, missing domain, wrong scheme and parse error happened |
| Url.UrlExamples | src/mcp_validation_server/validators/url.py:22-40 | the documented https and ftp results, the "/" path default, the missing-domain message, and "none" for an empty scheme |
| CustomRegex.LowerChar | src/mcp_validation_server/validators/custom_regex.py:52 | `str.lower()` on one character as far as it can yield a flag letter: an ASCII capital becomes its small letter, U+0130 becomes "i" plus U+0307, and any other character stays |
| CustomRegex.Lower | src/mcp_validation_server/validators/custom_regex.py:52 | `flags.lower()`: the lowered characters, one after the other |
| CustomRegex.Selects | src/mcp_validation_server/validators/custom_regex.py:52-64 | a character of `flags` selects a flag when its lowered form contains the flag's letter |
| CustomRegex.Requested | src/mcp_validation_server/validators/custom_regex.py:52-64 | `letter in flags.lower()`, the test each of the five `if`s makes |
| CustomRegex.SelectedIn | src/mcp_validation_server/validators/custom_regex.py:52-66 | the flags of a test order that `flags` requests, in that order |
| CustomRegex.Descriptors | src/mcp_validation_server/validators/custom_regex.py:52-66 | the specification of `flag_descriptions`: the descriptors of the requested flags, taken in the order i, m, s, x, a |
| CustomRegex.RequestedIff | src/mcp_validation_server/validators/custom_regex.py:52-64 | a flag is tested on `flags.lower()`, so it is requested exactly when some character of `flags` selects it |
| CustomRegex.SelectsIff | src/mcp_validation_server/validators/custom_regex.py:52-64 | a character selects a flag exactly when it is the flag's letter in small or capital form, or U+0130 for "i" |
| CustomRegex.OptionsUnfolded | src/mcp_validation_server/validators/custom_regex.py:52-65 | the five option tests together add exactly the requested flags |
| CustomRegex.RequestedOptions | src/mcp_validation_server/validators/custom_regex.py:49-65 | the option set holds a flag exactly when it is requested |
| CustomRegex.SelectedInExtend | src/mcp_validation_server/validators/custom_regex.py:52-66 | one more flag test extends the selected flags and their descriptors by that flag when requested, and by nothing otherwise |
| CustomRegex.DescriptorsStep | src/mcp_validation_server/validators/custom_regex.py:52-66 | the k-th test in the fixed order appends that flag's descriptor when it is requested |
| CustomRegex.DescriptorsPrefix | src/mcp_validation_server/validators/custom_regex.py:52-66 | after the first k tests, the list holds the descriptors of the requested flags among the first k flags |
| CustomRegex.DescriptorsUnfolded | src/mcp_validation_server/validators/custom_regex.py:52-66 | the descriptor list is the contributions of the i, m, s, x and a tests, in that order |
| CustomRegex.Rank | src/mcp_validation_server/validators/custom_regex.py:52-66 | each flag's position among the five tests |
| CustomRegex.SelectedInMembers | src/mcp_validation_server/validators/custom_regex.py:52-66 | the selected flags are exactly the requested flags of the order tested |
| CustomRegex.SelectedInOrdered | src/mcp_validation_server/validators/custom_regex.py:52-66 | the selected flags keep the order of the tests, so none is repeated and there are no more than were tested |
| CustomRegex.DescriptorsOfPointwise | src/mcp_validation_server/validators/custom_regex.py:54-66 | the descriptor list has one entry per selected flag, the descriptor of that flag |
| CustomRegex.DescriptorInjective | src/mcp_validation_server/validators/custom_regex.py:54-66 | different flags have different descriptors |
| CustomRegex.DescriptorsInFixedOrder | src/mcp_validation_server/validators/custom_regex.py:52-66 | the descriptors follow the fixed order case-insensitive, multiline, dotall, verbose, ASCII-only, whatever the order of letters in `flags`; at most five; exactly the requested flags |
| CustomRegex.DescriptorsOneToOne | src/mcp_validation_server/validators/custom_regex.py:49-66 | a flag's descriptor is listed exactly when the flag is requested, and no descriptor is listed twice |
| CustomRegex.ParseFlags | src/mcp_validation_server/validators/custom_regex.py:49-66 | the option set is exactly the requested flags; the descriptor list is `Descriptors(flags)`; the set and the list name the same flags |
| CustomRegex.SameCharactersSameRequests | src/mcp_validation_server/validators/custom_regex.py:52-64 | two flag strings with the same characters request the same flags |
| CustomRegex.SelectedInSameRequests | src/mcp_validation_server/validators/custom_regex.py:52-66 | flag strings requesting the same flags select the same flags |
| CustomRegex.FlagsOrderIndependent | src/mcp_validation_server/validators/custom_regex.py:52-66 | reordering or repeating the characters of `flags` changes neither the options nor the descriptors |
| CustomRegex.UnrecognizedCharacterIgnored | src/mcp_validation_server/validators/custom_regex.py:52-66 | a character that is no flag letter in either case is ignored |
| CustomRegex.LowerOfUpper | src/mcp_validation_server/validators/custom_regex.py:52 | `lower()` of the flags with their ASCII small letters made capital (`Upper`, a helper for stating this) is `lower()` of the flags |
| CustomRegex.FlagsCaseInsensitive | src/mcp_validation_server/validators/custom_regex.py:52-66 | "I" behaves like "i": upper-casing `flags` changes neither the options nor the descriptors |
| CustomRegex.NoFlagExamples | src/mcp_validation_server/validators/custom_regex.py:49-66 | "" and "q" give no descriptors |
| CustomRegex.CaseInsensitiveExamples | src/mcp_validation_server/validators/custom_regex.py:52-54 | "i" and "I" both give just "case-insensitive" |
| CustomRegex.MixedFlagsExample | src/mcp_validation_server/validators/custom_regex.py:52-63 | "xmI" gives case-insensitive, multiline, verbose, in that order |
| CustomRegex.AllFlagsExample | src/mcp_validation_server/validators/custom_regex.py:52-66 | every letter, repeated and in both cases, gives each of the five descriptors once |
| CustomRegex.Join | src/mcp_validation_server/validators/custom_regex.py:74 | `sep.join(parts)`: empty for no parts, the part itself for one, and starting with the first part |
| CustomRegex.JoinSnoc | src/mcp_validation_server/validators/custom_regex.py:74 | for any non-empty list, joining one more part appends the separator and then that part, so the parts appear in order separated by `sep` |
| CustomRegex.MatchedMessage | src/mcp_validation_server/validators/custom_regex.py:74-79 | the match message starts with "Pattern matched"; it is exactly that when there are no descriptors; otherwise it continues with " (", ends with ")", and the text between them is `", ".join(descriptions)` |
| CustomRegex.Report | src/mcp_validation_server/validators/custom_regex.py:73-103 | echoes text and pattern; valid exactly when the engine matched, and exactly then the match text is present; the message of each outcome (match note, "Pattern did not match", "Invalid regex pattern: " + error, "Error: " + cause) |
| CustomRegex.ValidateRegex | src/mcp_validation_server/validators/custom_regex.py:49-103 | the result is the report of the engine's outcome on the pattern with exactly the requested options, with the descriptors of the requested flags |
| CustomRegex.RegexMessageIdentifiesOutcome | src/mcp_validation_server/validators/custom_regex.py:73-103 | the message alone tells whether the engine matched, found no match, failed to compile, or raised another exception |
| CustomRegex.RegexDocExample | src/mcp_validation_server/validators/custom_regex.py:39-46 | "hello" with pattern "HELLO" and flags "i" is valid with "Pattern matched (case-insensitive)" and match "hello" |
| CustomRegex.RegexPlainExamples | src/mcp_validation_server/validators/custom_regex.py:73-88 | "Hello123" with `\d+` and no flags gives "Pattern matched" and match "123"; an empty match is still valid; no match gives "Pattern did not match" and no match text |
| CustomRegex.MatchedMessageExample | src/mcp_validation_server/validators/custom_regex.py:74-79 | flags "xmI" give "Pattern matched (case-insensitive, multiline, verbose)" |

## Left out

- The transports are not part of this model: the MCP server and tool registration, the FastAPI REST layer and its HTTP 400 mapping, the SSE endpoint, the entry point and the Django client. They are framework glue and I/O around the validators.
- The REST layer calls `validate_regex` with a `description=` keyword and integer flags, which the function does not accept. This is a transport defect outside the validators, and it is not modelled.
- Python's regular-expression engine is not modelled: backtracking, the meaning of the caller's pattern, catastrophic run time, and which exceptions `re.compile` and `search` raise. `ValidateRegex` takes the engine as a function from (pattern, options, text) to an outcome.
- `urllib.parse.urlparse` is not modelled. `ValidateUrl` takes its outcome (scheme, netloc, path, or the text of the exception it raised) as a parameter.
- CustomRegex.ParseFlags: the option value is a set of flags rather than the integer bit mask `re.IGNORECASE | ...`. Only which flags are present matters to the engine call.
- CustomRegex.LowerChar: `str.lower()` is modelled only as far as it can produce a flag letter: ASCII capitals, and U+0130, which lowers to "i" plus a combining dot. Every other character is kept as it is, which does not change which flags are requested.
- Common.IsDecimalDigit: the Unicode decimal digits are those of Unicode 15.0 and 15.1 (Python 3.12 and 3.13), which have the same Nd digits. Other Python versions ship other tables.
- Email.ValidateEmail, Phone.ValidatePhone: calling them twice on the same input gives the same result; as total functions of their input this needs no proof.
- The `str(e)` text of an exception is taken as given: the `cause` and `error` strings of the outcome parameters.
