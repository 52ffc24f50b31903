/** The custom-regex validator: decodes a flag string into engine options
    and an ordered list of descriptors, runs the caller's pattern on the
    text, and turns the engine's outcome into a result record. Python's `re`
    engine is not modelled: compiling and searching is a function parameter
    whose outcome the validator reports. */
module CustomRegex {
  import opened Common

  /** The five engine options the flag string can select. */
  datatype RegexFlag = IgnoreCase | Multiline | DotAll | Verbose | Ascii

  /** The order in which the flags are tested, which is the order of their
      descriptors in the message. */
  const FlagOrder: seq<RegexFlag> := [IgnoreCase, Multiline, DotAll, Verbose, Ascii]

  /** The letter that selects a flag. */
  function Letter(f: RegexFlag): char {
    match f
    case IgnoreCase => 'i'
    case Multiline => 'm'
    case DotAll => 's'
    case Verbose => 'x'
    case Ascii => 'a'
  }

  /** The human-readable descriptor of a flag. */
  function Descriptor(f: RegexFlag): string {
    match f
    case IgnoreCase => "case-insensitive"
    case Multiline => "multiline"
    case DotAll => "dotall"
    case Verbose => "verbose"
    case Ascii => "ASCII-only"
  }

  /** Python's `str.lower()` on one character, as far as it can produce one
      of the flag letters: ASCII capitals become small letters, and U+0130
      (capital I with dot above) becomes "i" followed by U+0307. No other
      character lowers to an ASCII a, i, m, s or x, so every other character
      is kept as it is. */
  function LowerChar(c: char): string {
    if 'A' <= c <= 'Z' then [(c as int + 32) as char]
    else if c == '\U{0130}' then "i\U{0307}"
    else [c]
  }

  /** `flags.lower()`, with LowerChar's reading of `str.lower()`. */
  function Lower(s: string): string {
    if s == [] then [] else LowerChar(s[0]) + Lower(s[1..])
  }

  /** Whether the character `c` of a flag string selects flag `f`. */
  predicate Selects(c: char, f: RegexFlag) {
    Letter(f) in LowerChar(c)
  }

  /** `Letter(f) in flags.lower()`: the test the validator makes per flag. */
  predicate Requested(flags: string, f: RegexFlag) {
    Letter(f) in Lower(flags)
  }

  /** The flags are tested on `flags.lower()`: a flag is requested exactly
      when some character of `flags` selects it. */
  lemma {:induction false} RequestedIff(flags: string, f: RegexFlag)
    ensures Requested(flags, f) <==> exists k :: 0 <= k < |flags| && Selects(flags[k], f)
    decreases |flags|
  {
    if flags != [] {
      RequestedIff(flags[1..], f);
      assert Lower(flags) == LowerChar(flags[0]) + Lower(flags[1..]);
      if exists k :: 0 <= k < |flags[1..]| && Selects(flags[1..][k], f) {
        var k :| 0 <= k < |flags[1..]| && Selects(flags[1..][k], f);
        assert flags[k + 1] == flags[1..][k];
      }
      if exists k :: 0 <= k < |flags| && Selects(flags[k], f) {
        var k :| 0 <= k < |flags| && Selects(flags[k], f);
        if k > 0 {
          assert flags[1..][k - 1] == flags[k];
        }
      }
    }
  }

  /** A character selects a flag exactly when it is the flag's letter in
      either case, or U+0130 for the case-insensitive flag. */
  lemma SelectsIff(c: char, f: RegexFlag)
    ensures Selects(c, f) <==>
              c == Letter(f) || c as int == Letter(f) as int - 32 || (f == IgnoreCase && c == '\U{0130}')
  {
  }

  /** The flags of `order` that `flags` requests, in the order of `order`. */
  function SelectedIn(order: seq<RegexFlag>, flags: string): seq<RegexFlag> {
    if order == [] then []
    else
      var last := order[|order| - 1];
      SelectedIn(order[..|order| - 1], flags) + (if Requested(flags, last) then [last] else [])
  }

  /** The descriptors of a sequence of flags, in its order. */
  function DescriptorsOf(fs: seq<RegexFlag>): seq<string> {
    if fs == [] then [] else DescriptorsOf(fs[..|fs| - 1]) + [Descriptor(fs[|fs| - 1])]
  }

  /** The descriptors of the requested flags, in the fixed flag order. */
  function Descriptors(flags: string): seq<string> {
    DescriptorsOf(SelectedIn(FlagOrder, flags))
  }

  /** The descriptor one flag test contributes: its own, when the flag is
      requested, and none otherwise. */
  function When(flags: string, f: RegexFlag): (d: seq<string>)
    ensures Requested(flags, f) ==> d == [Descriptor(f)]
    ensures !Requested(flags, f) ==> d == []
  {
    if Requested(flags, f) then [Descriptor(f)] else []
  }

  /** The option one flag test contributes. */
  function OptionWhen(flags: string, f: RegexFlag): (o: set<RegexFlag>)
    ensures o == if Requested(flags, f) then {f} else {}
  {
    if Requested(flags, f) then {f} else {}
  }

  /** The five option tests together select exactly the requested flags. */
  lemma OptionsUnfolded(flags: string)
    ensures forall f :: f in OptionWhen(flags, IgnoreCase) + OptionWhen(flags, Multiline) + OptionWhen(flags, DotAll)
                             + OptionWhen(flags, Verbose) + OptionWhen(flags, Ascii)
                        <==> Requested(flags, f)
  {
    forall f
      ensures f in OptionWhen(flags, IgnoreCase) + OptionWhen(flags, Multiline) + OptionWhen(flags, DotAll)
                   + OptionWhen(flags, Verbose) + OptionWhen(flags, Ascii)
              <==> Requested(flags, f)
    {
      assert f in OptionWhen(flags, f) <==> Requested(flags, f);
    }
  }

  /** The option set of a flag string: exactly the requested flags. */
  function RequestedOptions(flags: string): (o: set<RegexFlag>)
    ensures forall f :: f in o <==> Requested(flags, f)
  {
    OptionsUnfolded(flags);
    OptionWhen(flags, IgnoreCase) + OptionWhen(flags, Multiline) + OptionWhen(flags, DotAll)
    + OptionWhen(flags, Verbose) + OptionWhen(flags, Ascii)
  }

  /** Testing one more flag extends the selection and its descriptors by
      that flag when it is requested, and by nothing otherwise. */
  lemma SelectedInExtend(order: seq<RegexFlag>, f: RegexFlag, flags: string)
    ensures SelectedIn(order + [f], flags) == SelectedIn(order, flags) + (if Requested(flags, f) then [f] else [])
    ensures DescriptorsOf(SelectedIn(order + [f], flags)) == DescriptorsOf(SelectedIn(order, flags)) + When(flags, f)
  {
    assert (order + [f])[..|order|] == order;
    var before := SelectedIn(order, flags);
    if Requested(flags, f) {
      assert (before + [f])[..|before|] == before;
    } else {
      assert before + [] == before;
    }
  }

  /** The `k`-th flag test in the fixed order, as a step of Descriptors. */
  lemma DescriptorsStep(flags: string, k: nat)
    requires k < |FlagOrder|
    ensures DescriptorsOf(SelectedIn(FlagOrder[..k + 1], flags))
            == DescriptorsOf(SelectedIn(FlagOrder[..k], flags)) + When(flags, FlagOrder[k])
  {
    assert FlagOrder[..k + 1] == FlagOrder[..k] + [FlagOrder[k]];
    SelectedInExtend(FlagOrder[..k], FlagOrder[k], flags);
  }

  /** The descriptors the first `k` flag tests contribute, one test at a
      time. */
  function TestedPrefix(flags: string, k: nat): seq<string>
    requires k <= |FlagOrder|
  {
    if k == 0 then [] else TestedPrefix(flags, k - 1) + When(flags, FlagOrder[k - 1])
  }

  /** The first `k` flag tests give the descriptors of the requested flags
      among the first `k` flags. */
  lemma {:induction false} DescriptorsPrefix(flags: string, k: nat)
    requires k <= |FlagOrder|
    ensures DescriptorsOf(SelectedIn(FlagOrder[..k], flags)) == TestedPrefix(flags, k)
  {
    if k == 0 {
      assert FlagOrder[..0] == [];
    } else {
      DescriptorsPrefix(flags, k - 1);
      DescriptorsStep(flags, k - 1);
    }
  }

  /** Descriptors, written out as the five successive flag tests. */
  lemma DescriptorsUnfolded(flags: string)
    ensures Descriptors(flags)
            == When(flags, IgnoreCase) + When(flags, Multiline) + When(flags, DotAll)
               + When(flags, Verbose) + When(flags, Ascii)
  {
    DescriptorsPrefix(flags, 5);
    assert FlagOrder[..5] == FlagOrder;
    assert TestedPrefix(flags, 1) == When(flags, IgnoreCase);
    assert TestedPrefix(flags, 2) == TestedPrefix(flags, 1) + When(flags, Multiline);
    assert TestedPrefix(flags, 3) == TestedPrefix(flags, 2) + When(flags, DotAll);
    assert TestedPrefix(flags, 4) == TestedPrefix(flags, 3) + When(flags, Verbose);
    assert TestedPrefix(flags, 5) == TestedPrefix(flags, 4) + When(flags, Ascii);
  }

  /** The position of a flag in the fixed order. */
  function Rank(f: RegexFlag): (n: nat)
    ensures n < |FlagOrder| && FlagOrder[n] == f
  {
    match f
    case IgnoreCase => 0
    case Multiline => 1
    case DotAll => 2
    case Verbose => 3
    case Ascii => 4
  }

  /** The selection holds exactly the requested flags of `order`. */
  lemma {:induction false} SelectedInMembers(order: seq<RegexFlag>, flags: string, f: RegexFlag)
    ensures f in SelectedIn(order, flags) <==> f in order && Requested(flags, f)
    decreases |order|
  {
    if order != [] {
      var init, last := order[..|order| - 1], order[|order| - 1];
      SelectedInMembers(init, flags, f);
      assert order == init + [last];
    }
  }

  /** The selection keeps the order of `order`: when ranks increase along
      `order`, they increase along the selection, which therefore has no
      repeated flag and no more flags than `order`. */
  lemma {:induction false} SelectedInOrdered(order: seq<RegexFlag>, flags: string)
    requires forall i, j :: 0 <= i < j < |order| ==> Rank(order[i]) < Rank(order[j])
    ensures var s := SelectedIn(order, flags);
            |s| <= |order| && forall i, j :: 0 <= i < j < |s| ==> Rank(s[i]) < Rank(s[j])
    decreases |order|
  {
    if order != [] {
      var init, last := order[..|order| - 1], order[|order| - 1];
      SelectedInOrdered(init, flags);
      var s0 := SelectedIn(init, flags);
      if Requested(flags, last) {
        var s := s0 + [last];
        forall i, j | 0 <= i < j < |s|
          ensures Rank(s[i]) < Rank(s[j])
        {
          if j == |s0| {
            SelectedInMembers(init, flags, s0[i]);
            var p :| 0 <= p < |init| && init[p] == s0[i];
            assert order[p] == init[p];
          }
        }
      }
    }
  }

  /** Descriptors are taken flag by flag. */
  lemma {:induction false} DescriptorsOfPointwise(fs: seq<RegexFlag>)
    ensures |DescriptorsOf(fs)| == |fs|
    ensures forall i :: 0 <= i < |fs| ==> DescriptorsOf(fs)[i] == Descriptor(fs[i])
    decreases |fs|
  {
    if fs != [] {
      DescriptorsOfPointwise(fs[..|fs| - 1]);
    }
  }

  /** Different flags have different descriptors. */
  lemma DescriptorInjective(f: RegexFlag, g: RegexFlag)
    ensures Descriptor(f) == Descriptor(g) <==> f == g
  {
    if f != g {
      assert Descriptor(f)[0] != Descriptor(g)[0] || |Descriptor(f)| != |Descriptor(g)|;
    }
  }

  /** The descriptor list names each requested flag once and nothing else,
      in the fixed order case-insensitive, multiline, dotall, verbose,
      ASCII-only, whatever the order of the letters in `flags`; so it has at
      most five entries. */
  lemma DescriptorsInFixedOrder(flags: string)
    ensures var s := SelectedIn(FlagOrder, flags);
            var d := Descriptors(flags);
            && |d| == |s| <= 5
            && (forall i :: 0 <= i < |d| ==> d[i] == Descriptor(s[i]))
            && (forall i, j :: 0 <= i < j < |s| ==> Rank(s[i]) < Rank(s[j]))
            && (forall f :: f in s <==> Requested(flags, f))
  {
    var s := SelectedIn(FlagOrder, flags);
    forall i, j | 0 <= i < j < |FlagOrder|
      ensures Rank(FlagOrder[i]) < Rank(FlagOrder[j])
    {
    }
    SelectedInOrdered(FlagOrder, flags);
    DescriptorsOfPointwise(s);
    forall f
      ensures f in s <==> Requested(flags, f)
    {
      SelectedInMembers(FlagOrder, flags, f);
      assert FlagOrder[Rank(f)] == f;
    }
  }

  /** A flag's descriptor is in the list exactly when the flag is
      requested, and no descriptor occurs twice. */
  lemma DescriptorsOneToOne(flags: string)
    ensures forall f :: Descriptor(f) in Descriptors(flags) <==> Requested(flags, f)
    ensures var d := Descriptors(flags);
            forall i, j :: 0 <= i < j < |d| ==> d[i] != d[j]
  {
    var s := SelectedIn(FlagOrder, flags);
    var d := Descriptors(flags);
    DescriptorsInFixedOrder(flags);
    forall f
      ensures Descriptor(f) in d <==> Requested(flags, f)
    {
      if Descriptor(f) in d {
        var i :| 0 <= i < |d| && d[i] == Descriptor(f);
        DescriptorInjective(f, s[i]);
      }
      if Requested(flags, f) {
        var i :| 0 <= i < |s| && s[i] == f;
        assert d[i] == Descriptor(f);
      }
    }
    forall i, j | 0 <= i < j < |d|
      ensures d[i] != d[j]
    {
      DescriptorInjective(s[i], s[j]);
    }
  }

  /** The flag decoding of validate_regex: five membership tests on
      `flags.lower()`, each of which adds its option to the set and appends
      its descriptor to the list. The option set holds exactly the requested
      flags, and it names the same flags as the descriptor list. */
  method ParseFlags(flags: string) returns (options: set<RegexFlag>, descriptions: seq<string>)
    ensures forall f :: f in options <==> Requested(flags, f)
    ensures descriptions == Descriptors(flags)
    ensures forall f :: f in options <==> Descriptor(f) in descriptions
  {
    var lowered := Lower(flags);
    options := {};
    descriptions := [];
    if 'i' in lowered {
      options := options + {IgnoreCase};
      descriptions := descriptions + ["case-insensitive"];
    }
    assert options == OptionWhen(flags, IgnoreCase);
    assert descriptions == When(flags, IgnoreCase);
    if 'm' in lowered {
      options := options + {Multiline};
      descriptions := descriptions + ["multiline"];
    }
    assert options == OptionWhen(flags, IgnoreCase) + OptionWhen(flags, Multiline);
    assert descriptions == When(flags, IgnoreCase) + When(flags, Multiline);
    if 's' in lowered {
      options := options + {DotAll};
      descriptions := descriptions + ["dotall"];
    }
    assert options == OptionWhen(flags, IgnoreCase) + OptionWhen(flags, Multiline) + OptionWhen(flags, DotAll);
    assert descriptions == When(flags, IgnoreCase) + When(flags, Multiline) + When(flags, DotAll);
    if 'x' in lowered {
      options := options + {Verbose};
      descriptions := descriptions + ["verbose"];
    }
    assert descriptions == When(flags, IgnoreCase) + When(flags, Multiline) + When(flags, DotAll)
                           + When(flags, Verbose);
    assert options == OptionWhen(flags, IgnoreCase) + OptionWhen(flags, Multiline) + OptionWhen(flags, DotAll)
                      + OptionWhen(flags, Verbose);
    if 'a' in lowered {
      options := options + {Ascii};
      descriptions := descriptions + ["ASCII-only"];
    }
    assert options == OptionWhen(flags, IgnoreCase) + OptionWhen(flags, Multiline) + OptionWhen(flags, DotAll)
                      + OptionWhen(flags, Verbose) + OptionWhen(flags, Ascii);
    OptionsUnfolded(flags);
    DescriptorsUnfolded(flags);
    DescriptorsOneToOne(flags);
  }

  /** `flags` selects the same options whatever the order and repetition of
      its characters, as long as the same characters occur in it. */
  lemma SameCharactersSameRequests(a: string, b: string, f: RegexFlag)
    requires forall c :: c in a <==> c in b
    ensures Requested(a, f) <==> Requested(b, f)
  {
    RequestedIff(a, f);
    RequestedIff(b, f);
    if Requested(a, f) {
      var k :| 0 <= k < |a| && Selects(a[k], f);
      assert a[k] in b;
      var j :| 0 <= j < |b| && b[j] == a[k];
    }
    if Requested(b, f) {
      var k :| 0 <= k < |b| && Selects(b[k], f);
      assert b[k] in a;
      var j :| 0 <= j < |a| && a[j] == b[k];
    }
  }

  /** Two flag strings that request the same flags select the same flags of
      any order. */
  lemma {:induction false} SelectedInSameRequests(order: seq<RegexFlag>, a: string, b: string)
    requires forall f :: Requested(a, f) <==> Requested(b, f)
    ensures SelectedIn(order, a) == SelectedIn(order, b)
    decreases |order|
  {
    if order != [] {
      SelectedInSameRequests(order[..|order| - 1], a, b);
    }
  }

  /** Reordering, repeating or dropping repeated characters of `flags`
      changes neither the options nor the descriptor list. */
  lemma FlagsOrderIndependent(a: string, b: string)
    requires forall c :: c in a <==> c in b
    ensures RequestedOptions(a) == RequestedOptions(b)
    ensures Descriptors(a) == Descriptors(b)
  {
    forall f
      ensures Requested(a, f) <==> Requested(b, f)
    {
      SameCharactersSameRequests(a, b, f);
    }
    SelectedInSameRequests(FlagOrder, a, b);
  }

  /** A character of `flags` that is no flag letter in either case (and not
      U+0130) is ignored. */
  lemma UnrecognizedCharacterIgnored(flags: string, c: char)
    requires forall f :: !Selects(c, f)
    ensures RequestedOptions(flags + [c]) == RequestedOptions(flags)
    ensures Descriptors(flags + [c]) == Descriptors(flags)
  {
    forall f
      ensures Requested(flags + [c], f) <==> Requested(flags, f)
    {
      RequestedIff(flags + [c], f);
      RequestedIff(flags, f);
      if Requested(flags + [c], f) {
        var k :| 0 <= k < |flags + [c]| && Selects((flags + [c])[k], f);
        assert k < |flags| && (flags + [c])[k] == flags[k];
      }
      if Requested(flags, f) {
        var k :| 0 <= k < |flags| && Selects(flags[k], f);
        assert (flags + [c])[k] == flags[k];
      }
    }
    SelectedInSameRequests(FlagOrder, flags + [c], flags);
  }

  /** ASCII upper-casing of one character: not part of the validator, which
      only lower-cases, but a helper for stating that the flag letters are
      tested case-insensitively. */
  function UpperChar(c: char): (u: char)
    ensures 'a' <= c <= 'z' ==> 'A' <= u <= 'Z' && u as int == c as int - 32
    ensures !('a' <= c <= 'z') ==> u == c
  {
    if 'a' <= c <= 'z' then (c as int - 32) as char else c
  }

  /** ASCII upper-casing of a string, character by character. */
  function Upper(s: string): (u: string)
    ensures |u| == |s|
    ensures forall k :: 0 <= k < |s| ==> u[k] == UpperChar(s[k])
  {
    if s == [] then [] else [UpperChar(s[0])] + Upper(s[1..])
  }

  /** Lower-casing undoes ASCII upper-casing. */
  lemma {:induction false} LowerOfUpper(s: string)
    ensures Lower(Upper(s)) == Lower(s)
    decreases |s|
  {
    if s != [] {
      LowerOfUpper(s[1..]);
      assert Upper(s)[1..] == Upper(s[1..]);
      assert LowerChar(UpperChar(s[0])) == LowerChar(s[0]);
    }
  }

  /** The letters are tested case-insensitively: writing `flags` in capital
      letters selects the same options and gives the same descriptors. */
  lemma FlagsCaseInsensitive(flags: string)
    ensures RequestedOptions(Upper(flags)) == RequestedOptions(flags)
    ensures Descriptors(Upper(flags)) == Descriptors(flags)
  {
    LowerOfUpper(flags);
    SelectedInSameRequests(FlagOrder, Upper(flags), flags);
  }

  /** An empty flag string, and one without a flag letter, select nothing. */
  lemma NoFlagExamples()
    ensures Descriptors("") == []
    ensures Descriptors("q") == []
  {
    DescriptorsUnfolded("");
    assert Lower("q") == "q";
    DescriptorsUnfolded("q");
  }

  /** "i" and "I" both select the case-insensitive flag alone. */
  lemma CaseInsensitiveExamples()
    ensures Descriptors("i") == ["case-insensitive"]
    ensures Descriptors("I") == ["case-insensitive"]
  {
    assert Lower("i") == "i";
    DescriptorsUnfolded("i");
    assert Lower("I") == "i";
    DescriptorsUnfolded("I");
  }

  /** Letters out of order and in mixed case give the descriptors in the
      fixed order. */
  lemma MixedFlagsExample()
    ensures Descriptors("xmI") == ["case-insensitive", "multiline", "verbose"]
  {
    assert ["case-insensitive"] + ["multiline"] + [] + ["verbose"] + []
           == ["case-insensitive", "multiline", "verbose"];
    var flags := "xmI";
    assert Lower(flags) == "xmi";
    DescriptorsUnfolded(flags);
    assert When(flags, IgnoreCase) == ["case-insensitive"];
    assert When(flags, Multiline) == ["multiline"];
    assert When(flags, DotAll) == [];
    assert When(flags, Verbose) == ["verbose"];
    assert When(flags, Ascii) == [];
  }

  /** Every flag, in a string using every letter twice. */
  lemma AllFlagsExample()
    ensures Descriptors("asxmiASXMI") == ["case-insensitive", "multiline", "dotall", "verbose", "ASCII-only"]
  {
    assert ["case-insensitive"] + ["multiline"] + ["dotall"] + ["verbose"] + ["ASCII-only"]
           == ["case-insensitive", "multiline", "dotall", "verbose", "ASCII-only"];
    var flags := "asxmiASXMI";
    assert Lower(flags) == "asxmiasxmi";
    assert Requested(flags, IgnoreCase) && Requested(flags, Multiline) && Requested(flags, DotAll)
           && Requested(flags, Verbose) && Requested(flags, Ascii);
    DescriptorsUnfolded(flags);
    assert When(flags, IgnoreCase) == ["case-insensitive"];
    assert When(flags, Multiline) == ["multiline"];
    assert When(flags, DotAll) == ["dotall"];
    assert When(flags, Verbose) == ["verbose"];
    assert When(flags, Ascii) == ["ASCII-only"];
  }

  /** What compiling `pattern` and searching `text` with it gives: the text
      of the first match, no match, a `re.error` raised while compiling, or
      any other exception. */
  datatype SearchOutcome =
    | Match(group0: string)
    | NoMatch
    | CompileError(error: string)
    | OtherError(cause: string)

  /** The dictionary of validate_regex; the `match` key is present only when
      `matched` is `Some`. */
  datatype RegexResult = RegexResult(valid: bool, input: string, pattern: string, message: string, matched: Option<string>)

  const MatchedPrefix := "Pattern matched"
  const NoMatchMessage := "Pattern did not match"
  const CompileErrorPrefix := "Invalid regex pattern: "
  const OtherErrorPrefix := "Error: "

  /** `sep.join(parts)` */
  function Join(parts: seq<string>, sep: string): (r: string)
    ensures parts == [] ==> r == ""
    ensures |parts| == 1 ==> r == parts[0]
    ensures |parts| >= 1 ==> |r| >= |parts[0]| && r[..|parts[0]|] == parts[0]
    decreases |parts|
  {
    if parts == [] then ""
    else if |parts| == 1 then parts[0]
    else parts[0] + sep + Join(parts[1..], sep)
  }

  /** Joining one more part appends the separator and that part. */
  lemma {:induction false} JoinSnoc(parts: seq<string>, p: string, sep: string)
    requires parts != []
    ensures Join(parts + [p], sep) == Join(parts, sep) + sep + p
    decreases |parts|
  {
    var longer := parts + [p];
    assert longer[0] == parts[0];
    if |parts| == 1 {
      assert longer[1..] == [p];
    } else {
      assert longer[1..] == parts[1..] + [p];
      JoinSnoc(parts[1..], p, sep);
      assert Join(longer, sep) == parts[0] + sep + (Join(parts[1..], sep) + sep + p);
    }
  }

  /** The message of a match: "Pattern matched", followed by the
      descriptors, comma-separated in parentheses, only when there are any. */
  function MatchedMessage(descriptions: seq<string>): (m: string)
    ensures |m| >= |MatchedPrefix| && m[..|MatchedPrefix|] == MatchedPrefix
    ensures m == MatchedPrefix <==> descriptions == []
    ensures descriptions != [] ==>
              && |m| > |MatchedPrefix| + 2 && m[|MatchedPrefix|..|MatchedPrefix| + 2] == " (" && m[|m| - 1] == ')'
              && m[|MatchedPrefix| + 2..|m| - 1] == Join(descriptions, ", ")
  {
    var note := if descriptions != [] then " (" + Join(descriptions, ", ") + ")" else "";
    var m := MatchedPrefix + note;
    assert m[..|MatchedPrefix|] == MatchedPrefix;
    assert descriptions != [] ==> m[|MatchedPrefix|..|MatchedPrefix| + 2] == note[..2] == " (";
    assert descriptions != [] ==> m[|MatchedPrefix| + 2..|m| - 1] == note[2..|note| - 1] == Join(descriptions, ", ");
    m
  }

  /** The result for each outcome of the engine. The input and the pattern
      are echoed on every path; the result is valid exactly when the engine
      found a match, and exactly then it carries the match. A match is valid
      even when the matched text is empty. */
  function Report(text: string, pattern: string, descriptions: seq<string>, outcome: SearchOutcome): (r: RegexResult)
    ensures r.input == text && r.pattern == pattern
    ensures r.valid <==> outcome.Match?
    ensures r.valid <==> r.matched.Some?
    ensures outcome.Match? ==> r.matched == Some(outcome.group0) && r.message == MatchedMessage(descriptions)
    ensures outcome.NoMatch? ==> r.message == NoMatchMessage
    ensures outcome.CompileError? ==> r.message == CompileErrorPrefix + outcome.error
    ensures outcome.OtherError? ==> r.message == OtherErrorPrefix + outcome.cause
  {
    match outcome
    case Match(group0) => RegexResult(true, text, pattern, MatchedMessage(descriptions), Some(group0))
    case NoMatch => RegexResult(false, text, pattern, NoMatchMessage, None)
    case CompileError(error) => RegexResult(false, text, pattern, CompileErrorPrefix + error, None)
    case OtherError(cause) => RegexResult(false, text, pattern, OtherErrorPrefix + cause, None)
  }

  /** validate_regex: decodes the flags, has the engine compile `pattern`
      with the requested options and search `text`, and reports the outcome
      with the descriptors of the requested flags. */
  method ValidateRegex(text: string, pattern: string, flags: string,
                       search: (string, set<RegexFlag>, string) -> SearchOutcome)
    returns (r: RegexResult)
    ensures r == Report(text, pattern, Descriptors(flags), search(pattern, RequestedOptions(flags), text))
    ensures r.valid <==> search(pattern, RequestedOptions(flags), text).Match?
    ensures r.valid ==> r.message == MatchedMessage(Descriptors(flags))
  {
    var options, descriptions := ParseFlags(flags);
    assert options == RequestedOptions(flags);
    var outcome := search(pattern, options, text);
    r := Report(text, pattern, descriptions, outcome);
  }

  /** The message alone tells which outcome the engine had. */
  lemma RegexMessageIdentifiesOutcome(text: string, pattern: string, descriptions: seq<string>, outcome: SearchOutcome)
    ensures var m := Report(text, pattern, descriptions, outcome).message;
            && (outcome.Match? <==> |m| >= |MatchedPrefix| && m[..|MatchedPrefix|] == MatchedPrefix)
            && (outcome.NoMatch? <==> m == NoMatchMessage)
            && (outcome.CompileError? <==> |m| >= |CompileErrorPrefix| && m[..|CompileErrorPrefix|] == CompileErrorPrefix)
            && (outcome.OtherError? <==> |m| >= |OtherErrorPrefix| && m[..|OtherErrorPrefix|] == OtherErrorPrefix)
  {
    var m := Report(text, pattern, descriptions, outcome).message;
    match outcome
    case Match(_) =>
      assert m[8] == 'm' && m[0] == 'P';
    case NoMatch =>
      assert m[8] == 'd' && m[0] == 'P';
    case CompileError(e) =>
      assert m[..|CompileErrorPrefix|] == CompileErrorPrefix;
      assert m[0] == 'I';
    case OtherError(c) =>
      assert m[..|OtherErrorPrefix|] == OtherErrorPrefix;
      assert m[0] == 'E';
  }

  /** The documentation's example: "HELLO" with flag "i" matches "hello". */
  lemma RegexDocExample()
    ensures Report("hello", "HELLO", Descriptors("i"), Match("hello"))
            == RegexResult(true, "hello", "HELLO", "Pattern matched (case-insensitive)", Some("hello"))
  {
    assert "Pattern matched" + " (" + "case-insensitive" + ")" == "Pattern matched (case-insensitive)";
    CaseInsensitiveExamples();
    var d := Descriptors("i");
    assert Join(d, ", ") == "case-insensitive";
    assert MatchedMessage(d) == "Pattern matched" + " (" + "case-insensitive" + ")";
  }

  /** The documentation's example without flags, where the message is
      bare; an empty match still counts as a match; and a failed search. */
  lemma RegexPlainExamples()
    ensures Report("Hello123", "\\d+", Descriptors(""), Match("123"))
            == RegexResult(true, "Hello123", "\\d+", "Pattern matched", Some("123"))
    ensures Report("abc", "x*", Descriptors(""), Match("")) == RegexResult(true, "abc", "x*", "Pattern matched", Some(""))
    ensures Report("abc", "z", Descriptors("i"), NoMatch) == RegexResult(false, "abc", "z", "Pattern did not match", None)
  {
    NoFlagExamples();
    CaseInsensitiveExamples();
  }

  /** Several descriptors are joined by ", ". */
  lemma MatchedMessageExample()
    ensures MatchedMessage(Descriptors("xmI")) == "Pattern matched (case-insensitive, multiline, verbose)"
  {
    MixedFlagsExample();
    ThreeDescriptorsJoined();
    assert MatchedMessage(Descriptors("xmI"))
           == "Pattern matched" + " (" + "case-insensitive, multiline, verbose" + ")";
    ThreeFlagNoteSpelled();
  }

  /** The message of the three descriptors, spelled out. */
  lemma ThreeFlagNoteSpelled()
    ensures "Pattern matched" + " (" + "case-insensitive, multiline, verbose" + ")"
            == "Pattern matched (case-insensitive, multiline, verbose)"
  {
  }

  /** ", ".join of three descriptors. */
  lemma ThreeDescriptorsJoined()
    ensures Join(["case-insensitive", "multiline", "verbose"], ", ") == "case-insensitive, multiline, verbose"
  {
    assert "multiline" + ", " + "verbose" == "multiline, verbose";
    assert "case-insensitive" + ", " + "multiline, verbose" == "case-insensitive, multiline, verbose";
    var d: seq<string> := ["case-insensitive", "multiline", "verbose"];
    assert d[1..] == ["multiline", "verbose"];
    assert d[1..][1..] == ["verbose"];
    assert Join(d[1..], ", ") == "multiline" + ", " + "verbose";
    assert Join(d, ", ") == "case-insensitive" + ", " + "multiline, verbose";
  }

}
