/** The option-line classifier of the question parser and the helpers that
    strip and re-add the letter prefix of an option ("A: text"). */
module Options {
  import opened Text

  /** VALID_OPTIONS: the letters an option may carry, in order. */
  const ValidOptions: string := "ABCDEF"

  /** Membership in VALID_OPTIONS is the range A-F. */
  lemma {:induction false} InValidOptions(c: char)
    ensures c in ValidOptions <==> 'A' <= c <= 'F'
  {
    assert ValidOptions == ['A', 'B', 'C', 'D', 'E', 'F'];
    if 'A' <= c <= 'F' {
      assert c == ValidOptions[c as int - 'A' as int];
    }
  }

  /** Letters in strictly ascending order: sorted and without repeats. */
  predicate StrictlyIncreasing(s: seq<char>)
  {
    forall i, j :: 0 <= i < j < |s| ==> s[i] < s[j]
  }

  /** VALID_OPTIONS is sorted, and its members are the range A-F. */
  lemma {:induction false} ValidOptionsFacts()
    ensures StrictlyIncreasing(ValidOptions)
    ensures forall c :: c in ValidOptions <==> 'A' <= c <= 'F'
  {
    forall c ensures c in ValidOptions <==> 'A' <= c <= 'F' {
      InValidOptions(c);
    }
  }

  /** `c.upper() in VALID_OPTIONS` (see InValidOptions). */
  predicate IsOptionLetter(c: char)
  {
    'A' <= UpperChar(c) <= 'F'
  }

  /** The regex class [a-zA-Z]. */
  predicate IsAsciiLetter(c: char)
  {
    'a' <= c <= 'z' || 'A' <= c <= 'Z'
  }

  /** One of the separators ":", "." and ")". */
  predicate IsSeparator(c: char)
  {
    c == ':' || c == '.' || c == ')'
  }

  /** An option letter is exactly one of a-f or A-F. */
  lemma {:induction false} OptionLetterIff(c: char)
    ensures IsOptionLetter(c) <==> UpperChar(c) in ValidOptions
    ensures IsOptionLetter(c) <==> ('a' <= c <= 'f' || 'A' <= c <= 'F')
  {
    InValidOptions(UpperChar(c));
  }

  /** re.sub(r'^[a-zA-Z][.:\)]\s*', '', t). */
  function DropLetterAndSeparator(t: string): string
  {
    if |t| >= 2 && IsAsciiLetter(t[0]) && IsSeparator(t[1]) then StripLeft(t[2..]) else t
  }

  /** re.sub(r'^\([a-zA-Z]\)\s*', '', t). */
  function DropParenthesisedLetter(t: string): string
  {
    if |t| >= 3 && t[0] == '(' && IsAsciiLetter(t[1]) && t[2] == ')' then StripLeft(t[3..]) else t
  }

  /** is_valid_option_format: whether a (trimmed) line is an option line.
      The parenthesised branch is kept as quiz_app1.py has it, although the
      first test already demands an option letter in front, never "(". */
  function IsValidOptionFormat(text: string): bool
  {
    if |text| < 2 || !IsOptionLetter(text[0]) then false
    else
      var isValidSeparator := IsSeparator(text[1]);
      var isValidParenthesis :=
        StartsWith(text, "(") && |text| >= 3 && text[2] == ')' && IsOptionLetter(text[1]);
      var contentAfterPrefix :=
        if isValidSeparator then Strip(DropLetterAndSeparator(text))
        else if isValidParenthesis then Strip(DropParenthesisedLetter(text))
        else "";
      contentAfterPrefix != ""
  }

  /** What an option line is: a letter A-F (either case), a separator, and
      something other than whitespace after them. */
  predicate OptionShape(t: string)
  {
    |t| >= 2 && IsOptionLetter(t[0]) && IsSeparator(t[1]) && Strip(t[2..]) != ""
  }

  /** is_valid_option_format accepts exactly the lines of OptionShape. */
  lemma {:induction false} OptionFormatIff(t: string)
    ensures IsValidOptionFormat(t) <==> OptionShape(t)
  {
    if |t| >= 2 && IsOptionLetter(t[0]) {
      if IsSeparator(t[1]) {
        assert DropLetterAndSeparator(t) == StripLeft(t[2..]);
        StripAfterStripLeft(t[2..]);
      } else if StartsWith(t, "(") {
        NoOptionLetterOpensWithParenthesis(t);
      }
    }
  }

  /** A string that starts with "(" does not start with an option letter. */
  lemma {:induction false} NoOptionLetterOpensWithParenthesis(t: string)
    requires StartsWith(t, "(")
    ensures !IsOptionLetter(t[0])
  {
    assert t[0] == t[..1][0];
  }

  /** A line that opens with "(" is never an option line, so "(A) text"
      is question text. */
  lemma {:induction false} ParenthesisedLineIsNotOption(t: string)
    requires StartsWith(t, "(")
    ensures !IsValidOptionFormat(t)
  {
    NoOptionLetterOpensWithParenthesis(t);
  }

  /** "[\.:\)]?": one optional separator. */
  function DropOptionalSeparator(t: string): string
  {
    if |t| > 0 && IsSeparator(t[0]) then t[1..] else t
  }

  /** get_raw_option_text: removes the prefix matched by
      r'^\s*[\(]?[a-zA-Z][\.:\)]?\s*' and strips the rest; a string the
      pattern does not match is only stripped. The result has no
      surrounding whitespace. */
  function GetRawOptionText(optionText: string): (r: string)
    ensures IsTrimmed(r)
  {
    var rest := StripLeft(optionText);
    if |rest| >= 2 && rest[0] == '(' && IsAsciiLetter(rest[1]) then
      Strip(DropOptionalSeparator(rest[2..]))
    else if |rest| >= 1 && IsAsciiLetter(rest[0]) then
      Strip(DropOptionalSeparator(rest[1..]))
    else
      Strip(optionText)
  }

  /** A letter and a separator in front are what get_raw_option_text
      removes, together with the whitespace after them. */
  lemma {:induction false} RawTextAfterLetterAndSeparator(t: string)
    requires |t| >= 2 && IsAsciiLetter(t[0]) && IsSeparator(t[1])
    ensures GetRawOptionText(t) == Strip(t[2..])
  {
    assert StripLeft(t) == t by {
      assert !IsSpace(t[0]);
    }
    assert DropOptionalSeparator(t[1..]) == t[2..];
  }

  /** The raw text of an option line is all that follows its letter and
      separator, trimmed, and it is never empty: the parser stores no empty
      option and cuts nothing out of the middle of one. */
  lemma {:induction false} RawTextOfOptionLine(t: string)
    requires IsValidOptionFormat(t)
    ensures GetRawOptionText(t) == Strip(t[2..])
    ensures GetRawOptionText(t) != ""
  {
    OptionFormatIff(t);
    RawTextAfterLetterAndSeparator(t);
  }

  /** f"{prefix}: {raw_text}", the string saved for a chosen option. */
  function WithPrefix(letter: char, text: string): string
  {
    [letter] + ": " + text
  }

  /** Removing a prefix that was just added gives back the trimmed text:
      this is how a saved answer is mapped back to its option. */
  lemma {:induction false} PrefixRoundTrip(letter: char, text: string)
    requires IsAsciiLetter(letter) && IsTrimmed(text)
    ensures GetRawOptionText(WithPrefix(letter, text)) == text
  {
    var s := WithPrefix(letter, text);
    PrefixShape(letter, text);
    RawTextAfterLetterAndSeparator(s);
    SpaceBeforeTrimmed(text);
  }

  /** The saved form of an option is its letter, ':' and a space in front
      of the text. */
  lemma {:induction false} PrefixShape(letter: char, text: string)
    requires IsAsciiLetter(letter)
    ensures var s := WithPrefix(letter, text);
      |s| >= 2 && IsAsciiLetter(s[0]) && IsSeparator(s[1]) && s[2..] == " " + text
  {
  }

  /** One space in front of a trimmed string is what Strip removes. */
  lemma {:induction false} SpaceBeforeTrimmed(text: string)
    requires IsTrimmed(text)
    ensures Strip(" " + text) == text
  {
    assert IsBlank(" ");
    StripSkipsLeadingSpace(" ", text);
    TrimmedFixed(text);
  }

  /** add_option_prefixes: the first six texts get "A: " .. "F: " in
      front, later ones are kept as they are. */
  method AddOptionPrefixes(rawOptionTexts: seq<string>) returns (prefixedOptions: seq<string>)
    ensures |prefixedOptions| == |rawOptionTexts|
    ensures forall i :: 0 <= i < |rawOptionTexts| && i < |ValidOptions| ==>
      prefixedOptions[i] == WithPrefix(ValidOptions[i], rawOptionTexts[i])
    ensures forall i :: |ValidOptions| <= i < |rawOptionTexts| ==> prefixedOptions[i] == rawOptionTexts[i]
    ensures forall i :: 0 <= i < |rawOptionTexts| && i < |ValidOptions| && IsTrimmed(rawOptionTexts[i]) ==>
      GetRawOptionText(prefixedOptions[i]) == rawOptionTexts[i]
  {
    prefixedOptions := [];
    for i := 0 to |rawOptionTexts|
      invariant |prefixedOptions| == i
      invariant forall k :: 0 <= k < i && k < |ValidOptions| ==>
        prefixedOptions[k] == WithPrefix(ValidOptions[k], rawOptionTexts[k])
      invariant forall k :: |ValidOptions| <= k < i ==> prefixedOptions[k] == rawOptionTexts[k]
    {
      if i < |ValidOptions| {
        var prefix := ValidOptions[i];
        prefixedOptions := prefixedOptions + [WithPrefix(prefix, rawOptionTexts[i])];
      } else {
        prefixedOptions := prefixedOptions + [rawOptionTexts[i]];
      }
    }
    forall i | 0 <= i < |rawOptionTexts| && i < |ValidOptions| && IsTrimmed(rawOptionTexts[i])
      ensures GetRawOptionText(prefixedOptions[i]) == rawOptionTexts[i]
    {
      InValidOptions(ValidOptions[i]);
      PrefixRoundTrip(ValidOptions[i], rawOptionTexts[i]);
    }
  }
}
