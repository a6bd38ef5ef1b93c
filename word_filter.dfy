/** The word filter: an ordered chain of early-exit rules that turns one token
    candidate into a normalized word or rejects it.  Characters are Unicode
    scalar values, as in a Rust `&str`; all the rules themselves are ASCII. */
module WordFilter {

  /** The rule of the chain that turned a token down, in the order the chain
      tries them. */
  datatype Rule = TooShort | NotAlphabetic | InnerUppercase | NoVowel | RomanNumeral

  /** The outcome of filtering one token: the normalized word, or the rule
      that rejected it (a silent `continue` in the source). */
  datatype Verdict = Accept(word: string) | Reject(rule: Rule)

  /** The fourteen punctuation and bracket characters trimmed from both ends. */
  predicate IsTrimChar(c: char)
  {
    c in {'\'', '"', '-', '&', '.', ',', ';', ':', ')', '(', ']', '[', '}', '{'}
  }

  predicate IsVowel(c: char) { c in {'a', 'e', 'i', 'o', 'u'} }

  /** The letters of roman numerals. */
  predicate IsRomanLetter(c: char) { c in {'i', 'v', 'x', 'l', 'c', 'd', 'm'} }

  predicate IsAsciiAlphabetic(c: char) { 'A' <= c <= 'Z' || 'a' <= c <= 'z' }

  predicate IsAsciiUppercase(c: char) { 'A' <= c <= 'Z' }

  predicate IsAsciiLowercase(c: char) { 'a' <= c <= 'z' }

  function ToAsciiLower(c: char): char
  {
    if IsAsciiUppercase(c) then (c as int + 32) as char else c
  }

  function ToAsciiUpper(c: char): char
  {
    if IsAsciiLowercase(c) then (c as int - 32) as char else c
  }

  /** `str::to_ascii_lowercase`: ASCII capitals become small letters, every
      other character is kept. */
  function ToAsciiLowercase(s: string): (r: string)
    ensures |r| == |s|
    ensures forall k :: 0 <= k < |s| ==>
      && !IsAsciiUppercase(r[k])
      && ToAsciiUpper(r[k]) == ToAsciiUpper(s[k])
      && (IsAsciiUppercase(s[k]) || r[k] == s[k])
  {
    seq(|s|, i requires 0 <= i < |s| => ToAsciiLower(s[i]))
  }

  /** Bytes needed to encode `c` in UTF-8. */
  function Utf8Width(c: char): nat
  {
    if c as int < 0x80 then 1
    else if c as int < 0x800 then 2
    else if c as int < 0x1_0000 then 3
    else 4
  }

  /** `str::len`: the length of the UTF-8 encoding in bytes. */
  function Utf8Len(s: string): (n: nat)
    ensures n >= |s|
    ensures (forall k :: 0 <= k < |s| ==> s[k] as int < 0x80) ==> n == |s|
  {
    if s == [] then 0 else Utf8Width(s[0]) + Utf8Len(s[1..])
  }

  /** Drops trim characters from the front. */
  function TrimStart(s: string): string
    decreases |s|
  {
    if s != [] && IsTrimChar(s[0]) then TrimStart(s[1..]) else s
  }

  /** Drops trim characters from the back. */
  function TrimEnd(s: string): string
    decreases |s|
  {
    if s != [] && IsTrimChar(s[|s| - 1]) then TrimEnd(s[..|s| - 1]) else s
  }

  /** TrimStart removes a prefix made of trim characters only, and stops at
      the first character that is not one. */
  lemma {:induction false} TrimStartSpec(s: string)
    ensures var t := TrimStart(s);
      && |t| <= |s| && t == s[|s| - |t|..]
      && (forall k :: 0 <= k < |s| - |t| ==> IsTrimChar(s[k]))
      && (t == [] || !IsTrimChar(t[0]))
    decreases |s|
  {
    if s != [] && IsTrimChar(s[0]) {
      TrimStartSpec(s[1..]);
    }
  }

  /** TrimEnd removes a suffix made of trim characters only, and stops at
      the last character that is not one. */
  lemma {:induction false} TrimEndSpec(s: string)
    ensures var t := TrimEnd(s);
      && |t| <= |s| && t == s[..|t|]
      && (forall k :: |t| <= k < |s| ==> IsTrimChar(s[k]))
      && (t == [] || !IsTrimChar(t[|t| - 1]))
    decreases |s|
  {
    if s != [] && IsTrimChar(s[|s| - 1]) {
      TrimEndSpec(s[..|s| - 1]);
    }
  }

  /** `str::trim_matches` with the trim characters as pattern. */
  function Trim(s: string): string
  {
    TrimEnd(TrimStart(s))
  }

  /** `s[i..j]` is what is left of `s` once every trim character at either
      end is gone: everything outside it is a trim character, and its own
      first and last characters are not. */
  ghost predicate TrimBounds(s: string, i: int, j: int)
  {
    && 0 <= i <= j <= |s|
    && (forall k :: 0 <= k < i ==> IsTrimChar(s[k]))
    && (forall k :: j <= k < |s| ==> IsTrimChar(s[k]))
    && (i < j ==> !IsTrimChar(s[i]) && !IsTrimChar(s[j - 1]))
  }

  /** The infix Trim returns starts where TrimStart stopped. */
  lemma TrimBoundsOfTrim(s: string)
    ensures var i := |s| - |TrimStart(s)|;
      TrimBounds(s, i, i + |Trim(s)|) && Trim(s) == s[i..i + |Trim(s)|]
  {
    var front := TrimStart(s);
    TrimStartSpec(s);
    TrimEndSpec(front);
    var i := |s| - |front|;
    var j := i + |Trim(s)|;
    assert Trim(s) == front[..|Trim(s)|] == s[i..j];
    forall k | j <= k < |s|
      ensures IsTrimChar(s[k])
    {
      assert s[k] == front[k - i];
    }
  }

  /** At most one infix fits TrimBounds. */
  lemma TrimBoundsUnique(s: string, i: int, j: int, i': int, j': int)
    requires TrimBounds(s, i, j) && TrimBounds(s, i', j')
    ensures s[i..j] == s[i'..j']
  {
  }

  /** Trim removes trim characters, and only at the two ends: its result is
      a contiguous infix of the token described by TrimBounds. */
  lemma TrimIsInfix(s: string)
    ensures exists i, j :: TrimBounds(s, i, j) && Trim(s) == s[i..j]
  {
    TrimBoundsOfTrim(s);
  }

  /** Every infix that TrimBounds describes is the result of Trim. */
  lemma TrimInfixUnique(s: string)
    ensures forall i, j :: TrimBounds(s, i, j) ==> s[i..j] == Trim(s)
  {
    TrimBoundsOfTrim(s);
    var i := |s| - |TrimStart(s)|;
    var j := i + |Trim(s)|;
    forall i', j' | TrimBounds(s, i', j')
      ensures s[i'..j'] == Trim(s)
    {
      TrimBoundsUnique(s, i, j, i', j');
    }
  }

  /** Trimming twice changes nothing. */
  lemma TrimIdempotent(s: string)
    ensures Trim(Trim(s)) == Trim(s)
  {
    var t := Trim(s);
    TrimIsInfix(s);
    var i, j :| TrimBounds(s, i, j) && t == s[i..j];
    assert TrimBounds(t, 0, |t|);
    TrimInfixUnique(t);
    assert t[0..|t|] == t;
  }

  predicate AllAlphabetic(s: string)
  {
    forall k :: 0 <= k < |s| ==> IsAsciiAlphabetic(s[k])
  }

  predicate HasUppercaseAfterFirst(s: string)
  {
    exists k :: 1 <= k < |s| && IsAsciiUppercase(s[k])
  }

  predicate HasVowel(s: string)
  {
    exists k :: 0 <= k < |s| && IsVowel(s[k])
  }

  predicate AllRomanLetters(s: string)
  {
    forall k :: 0 <= k < |s| ==> IsRomanLetter(s[k])
  }

  /** What every counted word satisfies: at least two
      characters, all of them small ASCII letters, at least one vowel, and
      not spelled with roman-numeral letters alone. */
  ghost predicate NormalizedWord(w: string)
  {
    && |w| >= 2
    && (forall k :: 0 <= k < |w| ==> IsAsciiLowercase(w[k]))
    && HasVowel(w)
    && !AllRomanLetters(w)
  }

  lemma AsciiLetterLength(s: string)
    requires AllAlphabetic(s)
    ensures Utf8Len(s) == |s|
  {
  }

  /** The filter chain, rule by rule in the source's order. */
  function Filter(token: string): (v: Verdict)
    ensures v.Accept? ==> NormalizedWord(v.word)
  {
    var word := Trim(token);
    if Utf8Len(word) < 2 then Reject(TooShort)
    else if !AllAlphabetic(word) then Reject(NotAlphabetic)
    else if HasUppercaseAfterFirst(word) then Reject(InnerUppercase)
    else
      var lower := ToAsciiLowercase(word);
      if !HasVowel(lower) then Reject(NoVowel)
      else if AllRomanLetters(lower) then Reject(RomanNumeral)
      else AsciiLetterLength(word); Accept(lower)
  }

  /** A token made of letters only and no trim character is its own trim. */
  lemma TrimOfLetters(s: string)
    requires AllAlphabetic(s)
    ensures Trim(s) == s
  {
  }

  /** A token that neither starts nor ends with a trim character is its own
      trim. */
  lemma UntrimmedToken(s: string)
    requires |s| > 0 && !IsTrimChar(s[0]) && !IsTrimChar(s[|s| - 1])
    ensures Trim(s) == s
  {
  }

  /** The words the filter returns unchanged are exactly the normalized
      words. */
  lemma FilterFixedPoint(w: string)
    ensures Filter(w) == Accept(w) <==> NormalizedWord(w)
  {
    if NormalizedWord(w) {
      assert AllAlphabetic(w);
      TrimOfLetters(w);
      AsciiLetterLength(w);
      assert !HasUppercaseAfterFirst(w);
      assert ToAsciiLowercase(w) == w;
    }
  }

  /** Filtering an accepted word again accepts it as it is. */
  lemma FilterIdempotent(token: string)
    requires Filter(token).Accept?
    ensures Filter(Filter(token).word) == Filter(token)
  {
    FilterFixedPoint(Filter(token).word);
  }

  /** An accepted word is the lowercase form of the token with only trim
      characters removed from its two ends. */
  lemma AcceptedIsLoweredInfix(token: string)
    requires Filter(token).Accept?
    ensures exists i, j :: TrimBounds(token, i, j) && Filter(token).word == ToAsciiLowercase(token[i..j])
  {
    TrimIsInfix(token);
  }

  /** A token shorter than two characters once trimmed is rejected. */
  lemma ShortTokenRejected(token: string)
    requires |Trim(token)| < 2
    ensures Filter(token).Reject?
  {
  }

  /** A token that still holds a character other than an ASCII letter once
      trimmed is rejected. */
  lemma NonAlphabeticRejected(token: string, k: nat)
    requires k < |Trim(token)| && !IsAsciiAlphabetic(Trim(token)[k])
    ensures Filter(token).Reject?
  {
  }

  /** A token with a capital letter past its first character is rejected. */
  lemma InnerUppercaseRejected(token: string, k: nat)
    requires 1 <= k < |Trim(token)| && IsAsciiUppercase(Trim(token)[k])
    ensures Filter(token).Reject?
  {
  }

  /** The acceptance half of the chain: a token is accepted exactly when its
      trimmed form is made of ASCII letters, has no capital past its first
      character, and lowercases to a normalized word; the word accepted is
      that lowercase form. */
  lemma FilterAccepts(token: string)
    ensures Filter(token).Accept? <==>
      && AllAlphabetic(Trim(token))
      && !HasUppercaseAfterFirst(Trim(token))
      && NormalizedWord(ToAsciiLowercase(Trim(token)))
    ensures Filter(token).Accept? ==> Filter(token).word == ToAsciiLowercase(Trim(token))
  {
    if AllAlphabetic(Trim(token)) {
      AsciiLetterLength(Trim(token));
    }
  }

  /** A normalized word with its first letter capitalized is accepted as the
      word itself. */
  lemma CapitalizedAccepted(w: string)
    requires NormalizedWord(w)
    ensures Filter([ToAsciiUpper(w[0])] + w[1..]) == Accept(w)
  {
    var token := [ToAsciiUpper(w[0])] + w[1..];
    assert AllAlphabetic(token);
    TrimOfLetters(token);
    AsciiLetterLength(token);
    assert !HasUppercaseAfterFirst(token);
    assert ToAsciiLowercase(token) == w;
  }

  /** A carriage return left at the end of a line (CRLF input) is not
      trimmed, so the last token of such a line is always rejected. */
  lemma CarriageReturnRejected(token: string)
    requires |token| > 0 && token[|token| - 1] == '\r'
    ensures Filter(token).Reject?
  {
    TrimIsInfix(token);
    var i, j :| TrimBounds(token, i, j) && Trim(token) == token[i..j];
    assert !IsTrimChar('\r');
    assert j == |token| && i < j;
    NonAlphabeticRejected(token, j - i - 1);
  }

  /** The vowel rule and the roman-numeral rule overlap in the letter `i`:
      every token the roman-numeral rule rejects contains it. */
  lemma RomanRejectionsContainI(token: string)
    requires Filter(token) == Reject(RomanNumeral)
    ensures 'i' in ToAsciiLowercase(Trim(token))
  {
  }

  /** A two-letter word with a vowel is accepted as it is. */
  lemma TwoLetterWordAccepted()
    ensures Filter("an") == Accept("an")
  {
    assert IsVowel("an"[0]) && !IsRomanLetter("an"[1]);
    FilterFixedPoint("an");
  }

  /** A capitalized word is accepted in lowercase. */
  lemma CapitalizedExample()
    ensures Filter("Apple") == Accept("apple")
  {
    assert IsVowel("apple"[0]) && !IsRomanLetter("apple"[0]);
    CapitalizedAccepted("apple");
    assert [ToAsciiUpper('a')] + "apple"[1..] == "Apple";
  }

  /** Brackets and punctuation around a word are trimmed away. */
  lemma PunctuationTrimmedExample()
    ensures Filter("(hello),") == Accept("hello")
  {
    assert TrimBounds("(hello),", 1, 6);
    TrimInfixUnique("(hello),");
    assert "(hello),"[1..6] == "hello";
    assert IsVowel("hello"[1]) && !IsRomanLetter("hello"[0]);
    FilterFixedPoint("hello");
    TrimIdempotent("(hello),");
  }

  /** The last word before a comma: the comma is trimmed and the capital
      lowered. */
  lemma TrailingCommaExample()
    ensures Filter("Hello,") == Accept("hello")
  {
    assert TrimBounds("Hello,", 0, 5);
    TrimInfixUnique("Hello,");
    assert "Hello,"[0..5] == "Hello";
    assert AllAlphabetic("Hello") && !HasUppercaseAfterFirst("Hello");
    assert ToAsciiLowercase("Hello") == "hello";
    assert IsVowel("hello"[1]) && !IsRomanLetter("hello"[0]);
    FilterAccepts("Hello,");
  }

  /** A single letter is too short. */
  lemma SingleLetterRejected()
    ensures Filter("I") == Reject(TooShort)
  {
  }

  /** An inner apostrophe survives trimming and stops the token. */
  lemma ApostropheRejected()
    ensures Filter("don't") == Reject(NotAlphabetic)
  {
  }

  /** A capital roman numeral is stopped by the inner-capital rule before the
      roman-numeral rule is reached. */
  lemma CapitalNumeralRejected()
    ensures Filter("XVI") == Reject(InnerUppercase)
  {
  }

  /** A word without a, e, i, o or u is rejected. */
  lemma NoVowelRejected()
    ensures Filter("rhythm") == Reject(NoVowel)
  {
  }

  /** A capitalized word spelled with roman-numeral letters only is
      rejected. */
  lemma RomanNumeralRejected()
    ensures Filter("Xvi") == Reject(RomanNumeral)
  {
    UntrimmedToken("Xvi");
    assert AllAlphabetic("Xvi") && ToAsciiLowercase("Xvi") == "xvi";
    assert IsVowel("xvi"[2]);
  }

  /** English words spelled with roman-numeral letters only, such as
      "civil", are rejected too. */
  lemma CivilRejected()
    ensures Filter("civil") == Reject(RomanNumeral)
  {
    UntrimmedToken("civil");
    assert AllAlphabetic("civil") && ToAsciiLowercase("civil") == "civil";
    assert IsVowel("civil"[1]);
  }
}
