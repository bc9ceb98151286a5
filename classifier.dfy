/**
 The per-line heading classifier of `PDFParser.detect_headings`: three rules tried in
 priority order (numbered, all-caps, title-case and short), the level each gives,
 and the cap of 3 applied to every level.
 */
module Classifier {
  import opened Text

  datatype Option<T> = None | Some(value: T)

  function Min(a: int, b: int): (m: int) {
    if a < b then a else b
  }

  /** The characters of `[IVX]`. */
  predicate IsRomanChar(c: char) {
    c == 'I' || c == 'V' || c == 'X'
  }

  /** `re.match(r'^(\d+\.|\d+\)|\w\.|[IVX]+\.)', line)` succeeds.
      The character after a run of `\d` or `[IVX]` is outside the run's class, so the
      delimiter can only follow the longest such run; that is the run this predicate looks at. */
  predicate IsNumbered(line: string) {
    var digits := Run(line, IsDigit);
    var numerals := Run(line, IsRomanChar);
    || (0 < digits < |line| && (line[digits] == '.' || line[digits] == ')'))
    || (|line| >= 2 && IsWordChar(line[0]) && line[1] == '.')
    || (0 < numerals < |line| && line[numerals] == '.')
  }

  /** `k` characters of class `p`, then `delimiter`, at the start of `s`. */
  ghost predicate RepeatThen(s: string, k: int, p: char -> bool, delimiter: char) {
    1 <= k < |s| && (forall i :: 0 <= i < k ==> p(s[i])) && s[k] == delimiter
  }

  /** The numbered pattern read as a regular expression with backtracking: each
      repetition `+` may stop after any number of characters, at least one. */
  ghost predicate MatchesNumberedPattern(line: string) {
    || (exists k :: RepeatThen(line, k, IsDigit, '.'))
    || (exists k :: RepeatThen(line, k, IsDigit, ')'))
    || (|line| >= 2 && IsWordChar(line[0]) && line[1] == '.')
    || (exists k :: RepeatThen(line, k, IsRomanChar, '.'))
  }

  /** A repetition followed by a delimiter outside its class can only stop at the longest run. */
  lemma RepeatThenIsRun(s: string, k: int, p: char -> bool, delimiter: char)
    requires !p(delimiter)
    ensures RepeatThen(s, k, p, delimiter) <==> (k == Run(s, p) && 0 < k < |s| && s[k] == delimiter)
  {
    RunSpec(s, p);
  }

  /** `IsNumbered` accepts exactly the lines the regular expression matches. */
  lemma IsNumberedMatchesPattern(line: string)
    ensures IsNumbered(line) <==> MatchesNumberedPattern(line)
  {
    var digits := Run(line, IsDigit);
    var numerals := Run(line, IsRomanChar);
    RepeatThenIsRun(line, digits, IsDigit, '.');
    RepeatThenIsRun(line, digits, IsDigit, ')');
    RepeatThenIsRun(line, numerals, IsRomanChar, '.');
    forall k | RepeatThen(line, k, IsDigit, '.') ensures k == digits {
      RepeatThenIsRun(line, k, IsDigit, '.');
    }
    forall k | RepeatThen(line, k, IsDigit, ')') ensures k == digits {
      RepeatThenIsRun(line, k, IsDigit, ')');
    }
    forall k | RepeatThen(line, k, IsRomanChar, '.') ensures k == numerals {
      RepeatThenIsRun(line, k, IsRomanChar, '.');
    }
  }

  /** A numbered line starts with a non-whitespace character, so it has a first word. */
  lemma NumberedHasFirstWord(line: string)
    requires IsNumbered(line)
    ensures line != [] && !IsSpace(line[0]) && Words(line) != []
  {
  }

  /** `line.split()[0]`. */
  function FirstWord(line: string): (word: string)
    requires Words(line) != []
  {
    Words(line)[0]
  }

  /** The level of a numbered line before the cap: the dots in its first word, plus one. */
  function NumberedLevel(line: string): (level: int)
    requires IsNumbered(line)
    ensures level >= 1
  {
    NumberedHasFirstWord(line);
    multiset(FirstWord(line))['.'] + 1
  }

  /** The rule chain, first match wins: a numbered line gets its numbering depth, an
      all-caps line of more than one word gets 1, a title-case line under 100 characters
      gets 2, and any other line is not a heading. */
  function RawLevel(line: string): (level: Option<int>)
    ensures level.Some? ==> level.value >= 1
  {
    var isAllCaps := IsUpper(line) && |Words(line)| > 1;
    var isNumbered := IsNumbered(line);
    var isShort := |line| < 100;
    var isTitleCase := IsTitle(line);
    if isNumbered then Some(NumberedLevel(line))
    else if isAllCaps then Some(1)
    else if isTitleCase && isShort then Some(2)
    else None
  }

  /** The level a heading line is recorded with: the rule's level capped at 3. */
  function Classify(line: string): (level: Option<int>)
    ensures level.Some? ==> 1 <= level.value <= 3
  {
    match RawLevel(line)
    case None => None
    case Some(l) => Some(Min(l, 3))
  }

  /** The dots before the first whitespace of a line. */
  function DotsBeforeSpace(line: string): (dots: nat) {
    multiset(line[..Run(line, IsNotSpace)])['.']
  }

  /** The classifier on a stripped line, stated against the regular expression, the
      position-by-position title case, and "contains whitespace" in place of "more than
      one word": the numbered rule takes precedence over the other two, the all-caps
      rule over the title-case one, and a line no rule accepts is not a heading. */
  lemma ClassifyByRules(line: string)
    requires IsStripped(line)
    ensures MatchesNumberedPattern(line) ==>
      Classify(line) == Some(Min(DotsBeforeSpace(line) + 1, 3))
    ensures (!MatchesNumberedPattern(line) && IsUpper(line) && HasSpace(line)) ==>
      Classify(line) == Some(1)
    ensures (!MatchesNumberedPattern(line) && !(IsUpper(line) && HasSpace(line))
             && TitleCased(line) && |line| < 100) ==>
      Classify(line) == Some(2)
    ensures (!MatchesNumberedPattern(line) && !(IsUpper(line) && HasSpace(line))
             && !(TitleCased(line) && |line| < 100)) ==>
      Classify(line) == None
  {
    IsNumberedMatchesPattern(line);
    IsTitleIsTitleCased(line);
    var isAllCaps := IsUpper(line) && |Words(line)| > 1;
    if line != [] {
      WordsOfStripped(line);
    } else {
      assert !IsUpper(line);
    }
    assert isAllCaps == (IsUpper(line) && HasSpace(line));
    if IsNumbered(line) {
      NumberedHasFirstWord(line);
      assert FirstWord(line) == line[..Run(line, IsNotSpace)];
      assert NumberedLevel(line) == DotsBeforeSpace(line) + 1;
      assert RawLevel(line) == Some(DotsBeforeSpace(line) + 1);
    }
  }

  /** The level of a numbered line depends only on its first word: the dots in that word,
      plus one, capped at 3, whatever follows it and whatever case it is written in. */
  lemma NumberedLineLevel(word: string, rest: string)
    requires word != [] && !HasSpace(word)
    requires rest == [] || IsSpace(rest[0])
    requires IsNumbered(word + rest)
    ensures Classify(word + rest) == Some(Min(multiset(word)['.'] + 1, 3))
  {
    var line := word + rest;
    RunSpec(line, IsNotSpace);
    var n := Run(line, IsNotSpace);
    assert forall i :: 0 <= i < |word| ==> line[i] == word[i] && IsNotSpace(line[i]);
    assert |line| > |word| ==> !IsNotSpace(line[|word|]);
    assert n == |word|;
    assert line[..n] == word;
    WordsSpec(line);
    assert FirstWord(line) == word;
  }

  /** A single word (no whitespace) that is not numbered never gets level 1:
      the all-caps rule needs more than one word. */
  lemma SingleWordNotLevelOne(line: string)
    requires IsStripped(line) && !HasSpace(line) && !MatchesNumberedPattern(line)
    ensures Classify(line) != Some(1)
  {
    ClassifyByRules(line);
  }

  /** A single upper-case word with two adjacent capitals, such as "METHODS", is no heading at all. */
  lemma CapitalWordNotHeading(line: string, i: int)
    requires IsStripped(line) && !HasSpace(line) && !MatchesNumberedPattern(line)
    requires 0 <= i < |line| - 1 && IsUpperChar(line[i]) && IsUpperChar(line[i + 1])
    ensures Classify(line) == None
  {
    ClassifyByRules(line);
    AdjacentCapitalsNotTitle(line, i);
    IsTitleIsTitleCased(line);
  }

  /** A blank line is never a heading. */
  lemma BlankNotHeading()
    ensures Classify([]) == None
  {
  }
}
