/**
 The Python `str` operations the heading detector relies on, restricted to ASCII:
 `isspace`, `isupper`, `istitle`, `lstrip`/`rstrip`/`strip`, `split(sep)`,
 `split()` with no separator, and `sep.join(parts)`.
 Characters outside ASCII are treated as neither whitespace nor cased.
 */
module Text {

  /** `str.isspace` on ASCII: tab, line feed, vertical tab, form feed, carriage return,
      the four information separators 0x1C-0x1F, and space. */
  predicate IsSpace(c: char) {
    c == ' ' || '\t' <= c <= '\r' || '\U{1C}' <= c <= '\U{1F}'
  }

  predicate IsNotSpace(c: char) {
    !IsSpace(c)
  }

  predicate IsUpperChar(c: char) {
    'A' <= c <= 'Z'
  }

  predicate IsLowerChar(c: char) {
    'a' <= c <= 'z'
  }

  /** In ASCII the cased characters are exactly the letters. */
  predicate IsCased(c: char) {
    IsUpperChar(c) || IsLowerChar(c)
  }

  /** `\d` of a Python regular expression, on ASCII. */
  predicate IsDigit(c: char) {
    '0' <= c <= '9'
  }

  /** `\w` of a Python regular expression, on ASCII: `[A-Za-z0-9_]`. */
  predicate IsWordChar(c: char) {
    IsCased(c) || IsDigit(c) || c == '_'
  }

  predicate AllSpace(s: string) {
    forall i :: 0 <= i < |s| ==> IsSpace(s[i])
  }

  predicate HasSpace(s: string) {
    exists i :: 0 <= i < |s| && IsSpace(s[i])
  }

  /** What `strip()` leaves: nothing, or a string that starts and ends with non-whitespace. */
  predicate IsStripped(s: string) {
    s == [] || (!IsSpace(s[0]) && !IsSpace(s[|s| - 1]))
  }

  /** Length of the longest prefix of `s` all of whose characters satisfy `p`. */
  function Run(s: string, p: char -> bool): (n: nat)
    ensures n <= |s|
  {
    if s != [] && p(s[0]) then 1 + Run(s[1..], p) else 0
  }

  /** The run is maximal: all of its characters satisfy `p` and the next one, if any, does not. */
  lemma {:induction false} RunSpec(s: string, p: char -> bool)
    ensures forall i :: 0 <= i < Run(s, p) ==> p(s[i])
    ensures Run(s, p) < |s| ==> !p(s[Run(s, p)])
  {
    if s != [] && p(s[0]) {
      RunSpec(s[1..], p);
      assert forall i :: 0 < i < Run(s, p) ==> s[i] == s[1..][i - 1];
    }
  }

  /** `s.lstrip()`: the suffix of `s` left after dropping its leading whitespace. */
  function TrimStart(s: string): (r: string)
  {
    if s != [] && IsSpace(s[0]) then TrimStart(s[1..]) else s
  }

  lemma {:induction false} TrimStartSpec(s: string)
    ensures |TrimStart(s)| <= |s| && TrimStart(s) == s[|s| - |TrimStart(s)|..]
    ensures AllSpace(s[..|s| - |TrimStart(s)|])
    ensures TrimStart(s) == [] || !IsSpace(TrimStart(s)[0])
  {
    if s != [] && IsSpace(s[0]) {
      TrimStartSpec(s[1..]);
    }
  }

  /** `s.rstrip()`: the prefix of `s` left after dropping its trailing whitespace. */
  function TrimEnd(s: string): (r: string)
  {
    if s != [] && IsSpace(s[|s| - 1]) then TrimEnd(s[..|s| - 1]) else s
  }

  lemma {:induction false} TrimEndSpec(s: string)
    ensures |TrimEnd(s)| <= |s| && TrimEnd(s) == s[..|TrimEnd(s)|]
    ensures AllSpace(s[|TrimEnd(s)|..])
    ensures TrimEnd(s) == [] || !IsSpace(TrimEnd(s)[|TrimEnd(s)| - 1])
  {
    if s != [] && IsSpace(s[|s| - 1]) {
      TrimEndSpec(s[..|s| - 1]);
      var r := TrimEnd(s);
      assert forall i :: 0 <= i < |s| - 1 - |r| ==> s[|r|..][i] == s[..|s| - 1][|r|..][i];
    }
  }

  /** `strip` removes whitespace from both ends of `s` and nothing else:
      `s` is `r` with a whitespace-only prefix and suffix added. */
  ghost predicate StripsTo(s: string, i: int, r: string) {
    0 <= i && i + |r| <= |s| && r == s[i..i + |r|] && AllSpace(s[..i]) && AllSpace(s[i + |r|..])
  }

  /** `s.strip()`. */
  function Strip(s: string): (r: string) {
    TrimEnd(TrimStart(s))
  }

  /** Stripping removes only whitespace, from both ends, and keeps the middle intact;
      what is left neither starts nor ends with whitespace. */
  lemma StripSpec(s: string)
    ensures IsStripped(Strip(s))
    ensures exists i :: StripsTo(s, i, Strip(s))
  {
    var t := TrimStart(s);
    TrimStartSpec(s);
    var r := TrimEnd(t);
    TrimEndSpec(t);
    assert r == Strip(s);
    var i := |s| - |t|;
    assert r == s[i..i + |r|];
    assert forall k :: 0 <= k < |s| - (i + |r|) ==> s[i + |r|..][k] == t[|r|..][k];
    assert StripsTo(s, i, r);
  }

  /** `sep.join(parts)`. */
  function Join(parts: seq<string>, sep: char): (s: string)
    decreases |parts|
  {
    if parts == [] then []
    else if |parts| == 1 then parts[0]
    else parts[0] + [sep] + Join(parts[1..], sep)
  }

  /** `s.split(sep)`: the pieces between occurrences of `sep`, always at least one. */
  function Split(s: string, sep: char): (parts: seq<string>)
    ensures |parts| >= 1
    decreases |s|
  {
    if s == [] then [[]]
    else
      var rest := Split(s[1..], sep);
      if s[0] == sep then [[]] + rest
      else [[s[0]] + rest[0]] + rest[1..]
  }

  /** No part of `s.split(sep)` contains `sep`, and joining the parts with `sep` gives `s` back. */
  lemma {:induction false} SplitSpec(s: string, sep: char)
    ensures forall k :: 0 <= k < |Split(s, sep)| ==> sep !in Split(s, sep)[k]
    ensures Join(Split(s, sep), sep) == s
    decreases |s|
  {
    if s != [] {
      SplitSpec(s[1..], sep);
      var rest := Split(s[1..], sep);
      var parts := Split(s, sep);
      if s[0] == sep {
        assert parts == [[]] + rest;
        assert parts[1..] == rest;
      } else {
        assert parts == [[s[0]] + rest[0]] + rest[1..];
        assert parts[1..] == rest[1..];
        assert |rest| > 1 ==> Join(rest, sep) == rest[0] + [sep] + Join(rest[1..], sep);
        assert s == [s[0]] + s[1..];
        forall k | 0 <= k < |parts| ensures sep !in parts[k] {
          if k > 0 {
            assert parts[k] == rest[k];
          }
        }
      }
    }
  }

  /** The other round trip: splitting what was joined gives the parts back,
      provided no part contains the separator. */
  lemma {:induction false} SplitOfJoin(parts: seq<string>, sep: char)
    requires |parts| >= 1
    requires forall k :: 0 <= k < |parts| ==> sep !in parts[k]
    ensures Split(Join(parts, sep), sep) == parts
    decreases |parts|, |parts[0]|
  {
    if parts[0] == [] {
      if |parts| > 1 {
        SplitOfJoin(parts[1..], sep);
        var s := Join(parts, sep);
        assert s == [sep] + Join(parts[1..], sep);
        assert s[1..] == Join(parts[1..], sep);
        assert parts == [[]] + parts[1..];
      }
    } else {
      var c := parts[0][0];
      var shorter := [parts[0][1..]] + parts[1..];
      assert shorter[1..] == parts[1..];
      forall k | 0 <= k < |shorter| ensures sep !in shorter[k] {
        if k == 0 {
          assert parts[0] == [c] + parts[0][1..];
        }
      }
      SplitOfJoin(shorter, sep);
      var s := Join(parts, sep);
      if |parts| == 1 {
        assert s == [c] + Join(shorter, sep);
      } else {
        assert s == [c] + Join(shorter, sep);
      }
      assert s[1..] == Join(shorter, sep);
      assert s[0] == c && c != sep;
      assert parts[0] == [c] + shorter[0];
      assert parts == [[c] + shorter[0]] + shorter[1..];
    }
  }

  /** `s.split()` with no separator: the maximal runs of non-whitespace characters, in order. */
  function Words(s: string): (words: seq<string>)
    decreases |s|
  {
    if s == [] then []
    else if IsSpace(s[0]) then Words(s[1..])
    else
      var n := Run(s, IsNotSpace);
      [s[..n]] + Words(s[n..])
  }

  /** The words are non-empty and hold no whitespace, there are none exactly when `s` is
      all whitespace, and when `s` starts with a non-whitespace character the first word is
      the run of non-whitespace characters it starts with. */
  lemma {:induction false} WordsSpec(s: string)
    ensures forall k :: 0 <= k < |Words(s)| ==> Words(s)[k] != [] && !HasSpace(Words(s)[k])
    ensures Words(s) == [] <==> AllSpace(s)
    ensures s != [] && !IsSpace(s[0]) ==> Words(s) != [] && Words(s)[0] == s[..Run(s, IsNotSpace)]
    decreases |s|
  {
    if s == [] {
    } else if IsSpace(s[0]) {
      WordsSpec(s[1..]);
      assert AllSpace(s) <==> AllSpace(s[1..]) by {
        assert forall i :: 0 < i < |s| ==> s[i] == s[1..][i - 1];
      }
    } else {
      var n := Run(s, IsNotSpace);
      RunSpec(s, IsNotSpace);
      var word := s[..n];
      assert !HasSpace(word) by {
        forall i | 0 <= i < n ensures !IsSpace(word[i]) {
          assert IsNotSpace(s[i]);
        }
      }
      WordsSpec(s[n..]);
      var rest := Words(s[n..]);
      var words := [word] + rest;
      assert Words(s) == words;
      forall k | 0 <= k < |words| ensures words[k] != [] && !HasSpace(words[k]) {
        if k > 0 {
          assert words[k] == rest[k - 1];
        }
      }
    }
  }

  /** A stripped, non-blank line has more than one word exactly when it contains whitespace. */
  lemma WordsOfStripped(s: string)
    requires s != [] && IsStripped(s)
    ensures |Words(s)| > 1 <==> HasSpace(s)
  {
    var n := Run(s, IsNotSpace);
    RunSpec(s, IsNotSpace);
    WordsSpec(s);
    assert Words(s) == [s[..n]] + Words(s[n..]);
    if n == |s| {
      assert s[n..] == [];
      assert !HasSpace(s) by {
        forall i | 0 <= i < |s| ensures !IsSpace(s[i]) {
          assert IsNotSpace(s[i]);
        }
      }
    } else {
      assert IsSpace(s[n]);
      assert s[n..][|s| - 1 - n] == s[|s| - 1];
      WordsSpec(s[n..]);
      assert Words(s[n..]) != [];
    }
  }

  /** `s.isupper()`: at least one cased character and no lower-case one. */
  predicate IsUpper(s: string) {
    (exists i :: 0 <= i < |s| && IsUpperChar(s[i])) && forall i :: 0 <= i < |s| ==> !IsLowerChar(s[i])
  }

  /** `s.isupper()` as CPython computes it, scanning left to right: a lower-case letter
      fails at once, and the answer at the end is whether an upper-case letter was seen. */
  predicate UpperScan(s: string, cased: bool)
    decreases |s|
  {
    if s == [] then cased
    else if IsLowerChar(s[0]) then false
    else UpperScan(s[1..], cased || IsUpperChar(s[0]))
  }

  lemma {:induction false} UpperScanSpec(s: string, cased: bool)
    ensures UpperScan(s, cased) <==>
      (cased || exists i :: 0 <= i < |s| && IsUpperChar(s[i])) && forall i :: 0 <= i < |s| ==> !IsLowerChar(s[i])
    decreases |s|
  {
    if s != [] {
      UpperScanSpec(s[1..], cased || IsUpperChar(s[0]));
      assert forall i :: 0 < i < |s| ==> s[i] == s[1..][i - 1];
      if IsUpperChar(s[0]) {
        assert 0 <= 0 < |s| && IsUpperChar(s[0]);
      }
      if exists i :: 0 <= i < |s| && IsUpperChar(s[i]) {
        var i :| 0 <= i < |s| && IsUpperChar(s[i]);
        if i > 0 {
          assert IsUpperChar(s[1..][i - 1]);
        }
      }
    }
  }

  /** `IsUpper`, the documented definition, agrees with the scan CPython runs. */
  lemma IsUpperIsUpperScan(s: string)
    ensures IsUpper(s) <==> UpperScan(s, false)
  {
    UpperScanSpec(s, false);
  }

  /** `s.istitle()` as CPython computes it, scanning left to right while remembering whether
      the previous character was cased and whether any cased character has been seen:
      an upper-case letter fails after a cased character, a lower-case letter fails after
      an uncased one, and the answer at the end is whether a cased character was seen. */
  predicate IsTitle(s: string) {
    TitleScan(s, false, false)
  }

  predicate TitleScan(s: string, previousIsCased: bool, cased: bool)
    decreases |s|
  {
    if s == [] then cased
    else if IsUpperChar(s[0]) then !previousIsCased && TitleScan(s[1..], true, true)
    else if IsLowerChar(s[0]) then previousIsCased && TitleScan(s[1..], true, true)
    else TitleScan(s[1..], false, cased)
  }

  /** Title case stated position by position: some character is cased, an upper-case letter
      is never preceded by a cased character, and a lower-case letter is always preceded by one. */
  ghost predicate TitleCased(s: string) {
    && (exists i :: 0 <= i < |s| && IsCased(s[i]))
    && (forall i :: 0 < i < |s| && IsUpperChar(s[i]) ==> !IsCased(s[i - 1]))
    && (forall i :: 0 <= i < |s| && IsLowerChar(s[i]) ==> 0 < i && IsCased(s[i - 1]))
  }

  /** Whether the character before position `i` is cased, the scan's state being `previousIsCased` at 0. */
  predicate CasedBefore(s: string, previousIsCased: bool, i: int)
    requires 0 <= i < |s|
  {
    if i == 0 then previousIsCased else IsCased(s[i - 1])
  }

  ghost predicate ScanAccepts(s: string, previousIsCased: bool, cased: bool) {
    && (cased || exists i :: 0 <= i < |s| && IsCased(s[i]))
    && (forall i :: 0 <= i < |s| && IsUpperChar(s[i]) ==> !CasedBefore(s, previousIsCased, i))
    && (forall i :: 0 <= i < |s| && IsLowerChar(s[i]) ==> CasedBefore(s, previousIsCased, i))
  }

  lemma ScanAcceptsStep(s: string, previousIsCased: bool, cased: bool)
    requires s != []
    ensures ScanAccepts(s, previousIsCased, cased) <==>
      && (IsUpperChar(s[0]) ==> !previousIsCased)
      && (IsLowerChar(s[0]) ==> previousIsCased)
      && ScanAccepts(s[1..], IsCased(s[0]), cased || IsCased(s[0]))
  {
  }

  lemma {:induction false} TitleScanAccepts(s: string, previousIsCased: bool, cased: bool)
    ensures TitleScan(s, previousIsCased, cased) <==> ScanAccepts(s, previousIsCased, cased)
    decreases |s|
  {
    if s != [] {
      ScanAcceptsStep(s, previousIsCased, cased);
      TitleScanAccepts(s[1..], IsCased(s[0]), cased || IsCased(s[0]));
    }
  }

  /** `IsTitle`, the scan CPython runs, agrees with the position-by-position definition. */
  lemma IsTitleIsTitleCased(s: string)
    ensures IsTitle(s) <==> TitleCased(s)
  {
    TitleScanAccepts(s, false, false);
    assert forall i :: 0 <= i < |s| ==> CasedBefore(s, false, i) == (0 < i && IsCased(s[i - 1]));
  }

  /** Two adjacent upper-case letters make a string fail `istitle`: the word "METHODS" is not title case. */
  lemma AdjacentCapitalsNotTitle(s: string, i: int)
    requires 0 <= i < |s| - 1 && IsUpperChar(s[i]) && IsUpperChar(s[i + 1])
    ensures !IsTitle(s)
  {
    IsTitleIsTitleCased(s);
  }
}
