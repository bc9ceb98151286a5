/**
 What `PDFParser.detect_headings` returns for a text: the lines of `text.split('\n')`
 that are not blank once stripped and that the classifier accepts, in line order,
 each recorded with its line index, its stripped text and its capped level.
 */
module Headings {
  import opened Text
  import opened Classifier

  datatype Heading = Heading(lineNumber: nat, text: string, level: int)

  /** The heading line `i` gives, if any: a line blank after stripping is skipped,
      any other is classified on its stripped text. */
  function HeadingAt(lines: seq<string>, i: nat): (verdict: Option<Heading>)
    requires i < |lines|
  {
    var line := Strip(lines[i]);
    if line == [] then None
    else
      match Classify(line)
      case None => None
      case Some(level) => Some(Heading(i, line, level))
  }

  /** What each line of `lines` gives, by line index. */
  function Verdicts(lines: seq<string>): (vs: seq<Option<Heading>>)
    ensures |vs| == |lines|
  {
    seq(|lines|, i requires 0 <= i < |lines| => HeadingAt(lines, i))
  }

  /** The headings among the first `n` verdicts, in line order. */
  function Collect(vs: seq<Option<Heading>>, n: nat): (hs: seq<Heading>)
    requires n <= |vs|
  {
    if n == 0 then []
    else
      Collect(vs, n - 1) +
      match vs[n - 1]
      case None => []
      case Some(h) => [h]
  }

  /** The value `detect_headings(text)` returns. */
  function DetectedHeadings(text: string): (hs: seq<Heading>) {
    var lines := Split(text, '\n');
    Collect(Verdicts(lines), |lines|)
  }

  /** One more verdict adds its heading, if any, at the end. */
  lemma CollectStep(vs: seq<Option<Heading>>, n: nat)
    requires n < |vs|
    ensures vs[n].None? ==> Collect(vs, n + 1) == Collect(vs, n)
    ensures vs[n].Some? ==> Collect(vs, n + 1) == Collect(vs, n) + [vs[n].value]
  {
  }

  lemma BlankVerdict(lines: seq<string>, i: nat)
    requires i < |lines| && Strip(lines[i]) == []
    ensures Verdicts(lines)[i] == None
  {
  }

  lemma VerdictByRules(lines: seq<string>, i: nat)
    requires i < |lines| && Strip(lines[i]) != []
    ensures
      var line := Strip(lines[i]);
      Verdicts(lines)[i] ==
        if IsNumbered(line) then Some(Heading(i, line, Min(NumberedLevel(line), 3)))
        else if IsUpper(line) && |Words(line)| > 1 then Some(Heading(i, line, 1))
        else if IsTitle(line) && |line| < 100 then Some(Heading(i, line, 2))
        else None
  {
  }

  /** Line numbers strictly increase and stay below `n`. */
  ghost predicate Ascending(hs: seq<Heading>, n: nat) {
    && (forall k :: 0 <= k < |hs| ==> hs[k].lineNumber < n)
    && (forall k, m :: 0 <= k < m < |hs| ==> hs[k].lineNumber < hs[m].lineNumber)
  }

  /** Every verdict that is a heading carries its own index as line number. */
  ghost predicate Indexed(vs: seq<Option<Heading>>) {
    forall i :: 0 <= i < |vs| && vs[i].Some? ==> vs[i].value.lineNumber == i
  }

  ghost predicate IsHeadingLine(hs: seq<Heading>, j: int) {
    exists k :: 0 <= k < |hs| && hs[k].lineNumber == j
  }

  /** A line gives a heading exactly when its stripped text classifies; the heading holds
      its line index, the stripped text, which is never empty, and a level in 1..3. */
  lemma HeadingAtSpec(lines: seq<string>, i: nat)
    requires i < |lines|
    ensures HeadingAt(lines, i).Some? <==> Classify(Strip(lines[i])).Some?
    ensures HeadingAt(lines, i).Some? ==>
      && HeadingAt(lines, i).value.lineNumber == i
      && HeadingAt(lines, i).value.text == Strip(lines[i])
      && HeadingAt(lines, i).value.text != []
      && Classify(HeadingAt(lines, i).value.text) == Some(HeadingAt(lines, i).value.level)
      && 1 <= HeadingAt(lines, i).value.level <= 3
  {
  }

  lemma VerdictsIndexed(lines: seq<string>)
    ensures Indexed(Verdicts(lines))
  {
  }

  lemma AppendAscending(hs: seq<Heading>, n: nat, h: Heading)
    requires Ascending(hs, n) && h.lineNumber == n
    ensures Ascending(hs + [h], n + 1)
  {
  }

  lemma AppendHeadingLine(hs: seq<Heading>, h: Heading, j: int)
    ensures IsHeadingLine(hs + [h], j) <==> IsHeadingLine(hs, j) || h.lineNumber == j
  {
    if IsHeadingLine(hs, j) {
      var k :| 0 <= k < |hs| && hs[k].lineNumber == j;
      assert (hs + [h])[k] == hs[k];
    }
    if h.lineNumber == j {
      assert (hs + [h])[|hs|] == h;
    }
  }

  /** The headings collected from the first `n` verdicts are in strictly increasing line
      order below `n`, and each is the verdict of its own line. */
  lemma {:induction false} CollectAscending(vs: seq<Option<Heading>>, n: nat)
    requires n <= |vs| && Indexed(vs)
    ensures Ascending(Collect(vs, n), n)
    ensures forall k :: 0 <= k < |Collect(vs, n)| ==>
      Collect(vs, n)[k].lineNumber < |vs| && vs[Collect(vs, n)[k].lineNumber] == Some(Collect(vs, n)[k])
  {
    if n > 0 {
      CollectAscending(vs, n - 1);
      var prefix := Collect(vs, n - 1);
      if vs[n - 1].Some? {
        var h := vs[n - 1].value;
        assert Collect(vs, n) == prefix + [h];
        AppendAscending(prefix, n - 1, h);
        forall k | 0 <= k < |prefix + [h]|
          ensures (prefix + [h])[k].lineNumber < |vs| && vs[(prefix + [h])[k].lineNumber] == Some((prefix + [h])[k])
        {
          if k < |prefix| {
            assert (prefix + [h])[k] == prefix[k];
          }
        }
      } else {
        assert Collect(vs, n) == prefix;
      }
    }
  }

  /** Among the first `n` lines, a line is a heading line exactly when its verdict is a heading. */
  lemma {:induction false} CollectComplete(vs: seq<Option<Heading>>, n: nat)
    requires n <= |vs| && Indexed(vs)
    ensures forall j :: 0 <= j < n ==> (IsHeadingLine(Collect(vs, n), j) <==> vs[j].Some?)
  {
    if n > 0 {
      CollectComplete(vs, n - 1);
      CollectAscending(vs, n - 1);
      var prefix := Collect(vs, n - 1);
      if vs[n - 1].Some? {
        var h := vs[n - 1].value;
        assert Collect(vs, n) == prefix + [h];
        forall j | 0 <= j < n
          ensures IsHeadingLine(prefix + [h], j) <==> vs[j].Some?
        {
          AppendHeadingLine(prefix, h, j);
        }
      } else {
        assert Collect(vs, n) == prefix;
        assert !IsHeadingLine(prefix, n - 1);
      }
    }
  }

  /** The detected headings are in strictly increasing line order, within the text's lines. */
  lemma DetectedAscending(text: string)
    ensures Ascending(DetectedHeadings(text), |Split(text, '\n')|)
  {
    var lines := Split(text, '\n');
    VerdictsIndexed(lines);
    CollectAscending(Verdicts(lines), |lines|);
  }

  /** `detect_headings` returns exactly the lines the classifier accepts, in order:
      line numbers strictly increase, each heading is the one its own line gives (so its
      text is that line stripped, never empty, and its level is in 1..3), and a line is a
      heading line exactly when its stripped text classifies. */
  lemma DetectedHeadingsSpec(text: string)
    ensures Ascending(DetectedHeadings(text), |Split(text, '\n')|)
    ensures forall k :: 0 <= k < |DetectedHeadings(text)| ==>
      HeadingAt(Split(text, '\n'), DetectedHeadings(text)[k].lineNumber) == Some(DetectedHeadings(text)[k])
    ensures forall j :: 0 <= j < |Split(text, '\n')| ==>
      (IsHeadingLine(DetectedHeadings(text), j) <==> HeadingAt(Split(text, '\n'), j).Some?)
  {
    var lines := Split(text, '\n');
    VerdictsIndexed(lines);
    CollectAscending(Verdicts(lines), |lines|);
    CollectComplete(Verdicts(lines), |lines|);
  }

  /** Heading `k` of the detected headings, field by field: its line exists, its text is
      that line stripped and never empty, and its level is the line's capped level. */
  lemma DetectedHeadingFields(text: string, k: nat)
    requires k < |DetectedHeadings(text)|
    ensures DetectedHeadings(text)[k].lineNumber < |Split(text, '\n')|
    ensures DetectedHeadings(text)[k].text == Strip(Split(text, '\n')[DetectedHeadings(text)[k].lineNumber])
    ensures DetectedHeadings(text)[k].text != []
    ensures Classify(DetectedHeadings(text)[k].text) == Some(DetectedHeadings(text)[k].level)
    ensures 1 <= DetectedHeadings(text)[k].level <= 3
  {
    var lines := Split(text, '\n');
    var h := DetectedHeadings(text)[k];
    DetectedHeadingsSpec(text);
    assert HeadingAt(lines, h.lineNumber) == Some(h);
    HeadingAtSpec(lines, h.lineNumber);
  }

  /** A line whose stripped text classifies is one of the detected heading lines. */
  lemma ClassifiedLineDetected(text: string, j: nat)
    requires j < |Split(text, '\n')| && Classify(Strip(Split(text, '\n')[j])).Some?
    ensures IsHeadingLine(DetectedHeadings(text), j)
  {
    var lines := Split(text, '\n');
    DetectedHeadingsSpec(text);
    HeadingAtSpec(lines, j);
  }

  /** No heading is found exactly when no line's stripped text classifies. */
  lemma NoHeadingsIff(text: string)
    ensures DetectedHeadings(text) == [] ==>
      forall j :: 0 <= j < |Split(text, '\n')| ==> Classify(Strip(Split(text, '\n')[j])) == None
    ensures (forall j :: 0 <= j < |Split(text, '\n')| ==> Classify(Strip(Split(text, '\n')[j])) == None) ==>
      DetectedHeadings(text) == []
  {
    var lines := Split(text, '\n');
    var vs := Verdicts(lines);
    var hs := DetectedHeadings(text);
    VerdictsIndexed(lines);
    CollectComplete(vs, |lines|);
    assert hs == Collect(vs, |lines|);
    if hs != [] {
      CollectAscending(vs, |lines|);
      var j := hs[0].lineNumber;
      assert IsHeadingLine(hs, j);
      assert vs[j].Some?;
      HeadingAtSpec(lines, j);
      assert Classify(Strip(lines[j])).Some?;
      assert !(forall j :: 0 <= j < |lines| ==> Classify(Strip(lines[j])) == None);
    } else {
      forall j | 0 <= j < |lines| ensures Classify(Strip(lines[j])) == None {
        assert !IsHeadingLine(hs, j);
        assert vs[j] == HeadingAt(lines, j);
        HeadingAtSpec(lines, j);
      }
    }
  }
}
