/**
 What `PDFParser.parse_structure` returns for the page texts: the pages joined with
 `'\n'`, then either one whole-document section when no heading is detected, or one
 section per heading whose content is the lines strictly between that heading's line
 and the next heading's line (or the end), joined with `'\n'` and stripped.
 */
module Sections {
  import opened Text
  import opened Classifier
  import opened Headings

  datatype Section = Section(title: string, level: int, content: string)

  /** Title of the single section returned when no heading is found. */
  const DocumentTitle: string := "Document Content"

  /** `'\n'.join(page['text'] for page in pages)`. */
  function FullText(pages: seq<string>): (text: string) {
    Join(pages, '\n')
  }

  /** Line index where the section of heading `i` ends (exclusive): the next heading's
      line, or the number of lines for the last heading. */
  function SpanEnd(n: nat, hs: seq<Heading>, i: nat): (end: nat)
    requires i < |hs|
  {
    if i + 1 < |hs| then hs[i + 1].lineNumber else n
  }

  /** Heading `i`'s line followed by its content lines. */
  function Block(lines: seq<string>, hs: seq<Heading>, i: nat): (block: seq<string>)
    requires Ascending(hs, |lines|) && i < |hs|
    ensures block != [] && block[0] == lines[hs[i].lineNumber]
  {
    lines[hs[i].lineNumber..SpanEnd(|lines|, hs, i)]
  }

  /** The section of heading `i`: its title and level, and as content the lines after its
      own line up to the next heading, joined and stripped. */
  function SectionFor(lines: seq<string>, hs: seq<Heading>, i: nat): (section: Section)
    requires Ascending(hs, |lines|) && i < |hs|
  {
    var startLine := hs[i].lineNumber;
    var endLine := SpanEnd(|lines|, hs, i);
    Section(hs[i].text, hs[i].level, Strip(Join(lines[startLine + 1..endLine], '\n')))
  }

  function SectionsFor(lines: seq<string>, hs: seq<Heading>): (sections: seq<Section>)
    requires Ascending(hs, |lines|)
    ensures |sections| == |hs|
  {
    seq(|hs|, i requires 0 <= i < |hs| => SectionFor(lines, hs, i))
  }

  /** The value `parse_structure` returns for the given page texts. */
  function Structure(pages: seq<string>): (sections: seq<Section>) {
    var fullText := FullText(pages);
    var headings := DetectedHeadings(fullText);
    if headings == [] then
      [Section(DocumentTitle, 1, fullText)]
    else
      DetectedAscending(fullText);
      SectionsFor(Split(fullText, '\n'), headings)
  }

  function Concat(blocks: seq<seq<string>>): (lines: seq<string>) {
    if blocks == [] then [] else blocks[0] + Concat(blocks[1..])
  }

  /** Line `j` lies in the block of heading `i`: it is that heading's line or one of its content lines. */
  ghost predicate InBlock(n: nat, hs: seq<Heading>, i: nat, j: int)
    requires i < |hs|
  {
    hs[i].lineNumber <= j < SpanEnd(n, hs, i)
  }

  /** Line `j` is one of the content lines of heading `i`. */
  ghost predicate InContent(n: nat, hs: seq<Heading>, i: nat, j: int)
    requires i < |hs|
  {
    hs[i].lineNumber < j < SpanEnd(n, hs, i)
  }

  /** Line `j` lies in some block. */
  ghost predicate Covered(n: nat, hs: seq<Heading>, j: int) {
    exists i :: 0 <= i < |hs| && InBlock(n, hs, i, j)
  }

  lemma SpanEndBounds(n: nat, hs: seq<Heading>, i: nat, m: nat)
    requires Ascending(hs, n) && i < m < |hs|
    ensures hs[i].lineNumber < SpanEnd(n, hs, i) <= hs[m].lineNumber
  {
  }

  /** The block, from heading `k` on, that holds line `j`. */
  lemma {:induction false} FindBlock(n: nat, hs: seq<Heading>, j: int, k: nat) returns (i: nat)
    requires Ascending(hs, n) && k < |hs| && hs[k].lineNumber <= j < n
    ensures k <= i < |hs| && InBlock(n, hs, i, j)
    decreases |hs| - k
  {
    if k + 1 < |hs| && hs[k + 1].lineNumber <= j {
      i := FindBlock(n, hs, j, k + 1);
    } else {
      i := k;
    }
  }

  /** The blocks partition the lines from the first heading's line on: every such line
      lies in exactly one block, a heading's line is never a content line of any heading,
      and a line before the first heading lies in no block. */
  lemma Partition(n: nat, hs: seq<Heading>)
    requires Ascending(hs, n) && hs != []
    ensures forall j :: hs[0].lineNumber <= j < n ==> Covered(n, hs, j)
    ensures forall i, i', j :: 0 <= i < |hs| && 0 <= i' < |hs| && InBlock(n, hs, i, j) && InBlock(n, hs, i', j) ==> i == i'
    ensures forall i, k :: 0 <= i < |hs| && 0 <= k < |hs| ==> !InContent(n, hs, i, hs[k].lineNumber)
    ensures forall j :: j < hs[0].lineNumber ==> !Covered(n, hs, j)
  {
    forall j | hs[0].lineNumber <= j < n ensures Covered(n, hs, j) {
      var i := FindBlock(n, hs, j, 0);
    }
    forall i, i', j | 0 <= i < |hs| && 0 <= i' < |hs| && InBlock(n, hs, i, j) && InBlock(n, hs, i', j)
      ensures i == i'
    {
      if i < i' {
        SpanEndBounds(n, hs, i, i');
      } else if i' < i {
        SpanEndBounds(n, hs, i', i);
      }
    }
    forall i, k | 0 <= i < |hs| && 0 <= k < |hs| ensures !InContent(n, hs, i, hs[k].lineNumber) {
      if i < k {
        SpanEndBounds(n, hs, i, k);
      }
    }
  }

  /** The blocks of headings `k..`, in order. */
  function BlocksFrom(lines: seq<string>, hs: seq<Heading>, k: nat): (blocks: seq<seq<string>>)
    requires Ascending(hs, |lines|) && k <= |hs|
    decreases |hs| - k
  {
    if k == |hs| then [] else [Block(lines, hs, k)] + BlocksFrom(lines, hs, k + 1)
  }

  /** The blocks of headings `k..` laid end to end are exactly the lines from heading `k`'s line on. */
  lemma {:induction false} BlocksTileFrom(lines: seq<string>, hs: seq<Heading>, k: nat)
    requires Ascending(hs, |lines|) && k < |hs|
    ensures Concat(BlocksFrom(lines, hs, k)) == lines[hs[k].lineNumber..]
    decreases |hs| - k
  {
    var blocks := BlocksFrom(lines, hs, k);
    assert blocks[0] == Block(lines, hs, k);
    assert blocks[1..] == BlocksFrom(lines, hs, k + 1);
    if k + 1 == |hs| {
      assert Concat(blocks[1..]) == [];
    } else {
      BlocksTileFrom(lines, hs, k + 1);
      var mid := hs[k + 1].lineNumber;
      assert lines[hs[k].lineNumber..] == lines[hs[k].lineNumber..mid] + lines[mid..];
    }
  }

  /** With headings, `parse_structure` returns one section per heading, built by `SectionFor`. */
  lemma StructureIsSectionsFor(pages: seq<string>)
    requires DetectedHeadings(FullText(pages)) != []
    ensures Ascending(DetectedHeadings(FullText(pages)), |Split(FullText(pages), '\n')|)
    ensures Structure(pages) == SectionsFor(Split(FullText(pages), '\n'), DetectedHeadings(FullText(pages)))
  {
    DetectedAscending(FullText(pages));
  }

  /** Section `i` in terms of block `i`: the title is its first line stripped, the level the
      heading's, and the content the rest of the block joined and stripped. */
  lemma SectionFromBlock(text: string, i: nat)
    requires i < |DetectedHeadings(text)|
    ensures Ascending(DetectedHeadings(text), |Split(text, '\n')|)
    ensures
      var lines := Split(text, '\n');
      var hs := DetectedHeadings(text);
      && SectionFor(lines, hs, i).title == Strip(Block(lines, hs, i)[0])
      && SectionFor(lines, hs, i).level == hs[i].level
      && SectionFor(lines, hs, i).content == Strip(Join(Block(lines, hs, i)[1..], '\n'))
  {
    var lines := Split(text, '\n');
    var hs := DetectedHeadings(text);
    DetectedAscending(text);
    DetectedHeadingFields(text, i);
    assert Block(lines, hs, i)[1..] == lines[hs[i].lineNumber + 1..SpanEnd(|lines|, hs, i)];
  }

  /** Every line before the first detected heading is one no rule classifies. */
  lemma PreambleNotHeadings(text: string)
    requires DetectedHeadings(text) != []
    ensures forall j :: 0 <= j < DetectedHeadings(text)[0].lineNumber ==>
      j < |Split(text, '\n')| && Classify(Strip(Split(text, '\n')[j])) == None
  {
    DetectedAscending(text);
    forall j | 0 <= j < DetectedHeadings(text)[0].lineNumber
      ensures j < |Split(text, '\n')| && Classify(Strip(Split(text, '\n')[j])) == None
    {
      PreambleLineNotHeading(text, j);
    }
  }

  lemma PreambleLineNotHeading(text: string, j: nat)
    requires DetectedHeadings(text) != [] && j < DetectedHeadings(text)[0].lineNumber
    requires Ascending(DetectedHeadings(text), |Split(text, '\n')|)
    ensures j < |Split(text, '\n')| && Classify(Strip(Split(text, '\n')[j])) == None
  {
    if Classify(Strip(Split(text, '\n')[j])).Some? {
      ClassifiedLineDetected(text, j);
    }
  }

  /** With headings, `parse_structure` gives one section per heading, in order: section `i`
      is built from block `i` (title and level from the heading on its first line, content
      the rest of the block joined and stripped), the blocks laid end to end are exactly the
      lines from the first heading's line to the end, and every line before the first
      heading is one no rule classifies. */
  lemma SectionsTileDocument(pages: seq<string>)
    requires DetectedHeadings(FullText(pages)) != []
    ensures
      var lines := Split(FullText(pages), '\n');
      var hs := DetectedHeadings(FullText(pages));
      && Ascending(hs, |lines|)
      && |Structure(pages)| == |hs|
      && (forall i :: 0 <= i < |hs| ==>
            && Structure(pages)[i].title == hs[i].text
            && Structure(pages)[i].title == Strip(Block(lines, hs, i)[0])
            && Structure(pages)[i].level == hs[i].level
            && Structure(pages)[i].content == Strip(Join(Block(lines, hs, i)[1..], '\n')))
      && Concat(BlocksFrom(lines, hs, 0)) == lines[hs[0].lineNumber..]
      && (forall j :: 0 <= j < hs[0].lineNumber ==> Classify(Strip(lines[j])) == None)
  {
    var text := FullText(pages);
    var lines := Split(text, '\n');
    var hs := DetectedHeadings(text);
    StructureIsSectionsFor(pages);
    forall i | 0 <= i < |hs|
      ensures Structure(pages)[i].title == hs[i].text
      ensures Structure(pages)[i].title == Strip(Block(lines, hs, i)[0])
      ensures Structure(pages)[i].level == hs[i].level
      ensures Structure(pages)[i].content == Strip(Join(Block(lines, hs, i)[1..], '\n'))
    {
      SectionFromBlock(text, i);
    }
    BlocksTileFrom(lines, hs, 0);
    PreambleNotHeadings(text);
  }

  /** Every section `parse_structure` returns has a level in 1..3, and there is always at least one. */
  lemma StructureLevels(pages: seq<string>)
    ensures |Structure(pages)| >= 1
    ensures forall s :: s in Structure(pages) ==> 1 <= s.level <= 3
  {
    var text := FullText(pages);
    var hs := DetectedHeadings(text);
    if hs != [] {
      StructureIsSectionsFor(pages);
      var sections := SectionsFor(Split(text, '\n'), hs);
      forall i | 0 <= i < |sections| ensures 1 <= sections[i].level <= 3 {
        DetectedHeadingFields(text, i);
      }
    }
  }

  /** "Document Content" is title case: its only capitals are the `D` at 0 and the `C` at 9,
      the latter after the space at 8, and every other letter follows a letter. */
  lemma DocumentTitleTitleCased()
    ensures TitleCased(DocumentTitle)
  {
    var s := DocumentTitle;
    assert s[0] == 'D' && s[8] == ' ' && s[9] == 'C';
    assert IsCased(s[0]);
    forall i | 0 < i < |s| && IsUpperChar(s[i]) ensures !IsCased(s[i - 1]) {
      assert i == 9;
    }
    forall i | 0 <= i < |s| && IsLowerChar(s[i]) ensures 0 < i && IsCased(s[i - 1]) {
      assert i != 0 && i != 8 && i != 9;
      assert IsCased(s[i - 1]);
    }
  }

  /** The sentinel title classifies as a level-2 heading, so a section titled
      "Document Content" with level 1 can only be the fallback. */
  lemma DocumentTitleIsLevelTwo()
    ensures Classify(DocumentTitle) == Some(2)
  {
    assert !IsNumbered(DocumentTitle);
    assert !IsUpper(DocumentTitle) by {
      assert IsLowerChar(DocumentTitle[1]);
    }
    DocumentTitleTitleCased();
    IsTitleIsTitleCased(DocumentTitle);
  }

  /** A level-1 section titled "Document Content" anywhere in the result is the fallback:
      a detected heading with that text would have level 2. */
  lemma FallbackTitleOnlyInFallback(pages: seq<string>, i: nat)
    requires i < |Structure(pages)|
    requires Structure(pages)[i].title == DocumentTitle && Structure(pages)[i].level == 1
    ensures DetectedHeadings(FullText(pages)) == []
    ensures Structure(pages) == [Section(DocumentTitle, 1, FullText(pages))]
  {
    var text := FullText(pages);
    var hs := DetectedHeadings(text);
    if hs != [] {
      StructureIsSectionsFor(pages);
      assert Structure(pages)[i] == SectionFor(Split(text, '\n'), hs, i);
      DetectedHeadingFields(text, i);
      DocumentTitleIsLevelTwo();
    }
  }

  /** When no line of the joined text classifies, `parse_structure` returns exactly one
      section: the sentinel title, level 1, and the joined text unchanged as content. */
  lemma FallbackWhenNoHeading(pages: seq<string>)
    requires forall j :: 0 <= j < |Split(FullText(pages), '\n')| ==>
      Classify(Strip(Split(FullText(pages), '\n')[j])) == None
    ensures Structure(pages) == [Section(DocumentTitle, 1, FullText(pages))]
  {
    NoHeadingsIff(FullText(pages));
  }

  /** Conversely, the fallback shape is returned only when no line classifies. */
  lemma FallbackOnlyWhenNoHeading(pages: seq<string>)
    requires Structure(pages) == [Section(DocumentTitle, 1, FullText(pages))]
    ensures forall j :: 0 <= j < |Split(FullText(pages), '\n')| ==>
      Classify(Strip(Split(FullText(pages), '\n')[j])) == None
  {
    var fullText := FullText(pages);
    var hs := DetectedHeadings(fullText);
    NoHeadingsIff(fullText);
    if hs != [] {
      var lines := Split(fullText, '\n');
      StructureIsSectionsFor(pages);
      DetectedHeadingFields(fullText, 0);
      assert Structure(pages)[0] == SectionFor(lines, hs, 0);
      assert hs[0].text == DocumentTitle && hs[0].level == 1;
      DocumentTitleIsLevelTwo();
      assert false;
    }
  }

  /** An empty document (no pages, or one empty page) gives one section with empty content. */
  lemma EmptyDocument()
    ensures Structure([]) == [Section(DocumentTitle, 1, [])]
    ensures Structure([[]]) == [Section(DocumentTitle, 1, [])]
  {
  }
}
