/**
 The `PDFParser` object: the page texts it holds, the sections its last successful
 `parse_structure` call stored, and the two operations `detect_headings` and
 `parse_structure`, written as loops and proved equal to the functions of `Headings`
 and `Sections`.
 */
module Parser {
  import opened Text
  import opened Classifier
  import opened Headings
  import opened Sections

  class PdfParser {
    /** The text of each extracted page, in page order. */
    const pages: seq<string>
    /** The sections stored by `parse_structure`; empty until it finds a heading. */
    var sections: seq<Section>

    /** The stored sections are either still unset or the structure of the pages. */
    ghost predicate Valid()
      reads this
    {
      sections == [] || sections == Structure(pages)
    }

    /** A parser over already extracted page texts, with no sections yet. */
    constructor(pageTexts: seq<string>)
      ensures pages == pageTexts && sections == []
      ensures Valid()
    {
      pages := pageTexts;
      sections := [];
    }

    /** `detect_headings`: one pass over the lines, skipping blank lines and lines no rule
        accepts, appending each other line with its index, stripped text and capped level. */
    method DetectHeadings(text: string) returns (headings: seq<Heading>)
      ensures headings == DetectedHeadings(text)
    {
      var lines := Split(text, '\n');
      ghost var verdicts := Verdicts(lines);
      headings := [];
      for i := 0 to |lines|
        invariant headings == Collect(verdicts, i)
      {
        CollectStep(verdicts, i);
        var line := Strip(lines[i]);
        if line == [] {
          BlankVerdict(lines, i);
          continue;
        }
        VerdictByRules(lines, i);
        var isAllCaps := IsUpper(line) && |Words(line)| > 1;
        var isNumbered := IsNumbered(line);
        var isShort := |line| < 100;
        var isTitleCase := IsTitle(line);
        var level := 1;
        if isNumbered {
          level := NumberedLevel(line);
        } else if isAllCaps {
          level := 1;
        } else if isTitleCase && isShort {
          level := 2;
        } else {
          continue;
        }
        headings := headings + [Heading(i, line, Min(level, 3))];
      }
    }

    /** `parse_structure`: join the pages, detect the headings, and either return the
        whole-document section (leaving `sections` as it was) or cut the lines into one
        section per heading, store that list in `sections` and return it. */
    method ParseStructure() returns (result: seq<Section>)
      modifies this`sections
      ensures result == Structure(pages)
      ensures DetectedHeadings(FullText(pages)) == [] ==> sections == old(sections)
      ensures DetectedHeadings(FullText(pages)) != [] ==> sections == result
      ensures old(Valid()) ==> Valid()
    {
      var fullText := FullText(pages);
      var headings := DetectHeadings(fullText);
      if headings == [] {
        return [Section(DocumentTitle, 1, fullText)];
      }
      var lines := Split(fullText, '\n');
      StructureIsSectionsFor(pages);
      var parts: seq<Section> := [];
      for i := 0 to |headings|
        invariant |parts| == i
        invariant forall k :: 0 <= k < i ==> parts[k] == SectionFor(lines, headings, k)
      {
        var startLine := headings[i].lineNumber;
        var endLine := if i + 1 < |headings| then headings[i + 1].lineNumber else |lines|;
        var content := Strip(Join(lines[startLine + 1..endLine], '\n'));
        assert Section(headings[i].text, headings[i].level, content) == SectionFor(lines, headings, i);
        parts := parts + [Section(headings[i].text, headings[i].level, content)];
      }
      assert parts == SectionsFor(lines, headings);
      sections := parts;
      result := parts;
    }
  }
}
