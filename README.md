# Heading detection and section splitting of `PDFParser`

This project models the structural core of `scripts/pdf_parser.py`: how `PDFParser`
turns the text of a document's pages into an ordered list of `{title, level, content}`
sections.

- `detect_headings(text)` splits the text at `'\n'`. It strips each line and skips blank
  ones. Each remaining line is classified by three rules, tried in order:
  - a numbered prefix `^(\d+\.|\d+\)|\w\.|[IVX]+\.)` gives level = the dots in the first
    word + 1;
  - an all-upper-case line of more than one word gives level 1;
  - a title-case line shorter than 100 characters gives level 2.

  Every level is capped at 3. The result lists the accepted lines with their index,
  stripped text and level.
- `parse_structure()` joins the page texts with `'\n'` and detects the headings.
  - With none, it returns one section titled `Document Content`, level 1, whose content
    is the joined text, unchanged. The `sections` field is left as it was.
  - Otherwise it returns one section per heading. The content is the lines strictly
    between that heading's line and the next heading's line (or the end), joined with
    `'\n'` and stripped. The list is also stored in the `sections` field.

Layout:

- `text.dfy` (module `Text`): the Python `str` operations the core relies on, on ASCII.
  - `isspace` is given directly by its documented character set.
  - `isupper` is given by its documented definition, and a lemma proves it equal to the
    left-to-right scan CPython runs.
  - `istitle` is that scan, and a lemma proves it equal to the position-by-position
    definition.
  - `strip` and `split('\n')` are recursive functions, each paired with a lemma that
    determines its result.
  - `split()` is a recursive function whose lemmas state what the core uses of it: whether
    it has no word, one word or more than one, and what its first word is. The words after
    the first are only shown to be non-empty and free of whitespace.
  - `'\n'.join` is characterised only together with `split('\n')`, by the two round trips.
- `classifier.dfy` (module `Classifier`): the rule chain on one stripped line.
  - `IsNumbered` is the regular expression, written as a prefix predicate.
  - `RawLevel` is the level the rules give; `Classify` caps it at 3.
- `headings.dfy` (module `Headings`): `DetectedHeadings`, the value `detect_headings`
  returns, and its properties.
- `sections.dfy` (module `Sections`): `Structure`, the value `parse_structure` returns,
  and its properties. These cover the fallback, one section per heading, and the partition
  of the lines into blocks. A block is a heading's line followed by its content lines.
- `pdf_parser.dfy` (module `Parser`): the class `PdfParser`, with the `sections` field it
  updates. Its loops `DetectHeadings` and `ParseStructure` are proved equal to those
  functions.
- `numbering.dfy` (module `Numbering`): the numbering depths of `"1) X"`, `"1. X"` and
  `"1.1.1 X"` for an arbitrary title `X`.

Behaviour of the code that the model keeps as written:

- Whitespace for `strip()` and `split()` is what Python's `str.isspace` accepts on ASCII.
  That is tab, line feed, vertical tab, form feed, carriage return, the separators
  0x1C-0x1F and space.
- The fallback section's content is the joined text without stripping
  (`scripts/pdf_parser.py:94`). Only the per-heading contents are stripped (line 107).
- Lines before the first heading belong to no section.
- `"1. X"` gets level 2, like `"1.1 X"`, because the level counts the dots of the first
  word. `"1) X"` gets level 1.
- The docstring also mentions "lines ending with newline but not period". No such rule
  exists in the code, so the model has none.

## Model

| member | source | states |
|---|---|---|
| Text.StripSpec | scripts/pdf_parser.py:46 | `strip()` removes only whitespace, from both ends, and keeps the rest intact. What is left is empty or starts and ends with non-whitespace. |
| Text.SplitSpec | scripts/pdf_parser.py:42 | No part of `text.split('\n')` contains `'\n'`, and joining the parts with `'\n'` gives the text back. |
| Text.SplitOfJoin | scripts/pdf_parser.py:98 | Splitting at `'\n'` what was joined with `'\n'` gives the parts back, when no part holds `'\n'`. |
| Text.WordsSpec | scripts/pdf_parser.py:60 | `split()` gives non-empty words with no whitespace. There are none exactly when the string is all whitespace. On a string starting with non-whitespace, the first word is the maximal non-whitespace prefix. |
| Text.RunSpec | scripts/pdf_parser.py:52 | A run of `\d` (or `[IVX]`, or non-whitespace) is maximal: every character in it belongs to the class and the next one does not. |
| Text.WordsOfStripped | scripts/pdf_parser.py:51 | On a stripped non-blank line, `len(line.split()) > 1` holds exactly when the line contains whitespace. |
| Text.IsTitleIsTitleCased | scripts/pdf_parser.py:54 | CPython's left-to-right `istitle` scan accepts exactly the strings that have a cased character, where no upper-case letter follows a cased character and every lower-case letter follows one. |
| Text.IsUpperIsUpperScan | scripts/pdf_parser.py:51 | `isupper` holds exactly when the string has an upper-case letter and no lower-case one, which is what CPython's left-to-right scan, failing at the first lower-case letter, computes. |
| Text.AdjacentCapitalsNotTitle | scripts/pdf_parser.py:54 | Two adjacent capitals make `istitle` false. |
| Classifier.IsNumberedMatchesPattern | scripts/pdf_parser.py:52 | The prefix predicate accepts exactly the lines the regular expression matches, read with backtracking repetitions. |
| Classifier.NumberedLevel | scripts/pdf_parser.py:60 | A numbered line's uncapped level is at least 1. |
| Classifier.Classify | scripts/pdf_parser.py:57-71 | Every recorded level is in 1..3. |
| Classifier.ClassifyByRules | scripts/pdf_parser.py:51-66 | The rule chain with its precedence. A numbered line gets min(dots before the first whitespace + 1, 3), even when it is also all-caps or title case. Otherwise an all-upper line with whitespace gets 1. Otherwise a title-case line under 100 characters gets 2. Any other line is no heading. |
| Classifier.NumberedLineLevel | scripts/pdf_parser.py:58-60 | A numbered line's level depends only on its first word: min(dots in it + 1, 3). |
| Classifier.SingleWordNotLevelOne | scripts/pdf_parser.py:51 | A single word that is not numbered never gets level 1: all-caps promotion needs more than one word. |
| Classifier.CapitalWordNotHeading | scripts/pdf_parser.py:51-66 | A single upper-case word with two adjacent capitals (such as `METHODS`) that is not numbered is no heading at all. |
| Classifier.BlankNotHeading | scripts/pdf_parser.py:47-48 | A blank line is never a heading. |
| Numbering.ParenthesisedNumber | scripts/pdf_parser.py:58-60 | `"1) X"` classifies as level 1 for every `X`. |
| Numbering.DottedNumber | scripts/pdf_parser.py:58-60 | `"1. X"` classifies as level 2 for every `X`, all-caps and title-case `X` included. |
| Numbering.ThreePartNumber | scripts/pdf_parser.py:58-60 | `"1.1.1 X"` classifies as level 3 for every `X`. |
| Headings.HeadingAtSpec | scripts/pdf_parser.py:45-72 | A line yields a heading exactly when its stripped text classifies. The heading holds the line's index, the stripped text (never empty) and the capped level. |
| Headings.CollectAscending | scripts/pdf_parser.py:45-72 | The headings gathered over the first `n` lines have strictly increasing line numbers below `n`, and each is its own line's verdict. |
| Headings.CollectComplete | scripts/pdf_parser.py:45-72 | Among the first `n` lines, a line is a heading line exactly when it yields a heading. |
| Headings.DetectedHeadingsSpec | scripts/pdf_parser.py:42-74 | Line numbers of the result strictly increase and index `text.split('\n')`. Each heading is the one its own line yields. A line is a heading line exactly when its stripped text classifies. |
| Headings.DetectedHeadingFields | scripts/pdf_parser.py:68-72 | Each detected heading's text is its line stripped and never empty. Its level is the line's capped level, in 1..3. |
| Headings.ClassifiedLineDetected | scripts/pdf_parser.py:45-72 | Every line whose stripped text classifies appears among the detected headings. |
| Headings.NoHeadingsIff | scripts/pdf_parser.py:42-74 | `detect_headings` returns nothing exactly when no line's stripped text classifies. |
| Sections.Block | scripts/pdf_parser.py:102-106 | A heading's block is never empty and starts with the heading's own line. |
| Sections.Partition | scripts/pdf_parser.py:101-106 | For strictly increasing headings: every line from the first heading's line on lies in exactly one block. No heading's line is a content line of any heading. A line before the first heading lies in no block. |
| Sections.BlocksTileFrom | scripts/pdf_parser.py:101-106 | The blocks of headings `k..` laid end to end are exactly the lines from heading `k`'s line to the end. |
| Sections.SectionFromBlock | scripts/pdf_parser.py:102-113 | Section `i` takes heading `i`'s level, its title is the block's first line stripped, and its content is the rest of the block joined with `'\n'` and stripped. |
| Sections.PreambleNotHeadings | scripts/pdf_parser.py:45-66 | No line before the first detected heading classifies. |
| Sections.SectionsTileDocument | scripts/pdf_parser.py:98-113 | With headings, the number of sections equals the number of headings, in the same order. Section `i` has heading `i`'s text and level, and its content is the rest of block `i` joined and stripped. The blocks tile the lines from the first heading to the end. Every earlier line is one no rule accepts. |
| Sections.StructureLevels | scripts/pdf_parser.py:76-116 | `parse_structure` returns at least one section, and every section's level is in 1..3. |
| Sections.DocumentTitleIsLevelTwo | scripts/pdf_parser.py:92 | The fallback title `Document Content` would itself classify as a level-2 heading. |
| Sections.FallbackTitleOnlyInFallback | scripts/pdf_parser.py:89-95 | Any level-1 section titled `Document Content` in the result means no heading was detected, and the result is then exactly the fallback section. |
| Sections.FallbackWhenNoHeading | scripts/pdf_parser.py:89-95 | When no line classifies, the result is exactly one section: `Document Content`, level 1, the joined text unchanged. |
| Sections.FallbackOnlyWhenNoHeading | scripts/pdf_parser.py:89-95 | Conversely, that single fallback section is returned only when no line classifies. |
| Sections.EmptyDocument | scripts/pdf_parser.py:84-95 | No pages, or one empty page, give the fallback section with empty content. |
| Parser.PdfParser.constructor | scripts/pdf_parser.py:15-18 | A new parser holds the given page texts and no sections. |
| Parser.PdfParser.DetectHeadings | scripts/pdf_parser.py:34-74 | The loop over the lines returns exactly `DetectedHeadings(text)`. |
| Parser.PdfParser.ParseStructure | scripts/pdf_parser.py:76-116 | The loop over the headings returns exactly `Structure(pages)`. `sections` is unchanged on the no-heading path and equals the result otherwise. It accepts any stored `sections`, as the Python method does. Stored sections that are unset or equal to the pages' structure stay so. |

## Left out

- `extract_text` (`scripts/pdf_parser.py:20-32`) reads the PDF through pdfplumber, which is I/O. The parser is built from the page texts it would have produced: the constructor takes those texts instead of a path. The lazy call at lines 80-81 is therefore not modelled.
- The page records' `page_number`, `width` and `height` fields and `pdf_path` play no part in headings or sections; only the page texts are kept.
- `get_metadata`, `extract_tables`, `parse_pdf` and the command-line block of `scripts/pdf_parser.py` are file I/O and printing.
- `scripts/ai_summarizer.py`, `scripts/main.py` and `scripts/html_generator.py` are not part of this model. They cover network calls, command-line handling and template rendering.
- Characters outside ASCII: the model treats them as neither whitespace, nor cased, nor `\w` or `\d`. Python's Unicode rules for `strip`, `split`, `isupper`, `istitle` and the regular expression classes are not modelled.
- Dictionaries become the datatypes `Heading` and `Section`. The regular expression's match object becomes a boolean.
- Empty page texts: `extract_text` keeps a page only when its text is non-empty (`scripts/pdf_parser.py:25`), but the constructor accepts empty page texts too. `Sections.EmptyDocument` covers one empty page, which the program never stores; its result is the same as for no pages.
- Aliasing: `parse_structure` stores and returns the same list object (`scripts/pdf_parser.py:115-116`), so a caller that edits a returned section in place also changes the parser's `sections`. The model's sequences are values, so `ParseStructure`'s result and the `sections` field never alias.
