/**
 The numbering depths `detect_headings` assigns, on lines of the shape its comment
 describes: a number followed by `)`, by `.`, or a three-part number, then a title.
 */
module Numbering {
  import opened Text
  import opened Classifier

  /** "1) X" classifies as level 1, whatever the title X. */
  lemma ParenthesisedNumber(title: string)
    ensures Classify("1) " + title) == Some(1)
  {
    var line := "1) " + title;
    RunSpec(line, IsDigit);
    assert line[0] == '1' && line[1] == ')';
    assert Run(line, IsDigit) == 1;
    NumberedLineLevel("1)", " " + title);
    assert "1)" + (" " + title) == line;
    assert multiset("1)")['.'] == 0;
  }

  /** "1. X" classifies as level 2, whatever the title X: even an all-caps or
      title-case X does not change it, since the numbered rule is tried first. */
  lemma DottedNumber(title: string)
    ensures Classify("1. " + title) == Some(2)
  {
    var line := "1. " + title;
    RunSpec(line, IsDigit);
    assert line[0] == '1' && line[1] == '.';
    assert Run(line, IsDigit) == 1;
    NumberedLineLevel("1.", " " + title);
    assert "1." + (" " + title) == line;
    assert multiset("1.")['.'] == 1;
  }

  /** "1.1.1 X" classifies as level 3, whatever the title X. */
  lemma ThreePartNumber(title: string)
    ensures Classify("1.1.1 " + title) == Some(3)
  {
    var line := "1.1.1 " + title;
    RunSpec(line, IsDigit);
    assert line[0] == '1' && line[1] == '.';
    assert Run(line, IsDigit) == 1;
    NumberedLineLevel("1.1.1", " " + title);
    assert "1.1.1" + (" " + title) == line;
    assert multiset("1.1.1")['.'] == 2;
  }
}
