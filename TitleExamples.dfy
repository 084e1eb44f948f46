/** Worked examples of the title normaliser and extractor: the examples the
    source gives next to its regular expressions, the input that shows
    cleaning is not idempotent, and the priority of h1 over the title
    element. Each example is computed one pass at a time. */
module TitleExamples {
  import opened Common
  import opened TitleCleaning

  lemma StripTrailingBlank(p: string)
    requires p != [] && !IsSpace(p[0]) && !IsSpace(p[|p| - 1])
    ensures Strip(p + " ") == p
  {
    var s := p + " ";
    assert s[..|s| - 1] == p;
    assert TrailingSpaces(s) == 1;
  }

  lemma StripBracketsOfPageCount()
    ensures StripBrackets("(2/3)") == ""
  {
    var s := "(2/3)";
    assert s[1..] == "2/3)" && s[5..] == "";
    assert "2/3)"[1..] == "/3)" && "/3)"[1..] == "3)" && "3)"[1..] == ")";
    assert LazyClose("2/3)", ')') == Some(3);
  }

  lemma StripOfChapterOne()
    ensures Strip("第一章 ") == "第一章"
  {
    StripTrailingBlank("第一章");
    assert "第一章" + " " == "第一章 ";
  }

  lemma BracketPassOnBracketExample()
    ensures StripBrackets("第一章 (2/3)") == "第一章 "
  {
    assert "第一章 (2/3)" == "第一章 " + "(2/3)";
    StripBracketsPlainPrefix("第一章 ", "(2/3)");
    StripBracketsOfPageCount();
    assert "第一章 " + "" == "第一章 ";
  }

  lemma MarkerPassOnChapterOne()
    ensures StripPageMarkers("第一章 ") == "第一章 "
  {
    StripPageMarkersPlainPrefix("第一章 ", "");
    assert "第一章 " + "" == "第一章 ";
  }

  /** The first example of the source: a bracketed page count goes. */
  lemma CleanChapterTitleBracketExample()
    ensures CleanChapterTitle("第一章 (2/3)") == "第一章"
  {
    BracketPassOnBracketExample();
    MarkerPassOnChapterOne();
    StripOfChapterOne();
  }

  lemma MarkerPassOnPageMarker()
    ensures StripPageMarkers("- 第2页") == ""
  {
    var m := "- 第2页";
    assert m[1..] == " 第2页" && " 第2页"[1..] == "第2页";
    assert LeadingSpaces(m[1..]) == 1;
    assert m[3..] == "2页" && "2页"[1..] == "页";
    assert DigitRun(m[3..]) == 1;
    assert MarkerLength(m) == 5;
    assert m[5..] == "";
  }

  lemma BracketPassOnMarkerExample()
    ensures StripBrackets("第一章 - 第2页") == "第一章 - 第2页"
  {
    var s := "第一章 - 第2页";
    StripBracketsPlainPrefix(s, "");
    assert s + "" == s;
  }

  lemma MarkerPassOnMarkerExample()
    ensures StripPageMarkers("第一章 - 第2页") == "第一章 "
  {
    var s := "第一章 - 第2页";
    assert s == "第一章 " + "- 第2页";
    StripPageMarkersPlainPrefix("第一章 ", "- 第2页");
    MarkerPassOnPageMarker();
  }

  /** The second example of the source: a page marker goes. */
  lemma CleanChapterTitleMarkerExample()
    ensures CleanChapterTitle("第一章 - 第2页") == "第一章"
  {
    BracketPassOnMarkerExample();
    MarkerPassOnMarkerExample();
    StripOfChapterOne();
  }

  lemma MarkerPassOnDashPair()
    ensures StripPageMarkers("-—1页2") == "-2"
  {
    var s := "-—1页2";
    assert s[1..] == "—1页2" && LeadingSpaces(s[1..]) == 0;
    assert MarkerLength(s) == 0;
    var t := "—1页2";
    assert t[1..] == "1页2" && LeadingSpaces(t[1..]) == 0;
    assert "1页2"[1..] == "页2" && DigitRun(t[1..]) == 1;
    assert MarkerLength(t) == 3;
    assert t[3..] == "2";
    StripPageMarkersPlainPrefix("2", "");
    assert "2" + "" == "2";
  }

  lemma MarkerPassOnDashDigit()
    ensures StripPageMarkers("-2") == ""
  {
    var u := "-2";
    assert u[1..] == "2" && LeadingSpaces(u[1..]) == 0 && DigitRun(u[1..]) == 1;
    assert MarkerLength(u) == 2;
    assert u[2..] == "";
  }

  lemma MarkerPassOnIdempotenceExample()
    ensures StripPageMarkers("x-—1页2") == "x-2"
  {
    MarkerPassAfterLetter("x-—1页2");
  }

  lemma MarkerPassAfterLetter(s: string)
    requires s == "x" + "-—1页2"
    ensures StripPageMarkers(s) == "x-2"
  {
    MarkerPassOnDashPair();
    StripPageMarkersPlainPrefix("x", "-—1页2");
  }

  lemma MarkerPassOnDashDigitExample()
    ensures StripPageMarkers("x-2") == "x"
  {
    MarkerPassOnDashDigit();
    assert "x-2" == "x" + "-2";
    StripPageMarkersPlainPrefix("x", "-2");
  }

  lemma MarkerPassOnLetter()
    ensures StripPageMarkers("A") == "A"
  {
    StripPageMarkersPlainPrefix("A", "");
    assert "A" + "" == "A";
  }

  lemma PassesOnIdempotenceExample()
    ensures StripPageMarkers(StripBrackets("x-—1页2")) == "x-2"
    ensures StripPageMarkers(StripBrackets("x-2")) == "x"
  {
    StripBracketsPlain("x-—1页2");
    StripBracketsPlain("x-2");
    MarkerPassOnIdempotenceExample();
    MarkerPassOnDashDigitExample();
  }

  lemma StripShortTitles()
    ensures Strip("x-2") == "x-2"
    ensures Strip("x") == "x"
  {
    StripUnchanged("x-2");
    StripUnchanged("x");
  }

  /** Cleaning is not idempotent: removing one marker can join a dash to
      digits that follow it, and a second pass removes that too. */
  lemma CleanChapterTitleNotIdempotent()
    ensures CleanChapterTitle("x-—1页2") == "x-2"
    ensures CleanChapterTitle("x-2") == "x"
  {
    PassesOnIdempotenceExample();
    StripShortTitles();
  }

  lemma BracketPassAcrossLine()
    ensures StripBrackets("(-\n1)") == "(-\n1)"
  {
    var s := "(-\n1)";
    assert s[1..] == "-\n1)" && "-\n1)"[1..] == "\n1)";
    assert Line("-\n1)") == "-";
    StripBracketsPlain("-\n1)");
  }

  lemma MarkerPassAcrossLine()
    ensures StripPageMarkers("(-\n1)") == "()"
  {
    var u := "-\n1)";
    assert u[1..] == "\n1)" && "\n1)"[1..] == "1)" && LeadingSpaces(u[1..]) == 1;
    assert u[2..] == "1)" && "1)"[1..] == ")" && DigitRun(u[2..]) == 1;
    assert MarkerLength(u) == 3;
    assert u[3..] == ")";
    StripPageMarkersPlainPrefix(")", "");
    assert ")" + "" == ")";
    assert "(-\n1)" == "(" + u;
    StripPageMarkersPlainPrefix("(", u);
  }

  /** The bracket pass leaves a pair that a line break separates, and the
      marker pass, whose `\s*` also consumes line breaks, can then remove the
      break and bring the pair together: an empty pair of brackets survives
      cleaning. */
  lemma CleanChapterTitleJoinsBrackets()
    ensures CleanChapterTitle("(-\n1)") == "()"
  {
    BracketPassAcrossLine();
    MarkerPassAcrossLine();
    StripUnchanged("()");
  }

  lemma NoMarkerBeforeLetter()
    ensures MarkerLength("- B") == 0
  {
    var m := "- B";
    assert m[1..] == " B" && " B"[1..] == "B" && LeadingSpaces(m[1..]) == 1;
    assert m[2..] == "B" && DigitRun(m[2..]) == 0;
  }

  lemma MarkerPassOnSpacedB()
    ensures StripPageMarkers("- B") == "- B"
  {
    NoMarkerBeforeLetter();
    var m := "- B";
    assert m[1..] == " B";
    StripPageMarkersPlainPrefix(" B", "");
    assert " B" + "" == " B";
  }

  lemma MarkerPassOnSpacedDash()
    ensures StripPageMarkers("A - B") == "A - B"
  {
    assert "A - B" == "A " + "- B";
    StripPageMarkersPlainPrefix("A ", "- B");
    MarkerPassOnSpacedB();
  }

  lemma StripUnchanged(s: string)
    requires s != [] && !IsSpace(s[0]) && !IsSpace(s[|s| - 1])
    ensures Strip(s) == s
  {
    assert LeadingSpaces(s) == 0 && s[0..] == s;
    assert TrailingSpaces(s) == 0;
  }

  lemma PassesOnSpacedDash()
    ensures StripPageMarkers(StripBrackets("A - B")) == "A - B"
  {
    StripBracketsPlain("A - B");
    MarkerPassOnSpacedDash();
  }

  lemma StripSpacedDash()
    ensures Strip("A - B") == "A - B"
  {
    StripUnchanged("A - B");
  }

  lemma CleanSpacedDash()
    ensures CleanChapterTitle("A - B") == "A - B"
  {
    PassesOnSpacedDash();
    StripSpacedDash();
  }

  lemma TitleElementCut()
    ensures Strip(BeforeSeparator("A - B")) == "A"
    ensures CleanChapterTitle("A") == "A"
  {
    var s := "A - B";
    assert s[1..] == " - B" && " - B"[1..] == "- B";
    assert BeforeSeparator(s) == "A ";
    StripTrailingBlank("A");
    StripBracketsPlain("A");
    MarkerPassOnLetter();
  }

  /** The h1 text is not split at separators, the title element's text is;
      an empty h1 falls through, and the sentinel needs both to be missing. */
  lemma ExtractChapterTitleExample()
    ensures ExtractChapterTitle(Some("A - B"), Some("C")) == "A - B"
    ensures ExtractChapterTitle(None, Some("A - B")) == "A"
    ensures ExtractChapterTitle(Some(""), Some("")) == ""
    ensures ExtractChapterTitle(Some(""), None) == Untitled
  {
    CleanSpacedDash();
    TitleElementCut();
    assert BeforeSeparator("") == "";
  }
}
