/** `extract_main_content`: the selection rule that decides which element is
    the chapter body. */
module ContentExtraction {
  import opened Common
  import opened PageModel
  import opened RuleChain

  /** A match is accepted only when its stripped text is longer than this. */
  const MinContentLength: nat := 100

  predicate Qualifies(page: Page, sel: Selector)
  {
    sel in page.firstMatch && |page.firstMatch[sel].rawText| > MinContentLength
  }

  /** What trying one selector yields. */
  function Attempt(page: Page, sel: Selector): Option<string>
  {
    if Qualifies(page, sel) then Some(page.firstMatch[sel].text) else None
  }

  function Attempts(page: Page): seq<Option<string>>
  {
    seq(|Selectors|, i requires 0 <= i < |Selectors| => Attempt(page, Selectors[i]))
  }

  /** The body the extractor chooses. */
  function SelectContent(page: Page): Option<string>
  {
    FirstSome(Attempts(page))
  }

  /** The chosen body is the text of the first element of the first
      selector, in the listed order, whose match qualifies; it is None when
      no selector qualifies. */
  lemma SelectContentSpec(page: Page)
    ensures var r := SelectContent(page);
            r.None? <==> forall i :: 0 <= i < |Selectors| ==> !Qualifies(page, Selectors[i])
    ensures var r := SelectContent(page);
            r.Some? ==> exists i :: 0 <= i < |Selectors| && Qualifies(page, Selectors[i])
                          && r.value == page.firstMatch[Selectors[i]].text
                          && forall j :: 0 <= j < i ==> !Qualifies(page, Selectors[j])
  {
    var xs := Attempts(page);
    assert forall i :: 0 <= i < |Selectors| ==> xs[i] == Attempt(page, Selectors[i]);
  }

  /** `extract_main_content`: tries the selectors in order and returns the
      text of the first qualifying match. */
  method ExtractMainContent(page: Page) returns (content: Option<string>)
    ensures content == SelectContent(page)
  {
    var i := 0;
    while i < |Selectors|
      invariant 0 <= i <= |Selectors|
      invariant forall j :: 0 <= j < i ==> Attempts(page)[j].None?
    {
      var sel := Selectors[i];
      if sel in page.firstMatch && |page.firstMatch[sel].rawText| > MinContentLength {
        FirstSomeAt(Attempts(page), i);
        return Some(page.firstMatch[sel].text);
      }
      i := i + 1;
    }
    return None;
  }

  function Repeat(c: char, n: nat): (r: string)
    ensures |r| == n
  {
    if n == 0 then [] else [c] + Repeat(c, n - 1)
  }

  /** The threshold is strict and is measured before the removal of
      non-content nodes: a match of exactly 100 characters is skipped for the
      next selector, and the text returned may be much shorter than 100. */
  lemma ThresholdExample()
    ensures SelectContent(Page(None, None,
              map[Selectors[0] := Candidate(Repeat('x', 100), "too short"),
                  Selectors[4] := Candidate(Repeat('y', 101), "yes")], [])) == Some("yes")
  {
    var page := Page(None, None,
              map[Selectors[0] := Candidate(Repeat('x', 100), "too short"),
                  Selectors[4] := Candidate(Repeat('y', 101), "yes")], []);
    assert !Qualifies(page, Selectors[0]);
    assert forall j :: 1 <= j < 4 ==> Selectors[j] !in page.firstMatch;
    assert Qualifies(page, Selectors[4]);
    FirstSomeAt(Attempts(page), 4);
  }
}
