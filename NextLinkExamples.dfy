/** Worked examples of the page-number rewrite. */
module NextLinkExamples {
  import opened Common
  import opened NextLink

  lemma LowerOfLowerCase(s: string)
    requires forall i :: 0 <= i < |s| ==> !('A' <= s[i] <= 'Z')
    ensures Lower(s) == s
  {
  }

  lemma LowerOfReadUrl()
    ensures Lower("/read?page=3") == "/read?page=3"
  {
    LowerOfLowerCase("/read?page=3");
  }

  lemma ReadUrlContainsPage()
    ensures Contains("/read?page=3", "page")
  {
    var url := "/read?page=3";
    ContainsIff(url, "page");
    assert url[6..] == "page=3";
    assert StartsWith(url[6..], "page");
  }

  lemma ParamAtPage3()
    ensures ParamAt("page=3") == Some((4, 1))
  {
    var s := "page=3";
    assert IsPageName(s);
    assert s[5..] == "3";
    assert DigitRun("3") == 1 by {
      assert "3"[1..] == [];
    }
  }

  lemma NoParamBeforePage(url: string)
    requires url == "/read?page=3"
    ensures forall i :: 0 <= i < 6 ==> ParamAt(url[i..]).None?
  {
    forall i | 0 <= i < 6
      ensures ParamAt(url[i..]).None?
    {
      assert url[i..][0] == url[i] && ToLower(url[i]) != 'p';
    }
  }

  lemma FindParamInReadUrl()
    ensures FindParam("/read?page=3", 0) == Some(ParamMatch(6, 4, 1))
  {
    var url := "/read?page=3";
    assert url[6..] == "page=3";
    ParamAtPage3();
    NoParamBeforePage(url);
  }

  lemma TextsOfPage3()
    ensures MatchedText("page=3", 4, 1) == "page=3"
    ensures IncrementedText("page=3", 4, 1) == "page=4"
  {
    var s := "page=3";
    ParamAtPage3();
    assert s[5..6] == "3" && "3"[..0] == [];
    assert ParseNat("3") + 1 == 4;
    assert ShowNat(4) == "4";
  }

  lemma ReplaceAtEndOfReadUrl()
    ensures ReplaceFrom("/read?page=3", 12, "page=3", "page=4") == []
  {
    var url := "/read?page=3";
    assert url[12..] == [];
  }

  lemma ReadUrlPieces()
    ensures "/read?page=3"[..6] + ("page=4" + []) == "/read?page=4"
  {
    var pre := "/read?page=3"[..6];
    assert pre == "/read?";
    assert "page=4" + [] == "page=4";
  }

  /** A URL whose query holds `page=3` is rewritten to `page=4`. */
  lemma IncrementPageExample()
    ensures IncrementPage("/read?page=3") == Some("/read?page=4")
  {
    var url := "/read?page=3";
    LowerOfReadUrl();
    ReadUrlContainsPage();
    FindParamInReadUrl();
    assert url[6..] == "page=3";
    TextsOfPage3();
    ReplaceAtEndOfReadUrl();
    IncrementPageRewritesFirstMatch(url, ParamMatch(6, 4, 1));
    ReadUrlPieces();
  }

  lemma LowerOfBookUrl()
    ensures Lower("/book?p=2") == "/book?p=2"
  {
    LowerOfLowerCase("/book?p=2");
  }

  lemma BookUrlLacksPage()
    ensures !Contains("/book?p=2", "page")
  {
    var url := "/book?p=2";
    ContainsIff(url, "page");
    forall i | 0 <= i <= |url|
      ensures !StartsWith(url[i..], "page")
    {
      if i + 4 <= |url| {
        assert url[i..][1] == url[i + 1] != 'a';
      }
    }
  }

  /** The short name `p` is matched only when "page" also occurs in the URL. */
  lemma IncrementPageNeedsPageWord()
    ensures IncrementPage("/book?p=2") == None
  {
    LowerOfBookUrl();
    BookUrlLacksPage();
  }
}
