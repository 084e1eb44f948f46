/** `extract_next_page`: the next-link resolver. Anchors whose text is a
    "next" keyword come first, then anchors with a "next" class, then a
    rewrite of the current URL's page number. */
module NextLink {
  import opened Common
  import opened PageModel
  import opened RuleChain

  // ---------------------------------------------------------------------
  // Anchor rules
  // ---------------------------------------------------------------------

  const NextKeywords: seq<string> := ["下一页", "下一章", "下一节", "下一頁", "Next", ">", "›"]

  const NextClasses: seq<string> := ["next", "next-page", "pagination-next"]

  /** How an anchor is looked up: by its text, or by one of its classes. */
  datatype AnchorRule = TextIs(keyword: string) | ClassIs(name: string)

  /** `re.compile(f"^{keyword}$", re.IGNORECASE)` searched in the anchor's
      string: the whole string equals the keyword up to case, where `$` also
      accepts one line break at the very end. */
  predicate Matches(a: Anchor, rule: AnchorRule)
  {
    match rule
    case TextIs(keyword) =>
      a.text.Some? &&
      (Lower(a.text.value) == Lower(keyword) || Lower(a.text.value) == Lower(keyword) + "\n")
    case ClassIs(name) => name in a.classes
  }

  /** The parser's `find`: the first anchor, in document order, the rule
      matches. */
  function FirstMatch(anchors: seq<Anchor>, rule: AnchorRule): Option<Anchor>
  {
    if anchors == [] then None
    else if Matches(anchors[0], rule) then Some(anchors[0])
    else FirstMatch(anchors[1..], rule)
  }

  /** `find` returns nothing exactly when no anchor matches, and otherwise
      a matching anchor with no matching anchor before it. */
  lemma {:induction false} FirstMatchSpec(anchors: seq<Anchor>, rule: AnchorRule)
    ensures var r := FirstMatch(anchors, rule);
            && (r.None? <==> forall i :: 0 <= i < |anchors| ==> !Matches(anchors[i], rule))
            && (r.Some? ==> exists i :: 0 <= i < |anchors| && anchors[i] == r.value
                             && Matches(anchors[i], rule)
                             && forall j :: 0 <= j < i ==> !Matches(anchors[j], rule))
  {
    if anchors != [] && !Matches(anchors[0], rule) {
      FirstMatchSpec(anchors[1..], rule);
      assert forall i :: 1 <= i < |anchors| ==> anchors[i] == anchors[1..][i - 1];
      var r := FirstMatch(anchors, rule);
      if r.Some? {
        var i :| 0 <= i < |anchors[1..]| && anchors[1..][i] == r.value
                 && Matches(anchors[1..][i], rule)
                 && forall j :: 0 <= j < i ==> !Matches(anchors[1..][j], rule);
        assert anchors[i + 1] == r.value;
      }
    }
  }

  /** `next_link and next_link.get("href")`: a found anchor counts only when
      its href is present and non-empty. */
  function HrefOf(a: Option<Anchor>): (r: Option<string>)
    ensures r.Some? <==> a.Some? && a.value.href.Some? && a.value.href.value != ""
    ensures r.Some? ==> r.value == a.value.href.value
  {
    if a.Some? && a.value.href.Some? && a.value.href.value != "" then a.value.href else None
  }

  /** What looking up the first anchor with each keyword yields, in the
      order the keywords are tried: only the first anchor a keyword matches
      is looked at, and it must carry an href. */
  function KeywordAttempts(anchors: seq<Anchor>): (xs: seq<Option<string>>)
    ensures |xs| == |NextKeywords|
  {
    seq(|NextKeywords|, i requires 0 <= i < |NextKeywords| =>
      HrefOf(FirstMatch(anchors, TextIs(NextKeywords[i]))))
  }

  /** The same for the classes. */
  function ClassAttempts(anchors: seq<Anchor>): (xs: seq<Option<string>>)
    ensures |xs| == |NextClasses|
  {
    seq(|NextClasses|, i requires 0 <= i < |NextClasses| =>
      HrefOf(FirstMatch(anchors, ClassIs(NextClasses[i]))))
  }

  /** The keyword loop: the first keyword whose first matching anchor
      carries an href decides the link. */
  method FindKeywordLink(anchors: seq<Anchor>) returns (link: Option<string>)
    ensures link == FirstSome(KeywordAttempts(anchors))
  {
    ghost var xs := KeywordAttempts(anchors);
    var k := 0;
    while k < |NextKeywords|
      invariant 0 <= k <= |NextKeywords|
      invariant forall j :: 0 <= j < k ==> xs[j].None?
    {
      var a := FirstMatch(anchors, TextIs(NextKeywords[k]));
      assert xs[k] == HrefOf(a);
      if a.Some? && a.value.href.Some? && a.value.href.value != "" {
        FirstSomeAt(xs, k);
        return a.value.href;
      }
      k := k + 1;
    }
    return None;
  }

  /** The class loop, tried when no keyword anchor gives a link. */
  method FindClassLink(anchors: seq<Anchor>) returns (link: Option<string>)
    ensures link == FirstSome(ClassAttempts(anchors))
  {
    ghost var xs := ClassAttempts(anchors);
    var c := 0;
    while c < |NextClasses|
      invariant 0 <= c <= |NextClasses|
      invariant forall j :: 0 <= j < c ==> xs[j].None?
    {
      var a := FirstMatch(anchors, ClassIs(NextClasses[c]));
      assert xs[c] == HrefOf(a);
      if a.Some? && a.value.href.Some? && a.value.href.value != "" {
        FirstSomeAt(xs, c);
        return a.value.href;
      }
      assert xs[c].None?;
      c := c + 1;
    }
    return None;
  }

  // ---------------------------------------------------------------------
  // The page-number rewrite
  // ---------------------------------------------------------------------

  /** The first four characters spell "page" without regard to case. */
  predicate IsPageName(s: string)
  {
    |s| >= 4 && ToLower(s[0]) == 'p' && ToLower(s[1]) == 'a'
    && ToLower(s[2]) == 'g' && ToLower(s[3]) == 'e'
  }

  /** `s` starts with `name` (without regard to case), '=' and a digit:
      where the alternative `name` of `(page|p)=(\d+)` can match. */
  predicate NameAt(s: string, name: string)
  {
    |name| + 1 < |s| && Lower(s[..|name|]) == name && s[|name|] == '=' && IsDigit(s[|name| + 1])
  }

  /** `(page|p)=(\d+)` with IGNORECASE, anchored at the start of `s`: the
      length of the parameter name and of the digit run it matches. The name
      "page" is tried first; the digits are matched greedily. */
  function ParamAt(s: string): (r: Option<(nat, nat)>)
    // no match exactly when neither alternative fits here
    ensures r.None? <==> !NameAt(s, "page") && !NameAt(s, "p")
    // "page" wins whenever it fits
    ensures r.Some? ==> (r.value.0 == 4 <==> NameAt(s, "page"))
    ensures r.Some? ==> (r.value.0 == 4 || r.value.0 == 1) && r.value.1 > 0
                        && r.value.0 + 1 + r.value.1 <= |s| && s[r.value.0] == '='
    ensures r.Some? ==> forall k :: r.value.0 + 1 <= k < r.value.0 + 1 + r.value.1 ==> IsDigit(s[k])
    // the digit run is as long as possible
    ensures r.Some? ==> r.value.0 + 1 + r.value.1 == |s| || !IsDigit(s[r.value.0 + 1 + r.value.1])
  {
    PageNameIff(s);
    PNameIff(s);
    if |s| > 5 && IsPageName(s) && s[4] == '=' && IsDigit(s[5]) then
      assert s[5..][0] == s[5];
      assert forall k :: 5 <= k < 5 + DigitRun(s[5..]) ==> s[k] == s[5..][k - 5];
      assert 5 + DigitRun(s[5..]) < |s| ==> s[5 + DigitRun(s[5..])] == s[5..][DigitRun(s[5..])];
      Some((4, DigitRun(s[5..])))
    else if |s| > 2 && ToLower(s[0]) == 'p' && s[1] == '=' && IsDigit(s[2]) then
      assert s[2..][0] == s[2];
      assert forall k :: 2 <= k < 2 + DigitRun(s[2..]) ==> s[k] == s[2..][k - 2];
      assert 2 + DigitRun(s[2..]) < |s| ==> s[2 + DigitRun(s[2..])] == s[2..][DigitRun(s[2..])];
      Some((1, DigitRun(s[2..])))
    else None
  }

  lemma PageNameIff(s: string)
    ensures NameAt(s, "page") <==> |s| > 5 && IsPageName(s) && s[4] == '=' && IsDigit(s[5])
  {
    if |s| > 5 {
      var l := Lower(s[..4]);
      assert l == [l[0], l[1], l[2], l[3]];
      assert "page" == ['p', 'a', 'g', 'e'];
    }
  }

  lemma PNameIff(s: string)
    ensures NameAt(s, "p") <==> |s| > 2 && ToLower(s[0]) == 'p' && s[1] == '=' && IsDigit(s[2])
  {
    if |s| > 2 {
      var l := Lower(s[..1]);
      assert l == [l[0]];
    }
  }

  /** A match of the parameter regex: where it starts, how long the name is
      and how many digits follow the '='. */
  datatype ParamMatch = ParamMatch(start: nat, nameLength: nat, digits: nat)

  /** `re.search`: the leftmost match at or after position `from`. */
  function FindParam(s: string, from: nat): (r: Option<ParamMatch>)
    requires from <= |s|
    ensures r.None? <==> forall i {:trigger ParamAt(s[i..])} :: from <= i <= |s| ==> ParamAt(s[i..]).None?
    ensures r.Some? ==> from <= r.value.start < |s|
                        && ParamAt(s[r.value.start..]) == Some((r.value.nameLength, r.value.digits))
                        && forall i {:trigger ParamAt(s[i..])} :: from <= i < r.value.start ==> ParamAt(s[i..]).None?
    decreases |s| - from
  {
    match ParamAt(s[from..])
    case Some((n, d)) => Some(ParamMatch(from, n, d))
    case None => if from == |s| then None else FindParam(s, from + 1)
  }

  function DigitChar(d: nat): (c: char)
    requires d < 10
    ensures IsDigit(c)
  {
    ('0' as int + d) as char
  }

  /** Python's `str(n)` for a non-negative integer. */
  function ShowNat(n: nat): (r: string)
    ensures |r| >= 1
    ensures forall i :: 0 <= i < |r| ==> IsDigit(r[i])
    ensures r[0] == '0' ==> r == "0"
  {
    if n < 10 then [DigitChar(n)] else ShowNat(n / 10) + [DigitChar(n % 10)]
  }

  /** Python's `int(ds)` for a run of ASCII digits (leading zeros allowed). */
  function ParseNat(ds: string): nat
    requires forall i :: 0 <= i < |ds| ==> IsDigit(ds[i])
  {
    if ds == [] then 0
    else
      assert IsDigit(ds[|ds| - 1]);
      ParseNat(ds[..|ds| - 1]) * 10 + (ds[|ds| - 1] as int - '0' as int)
  }

  /** Printing a number and reading it back gives the number. */
  lemma {:induction false} ParseShowNat(n: nat)
    ensures ParseNat(ShowNat(n)) == n
  {
    if n >= 10 {
      var r := ShowNat(n);
      assert r[..|r| - 1] == ShowNat(n / 10);
      ParseShowNat(n / 10);
    }
  }

  /** Python's `str.replace(old, new)` for a non-empty `old`, applied to
      `s` from position `i` on: every occurrence of `target`, scanning left
      to right without overlaps, becomes `repl`. */
  function ReplaceFrom(s: string, i: nat, target: string, repl: string): string
    requires i <= |s| && target != []
    decreases |s| - i
  {
    if StartsWith(s[i..], target) then repl + ReplaceFrom(s, i + |target|, target, repl)
    else if i == |s| then []
    else [s[i]] + ReplaceFrom(s, i + 1, target, repl)
  }

  /** Python's `str.replace(old, new)` for an empty `old`: `new` is
      inserted before every character and at the end. */
  function InsertAround(s: string, repl: string): string
  {
    if s == [] then repl else repl + [s[0]] + InsertAround(s[1..], repl)
  }

  /** Python's `str.replace(old, new)`. */
  function ReplaceAll(s: string, target: string, repl: string): string
  {
    if target == [] then InsertAround(s, repl) else ReplaceFrom(s, 0, target, repl)
  }

  /** Text with no occurrence of `target` is left as it is. */
  lemma {:induction false} ReplaceAllAbsent(s: string, i: nat, target: string, repl: string)
    requires target != [] && i <= |s|
    requires forall j {:trigger StartsWith(s[j..], target)} :: i <= j <= |s| ==> !StartsWith(s[j..], target)
    ensures ReplaceFrom(s, i, target, repl) == s[i..]
    decreases |s| - i
  {
    if i < |s| {
      assert !StartsWith(s[i..], target);
      ReplaceAllAbsent(s, i + 1, target, repl);
      assert [s[i]] + s[i + 1..] == s[i..];
    }
  }

  lemma ConsSlice(s: string, j: nat, k: nat)
    requires j < k <= |s|
    ensures [s[j]] + s[j + 1..k] == s[j..k]
  {
  }

  lemma ConsAssoc(c: char, kept: string, rest: string)
    ensures [c] + (kept + rest) == ([c] + kept) + rest
  {
  }

  /** Up to the first occurrence of `target` at or after `j`, found at `k`,
      the text is kept, that occurrence becomes `repl`, and the scan goes on
      after it. */
  lemma {:induction false} ReplaceFromFirst(s: string, j: nat, k: nat, target: string, repl: string)
    requires target != [] && j <= k && k + |target| <= |s| && StartsWith(s[k..], target)
    requires forall i {:trigger StartsWith(s[i..], target)} :: j <= i < k ==> !StartsWith(s[i..], target)
    ensures ReplaceFrom(s, j, target, repl) == s[j..k] + (repl + ReplaceFrom(s, k + |target|, target, repl))
    decreases k - j
  {
    if j == k {
      assert s[j..k] == [];
    } else {
      assert !StartsWith(s[j..], target);
      ReplaceFromFirst(s, j + 1, k, target, repl);
      ConsSlice(s, j, k);
      ConsAssoc(s[j], s[j + 1..k], repl + ReplaceFrom(s, k + |target|, target, repl));
    }
  }

  /** The text of a match at the start of `s`, and what it is rewritten
      to: the same name, '=', and the number plus one. */
  function MatchedText(s: string, n: nat, d: nat): string
    requires ParamAt(s) == Some((n, d))
  {
    s[..n + 1 + d]
  }

  function IncrementedText(s: string, n: nat, d: nat): string
    requires ParamAt(s) == Some((n, d))
  {
    s[..n + 1] + ShowNat(ParseNat(s[n + 1 .. n + 1 + d]) + 1)
  }

  /** Step 3 of `extract_next_page`: when "page" occurs in the URL without
      regard to case, the first `(page|p)=digits` match is found and every
      occurrence of its exact text is replaced by the name, '=', and the
      number plus one. */
  function IncrementPage(url: string): (r: Option<string>)
    ensures r.Some? <==> Contains(Lower(url), "page")
                         && exists i {:trigger ParamAt(url[i..])} :: 0 <= i <= |url| && ParamAt(url[i..]).Some?
  {
    if !Contains(Lower(url), "page") then None
    else match FindParam(url, 0)
      case None => None
      case Some(m) => Some(RewriteAt(url, m))
  }

  /** `url.replace(match, incremented)` for a match `m` of the parameter
      regex in `url`. */
  function RewriteAt(url: string, m: ParamMatch): string
    requires m.start <= |url| && ParamAt(url[m.start..]) == Some((m.nameLength, m.digits))
  {
    var s := url[m.start..];
    ReplaceAll(url, MatchedText(s, m.nameLength, m.digits), IncrementedText(s, m.nameLength, m.digits))
  }

  /** Any occurrence of a match's text is itself a match of the regex. */
  lemma OccurrenceIsMatch(s: string, n: nat, d: nat, u: string)
    requires ParamAt(s) == Some((n, d))
    requires StartsWith(u, MatchedText(s, n, d))
    ensures ParamAt(u).Some?
  {
    var t := MatchedText(s, n, d);
    assert |t| == n + 1 + d && |u| >= |t| && n + 1 < |t|;
    assert forall k :: 0 <= k < |t| ==> u[k] == t[k] == s[k];
    assert u[n] == s[n] && u[n + 1] == s[n + 1];
  }

  /** The text of the leftmost match does not occur earlier in the URL. */
  lemma NoEarlierOccurrence(url: string, m: ParamMatch)
    requires FindParam(url, 0) == Some(m)
    ensures var t := MatchedText(url[m.start..], m.nameLength, m.digits);
            forall i {:trigger StartsWith(url[i..], t)} :: 0 <= i < m.start ==> !StartsWith(url[i..], t)
  {
    var s := url[m.start..];
    var t := MatchedText(s, m.nameLength, m.digits);
    forall i | 0 <= i < m.start
      ensures !StartsWith(url[i..], t)
    {
      if StartsWith(url[i..], t) {
        OccurrenceIsMatch(s, m.nameLength, m.digits, url[i..]);
        assert false;
      }
    }
  }

  /** `str.replace` keeps the text up to the first occurrence, at `k`. */
  lemma ReplaceAtLeftmost(s: string, k: nat, target: string, repl: string)
    requires target != [] && k + |target| <= |s| && StartsWith(s[k..], target)
    requires forall i {:trigger StartsWith(s[i..], target)} :: 0 <= i < k ==> !StartsWith(s[i..], target)
    ensures ReplaceAll(s, target, repl) == s[..k] + (repl + ReplaceFrom(s, k + |target|, target, repl))
  {
    ReplaceFromFirst(s, 0, k, target, repl);
    assert s[0..k] == s[..k];
  }

  /** Rewriting at a match whose text does not occur earlier keeps the URL
      up to that match, turns it into the incremented number, and goes on
      replacing later copies of the same text. */
  lemma RewriteAtLeftmost(url: string, m: ParamMatch)
    requires m.start <= |url| && ParamAt(url[m.start..]) == Some((m.nameLength, m.digits))
    requires var t := MatchedText(url[m.start..], m.nameLength, m.digits);
             forall i {:trigger StartsWith(url[i..], t)} :: 0 <= i < m.start ==> !StartsWith(url[i..], t)
    ensures var s := url[m.start..];
            var t := MatchedText(s, m.nameLength, m.digits);
            var t' := IncrementedText(s, m.nameLength, m.digits);
            RewriteAt(url, m) == url[..m.start] + (t' + ReplaceFrom(url, m.start + |t|, t, t'))
  {
    var s := url[m.start..];
    var t := MatchedText(s, m.nameLength, m.digits);
    var t' := IncrementedText(s, m.nameLength, m.digits);
    assert StartsWith(url[m.start..], t);
    ReplaceAtLeftmost(url, m.start, t, t');
  }

  /** The same for the leftmost match of the regex. */
  lemma RewriteAtFirstMatch(url: string, m: ParamMatch)
    requires FindParam(url, 0) == Some(m)
    ensures var s := url[m.start..];
            var t := MatchedText(s, m.nameLength, m.digits);
            var t' := IncrementedText(s, m.nameLength, m.digits);
            RewriteAt(url, m) == url[..m.start] + (t' + ReplaceFrom(url, m.start + |t|, t, t'))
  {
    NoEarlierOccurrence(url, m);
    RewriteAtLeftmost(url, m);
  }

  /** When "page" occurs in the URL and the regex matches, the result is the
      rewrite at the leftmost match. */
  lemma IncrementPageRewritesFirstMatch(url: string, m: ParamMatch)
    requires Contains(Lower(url), "page") && FindParam(url, 0) == Some(m)
    ensures var s := url[m.start..];
            var t := MatchedText(s, m.nameLength, m.digits);
            var t' := IncrementedText(s, m.nameLength, m.digits);
            IncrementPage(url) == Some(url[..m.start] + (t' + ReplaceFrom(url, m.start + |t|, t, t')))
  {
    RewriteAtFirstMatch(url, m);
  }

  // ---------------------------------------------------------------------
  // The whole resolver
  // ---------------------------------------------------------------------

  /** The link `extract_next_page` returns: the keyword rules, the class
      rules, then the page-number rewrite, the first that succeeds. */
  function NextPageLink(page: Page, url: string): Option<string>
  {
    FirstSome(KeywordAttempts(page.anchors) + ClassAttempts(page.anchors) + [IncrementPage(url)])
  }

  /** Keyword anchors beat class anchors, class anchors beat the URL
      rewrite, and with none of the three there is no next link. */
  lemma NextLinkPriority(page: Page, url: string)
    ensures var byText := FirstSome(KeywordAttempts(page.anchors));
            var byClass := FirstSome(ClassAttempts(page.anchors));
            NextPageLink(page, url)
            == if byText.Some? then byText
               else if byClass.Some? then byClass
               else IncrementPage(url)
  {
    var ks := KeywordAttempts(page.anchors);
    var cs := ClassAttempts(page.anchors);
    var inc := [IncrementPage(url)];
    assert ks + cs + inc == ks + (cs + inc);
    FirstSomeAppend(ks, cs + inc);
    FirstSomeAppend(cs, inc);
    assert FirstSome(inc) == IncrementPage(url);
  }

  /** `extract_next_page`: the keyword loop, the class loop, then the URL
      rewrite, each consulted only when the ones before find nothing. */
  method ExtractNextPage(page: Page, url: string) returns (next: Option<string>)
    ensures next == NextPageLink(page, url)
  {
    NextLinkPriority(page, url);
    next := FindKeywordLink(page.anchors);
    if next.Some? {
      return;
    }
    next := FindClassLink(page.anchors);
    if next.Some? {
      return;
    }
    next := IncrementPage(url);
  }
}
