/** The title normaliser (`clean_chapter_title`) and the title extractor
    (`extract_chapter_title`) of NovelDownloader.py.

    Both regular expressions of the normaliser are deterministic when scanned
    left to right, so each `re.sub` is written as a scanner that, at every
    position, either removes the match that starts there or keeps one
    character and moves on; an independent description of "a match starts
    here" is proved to agree with each scanner. */
module TitleCleaning {
  import opened Common

  // ---------------------------------------------------------------------
  // Pass 1: `re.sub(r"\(.*?\)|（.*?）|【.*?】", "", title)`
  // ---------------------------------------------------------------------

  /** The closing bracket the bracket pass pairs with an opening one. */
  function Closer(c: char): (r: Option<char>)
    ensures r.Some? <==> c in {'(', '（', '【'}
  {
    if c == '(' then Some(')')
    else if c == '（' then Some('）')
    else if c == '【' then Some('】')
    else None
  }

  /** The text before the first line break: what `.` can range over. */
  function Line(s: string): string
  {
    if s == [] || s[0] == '\n' then [] else [s[0]] + Line(s[1..])
  }

  /** The lazy `.*?` followed by the closing bracket: the index of the first
      `close` in `s`, provided no line break comes before it. */
  function LazyClose(s: string, close: char): (r: Option<nat>)
    ensures r.Some? ==> r.value < |s| && s[r.value] == close
    ensures r.Some? ==> forall i :: 0 <= i < r.value ==> s[i] != '\n' && s[i] != close
    ensures r.None? <==> close !in Line(s)
  {
    if s == [] || s[0] == '\n' then None
    else if s[0] == close then Some(0)
    else
      assert Line(s) == [s[0]] + Line(s[1..]);
      match LazyClose(s[1..], close)
      case None => None
      case Some(k) =>
        assert forall i :: 1 <= i < k + 1 ==> s[i] == s[1..][i - 1];
        Some(k + 1)
  }

  /** Removes, left to right, every bracket span that stays on one line. */
  function StripBrackets(s: string): (r: string)
    ensures |r| <= |s|
    decreases |s|
  {
    if s == [] then []
    else match Closer(s[0])
      case None => [s[0]] + StripBrackets(s[1..])
      case Some(close) =>
        match LazyClose(s[1..], close)
        case None => [s[0]] + StripBrackets(s[1..])
        case Some(k) => StripBrackets(s[k + 2..])
  }

  lemma {:induction false} LineOfAppend(a: string, b: string)
    requires forall i :: 0 <= i < |a| ==> a[i] != '\n'
    ensures Line(a + b) == a + Line(b)
  {
    if a != [] {
      assert (a + b)[1..] == a[1..] + b;
      LineOfAppend(a[1..], b);
    } else {
      assert a + b == b;
    }
  }

  /** A bracket span found by the lazy match holds no line break. */
  lemma SpanHasNoBreak(t: string, k: nat)
    requires t != [] && Closer(t[0]).Some? && LazyClose(t[1..], Closer(t[0]).value) == Some(k)
    ensures k + 2 <= |t| && forall i :: 0 <= i < k + 2 ==> t[i] != '\n'
  {
    forall i | 1 <= i < k + 2
      ensures t[i] != '\n'
    {
      assert t[i] == t[1..][i - 1];
    }
  }

  /** A prefix without line breaks is part of the first line. */
  lemma LineOfPrefix(t: string, n: nat)
    requires n <= |t| && forall i :: 0 <= i < n ==> t[i] != '\n'
    ensures Line(t) == t[..n] + Line(t[n..])
  {
    var span, rest := t[..n], t[n..];
    assert t == span + rest;
    LineOfAppend(span, rest);
  }

  /** If no `close` lies on the first line, the bracket pass cannot bring one
      there: it only deletes spans that contain no line break. */
  lemma {:induction false} StripBracketsKeepsLineFree(t: string, close: char)
    requires close !in Line(t)
    ensures close !in Line(StripBrackets(t))
    decreases |t|
  {
    if t == [] {
    } else if Closer(t[0]).Some? && LazyClose(t[1..], Closer(t[0]).value).Some? {
      var k := LazyClose(t[1..], Closer(t[0]).value).value;
      SpanHasNoBreak(t, k);
      LineOfPrefix(t, k + 2);
      assert StripBrackets(t) == StripBrackets(t[k + 2..]);
      StripBracketsKeepsLineFree(t[k + 2..], close);
    } else if t[0] == '\n' {
    } else {
      assert Line(t) == [t[0]] + Line(t[1..]);
      StripBracketsKeepsLineFree(t[1..], close);
    }
  }

  /** Every bracket span that does not cross a line break is removed: an
      opening bracket that survives the pass has no partner on its line. */
  lemma {:induction false} BracketSpansRemoved(s: string)
    ensures forall i :: 0 <= i < |StripBrackets(s)| && Closer(StripBrackets(s)[i]).Some? ==>
              Closer(StripBrackets(s)[i]).value !in Line(StripBrackets(s)[i + 1..])
    decreases |s|
  {
    var r := StripBrackets(s);
    if s == [] {
    } else if Closer(s[0]).Some? && LazyClose(s[1..], Closer(s[0]).value).Some? {
      var k := LazyClose(s[1..], Closer(s[0]).value).value;
      BracketSpansRemoved(s[k + 2..]);
    } else {
      var rest := StripBrackets(s[1..]);
      assert r == [s[0]] + rest;
      BracketSpansRemoved(s[1..]);
      forall i | 0 <= i < |r| && Closer(r[i]).Some?
        ensures Closer(r[i]).value !in Line(r[i + 1..])
      {
        if i == 0 {
          StripBracketsKeepsLineFree(s[1..], Closer(s[0]).value);
          assert r[1..] == rest;
        } else {
          assert r[i] == rest[i - 1] && r[i + 1..] == rest[i..];
        }
      }
    }
  }

  // ---------------------------------------------------------------------
  // Pass 2: `re.sub(r"[-—]\s*第?[0-9]+[页章節]?", "", title)`
  // ---------------------------------------------------------------------

  predicate IsDash(c: char)
  {
    c == '-' || c == '—'
  }

  /** The optional unit after the page number: page, chapter or section. */
  predicate IsUnit(c: char)
  {
    c == '页' || c == '章' || c == '節'
  }

  /** A page marker starts `s`: a dash, then whitespace, then digits,
      possibly preceded by '第'. This is what the regex can match at all,
      stated with a free choice of where the whitespace ends. */
  ghost predicate StartsWithMarker(s: string)
  {
    |s| > 0 && IsDash(s[0]) &&
    exists w :: 1 <= w < |s| && (forall i :: 1 <= i < w ==> IsSpace(s[i])) &&
      (IsDigit(s[w]) || (s[w] == '第' && w + 1 < |s| && IsDigit(s[w + 1])))
  }

  /** Length of the marker the greedy regex removes at the start of `s`,
      or 0 when none starts there. */
  function MarkerLength(s: string): (n: nat)
    ensures n <= |s|
    ensures n > 0 ==> n >= 2 && IsDash(s[0])
  {
    if s == [] || !IsDash(s[0]) then 0
    else
      var w := 1 + LeadingSpaces(s[1..]);
      var d := if w < |s| && s[w] == '第' then w + 1 else w;
      var k := DigitRun(s[d..]);
      if k == 0 then 0
      else if d + k < |s| && IsUnit(s[d + k]) then d + k + 1
      else d + k
  }

  /** Where the whitespace after the dash ends. */
  lemma DashGap(s: string)
    requires |s| > 0
    ensures 1 + LeadingSpaces(s[1..]) <= |s|
    ensures forall i :: 1 <= i < 1 + LeadingSpaces(s[1..]) ==> IsSpace(s[i])
    ensures 1 + LeadingSpaces(s[1..]) < |s| ==> !IsSpace(s[1 + LeadingSpaces(s[1..])])
  {
    var w := 1 + LeadingSpaces(s[1..]);
    forall i | 1 <= i < w
      ensures IsSpace(s[i])
    {
      assert s[i] == s[1..][i - 1];
    }
    if w < |s| {
      assert s[w] == s[1..][w - 1];
    }
  }

  lemma MarkerLengthSound(s: string)
    requires MarkerLength(s) > 0
    ensures StartsWithMarker(s)
  {
    DashGap(s);
    var w := 1 + LeadingSpaces(s[1..]);
    var d := if w < |s| && s[w] == '第' then w + 1 else w;
    assert s[d..][0] == s[d];
  }

  lemma MarkerCharNotSpace(c: char)
    requires IsDigit(c) || c == '第'
    ensures !IsSpace(c)
  {
  }

  /** The whitespace after a dash ends at the first non-space character. */
  lemma GapEndsAt(s: string, v: nat)
    requires 1 <= v < |s| && forall i :: 1 <= i < v ==> IsSpace(s[i])
    requires !IsSpace(s[v])
    ensures 1 + LeadingSpaces(s[1..]) == v
  {
    DashGap(s);
    var w := 1 + LeadingSpaces(s[1..]);
    assert w <= v < |s|;
    assert !IsSpace(s[w]);
  }

  /** The whitespace of a marker ends where the scanner looks for digits. */
  lemma MarkerGapEnd(s: string)
    requires StartsWithMarker(s)
    ensures var w := 1 + LeadingSpaces(s[1..]);
      w < |s| && (IsDigit(s[w]) || (s[w] == '第' && w + 1 < |s| && IsDigit(s[w + 1])))
  {
    var v :| 1 <= v < |s| && (forall i :: 1 <= i < v ==> IsSpace(s[i])) &&
      (IsDigit(s[v]) || (s[v] == '第' && v + 1 < |s| && IsDigit(s[v + 1])));
    MarkerCharNotSpace(s[v]);
    GapEndsAt(s, v);
  }

  lemma MarkerLengthComplete(s: string)
    requires StartsWithMarker(s)
    ensures MarkerLength(s) > 0
  {
    MarkerGapEnd(s);
    var w := 1 + LeadingSpaces(s[1..]);
    var d := if s[w] == '第' then w + 1 else w;
    assert s[d..][0] == s[d];
    assert DigitRun(s[d..]) > 0;
  }

  /** The greedy scanner finds a marker exactly where one starts. */
  lemma MarkerLengthIff(s: string)
    ensures MarkerLength(s) > 0 <==> StartsWithMarker(s)
  {
    if MarkerLength(s) > 0 {
      MarkerLengthSound(s);
    }
    if StartsWithMarker(s) {
      MarkerLengthComplete(s);
    }
  }

  /** `m` is, as a whole, a text the marker pattern matches: a dash, spaces
      up to `w`, an optional '第' up to `d`, digits up to `e` and at most one
      unit after them. */
  predicate MarkerParts(m: string, w: nat, d: nat, e: nat)
  {
    1 <= w <= d < e <= |m| && IsDash(m[0])
    && (forall i :: 1 <= i < w ==> IsSpace(m[i]))
    && (d == w || (d == w + 1 && m[w] == '第'))
    && (forall i :: d <= i < e ==> IsDigit(m[i]))
    && (|m| == e || (|m| == e + 1 && IsUnit(m[e])))
  }

  ghost predicate IsMarker(m: string)
  {
    exists w, d, e :: MarkerParts(m, w, d, e)
  }

  /** The prefix the scanner removes is a marker. */
  lemma MarkerLengthParts(s: string)
    requires MarkerLength(s) > 0
    ensures IsMarker(s[..MarkerLength(s)])
  {
    DashGap(s);
    var n := MarkerLength(s);
    var w := 1 + LeadingSpaces(s[1..]);
    var d := if w < |s| && s[w] == '第' then w + 1 else w;
    var k := DigitRun(s[d..]);
    var m := s[..n];
    assert forall i :: d <= i < d + k ==> m[i] == s[d..][i - d];
    assert MarkerParts(m, w, d, d + k);
  }

  /** The parts of a marker prefix, read off `s` itself. */
  lemma PrefixParts(s: string, n: nat, w: nat, d: nat, e: nat)
    requires n <= |s| && MarkerParts(s[..n], w, d, e)
    ensures 1 <= w <= d < e <= n && IsDash(s[0])
    ensures forall i :: 1 <= i < w ==> IsSpace(s[i])
    ensures d == w || (d == w + 1 && s[w] == '第')
    ensures forall j :: 0 <= j < e - d ==> IsDigit(s[d..][j])
    ensures n == e || (n == e + 1 && IsUnit(s[e]))
  {
    var m := s[..n];
    assert forall i :: 0 <= i < n ==> m[i] == s[i];
    assert forall j :: 0 <= j < e - d ==> s[d..][j] == m[d + j];
  }

  /** Every prefix of `s` that is a marker is at most as long as the one the
      scanner removes. */
  lemma MarkerPrefixBound(s: string, n: nat, w: nat, d: nat, e: nat)
    requires n <= |s| && MarkerParts(s[..n], w, d, e)
    ensures n <= MarkerLength(s)
  {
    PrefixParts(s, n, w, d, e);
    MarkerCharNotSpace(s[w]);
    GapEndsAt(s, w);
    assert d == if w < |s| && s[w] == '第' then w + 1 else w;
    var k := DigitRun(s[d..]);
    assert e - d <= k;
    MarkerLengthAfterDigits(s, d);
    if n == e + 1 && e == d + k {
      assert IsUnit(s[d + k]);
    }
  }

  /** Where the scanner ends once it knows where the digits start. */
  lemma MarkerLengthAfterDigits(s: string, d: nat)
    requires |s| > 0 && IsDash(s[0])
    requires d == var w := 1 + LeadingSpaces(s[1..]); if w < |s| && s[w] == '第' then w + 1 else w
    ensures var k := DigitRun(s[d..]);
            k > 0 ==> d + k <= MarkerLength(s)
                      && (d + k < |s| && IsUnit(s[d + k]) ==> MarkerLength(s) == d + k + 1)
  {
  }

  /** The scanner removes the longest prefix the marker pattern matches, as
      the greedy `\s*`, `[0-9]+` and `[页章節]?` do, and nothing when no
      prefix matches. */
  lemma MarkerLengthLongest(s: string)
    ensures MarkerLength(s) > 0 ==> IsMarker(s[..MarkerLength(s)])
    ensures forall n :: MarkerLength(s) < n <= |s| ==> !IsMarker(s[..n])
  {
    if MarkerLength(s) > 0 {
      MarkerLengthParts(s);
    }
    forall n | MarkerLength(s) < n <= |s|
      ensures !IsMarker(s[..n])
    {
      if IsMarker(s[..n]) {
        var w, d, e :| MarkerParts(s[..n], w, d, e);
        MarkerPrefixBound(s, n, w, d, e);
      }
    }
  }

  /** Removes, left to right, every page marker anywhere in `s`. */
  function StripPageMarkers(s: string): (r: string)
    ensures |r| <= |s|
    decreases |s|
  {
    if s == [] then []
    else if MarkerLength(s) > 0 then StripPageMarkers(s[MarkerLength(s)..])
    else [s[0]] + StripPageMarkers(s[1..])
  }

  ghost predicate HasMarker(s: string)
  {
    exists i :: 0 <= i < |s| && StartsWithMarker(s[i..])
  }

  /** The marker pass changes its input exactly when a marker starts
      somewhere in it, at the end or anywhere else. */
  lemma {:induction false} StripPageMarkersChangesIff(s: string)
    ensures StripPageMarkers(s) == s <==> !HasMarker(s)
    ensures |StripPageMarkers(s)| < |s| <==> HasMarker(s)
    decreases |s|
  {
    if s == [] {
    } else {
      MarkerLengthIff(s);
      if MarkerLength(s) > 0 {
        assert s[0..] == s;
        assert HasMarker(s);
      } else {
        StripPageMarkersChangesIff(s[1..]);
        if HasMarker(s) {
          var i :| 0 <= i < |s| && StartsWithMarker(s[i..]);
          assert i != 0;
          assert s[1..][i - 1..] == s[i..];
        }
        if HasMarker(s[1..]) {
          var i :| 0 <= i < |s[1..]| && StartsWithMarker(s[1..][i..]);
          assert s[1..][i..] == s[i + 1..];
        }
      }
    }
  }

  // ---------------------------------------------------------------------
  // clean_chapter_title
  // ---------------------------------------------------------------------

  /** `clean_chapter_title`: the bracket pass, the marker pass, then strip. */
  function CleanChapterTitle(title: string): (r: string)
    ensures |r| <= |title|
    ensures r == [] || (!IsSpace(r[0]) && !IsSpace(r[|r| - 1]))
  {
    Strip(StripPageMarkers(StripBrackets(title)))
  }

  /** Every character the cleaner keeps comes from its input. */
  lemma {:induction false} StripBracketsChars(s: string)
    ensures forall c :: c in StripBrackets(s) ==> c in s
    decreases |s|
  {
    if s != [] {
      if Closer(s[0]).Some? && LazyClose(s[1..], Closer(s[0]).value).Some? {
        var k := LazyClose(s[1..], Closer(s[0]).value).value;
        StripBracketsChars(s[k + 2..]);
      } else {
        StripBracketsChars(s[1..]);
      }
    }
  }

  lemma {:induction false} StripPageMarkersChars(s: string)
    ensures forall c :: c in StripPageMarkers(s) ==> c in s
    decreases |s|
  {
    if s != [] {
      if MarkerLength(s) > 0 {
        StripPageMarkersChars(s[MarkerLength(s)..]);
      } else {
        StripPageMarkersChars(s[1..]);
      }
    }
  }

  lemma CleanChapterTitleChars(title: string)
    ensures forall c :: c in CleanChapterTitle(title) ==> c in title
  {
    StripBracketsChars(title);
    StripPageMarkersChars(StripBrackets(title));
  }

  /** Text without opening brackets passes the bracket pass unchanged. */
  lemma {:induction false} StripBracketsPlainPrefix(p: string, t: string)
    requires forall i :: 0 <= i < |p| ==> Closer(p[i]).None?
    ensures StripBrackets(p + t) == p + StripBrackets(t)
  {
    if p != [] {
      var x := p + t;
      assert x[0] == p[0] && x[1..] == p[1..] + t;
      assert StripBrackets(x) == [p[0]] + StripBrackets(x[1..]);
      StripBracketsPlainPrefix(p[1..], t);
      ConsSplit(p, StripBrackets(t));
    } else {
      assert p + t == t;
    }
  }

  lemma StripBracketsPlain(p: string)
    requires forall i :: 0 <= i < |p| ==> Closer(p[i]).None?
    ensures StripBrackets(p) == p
  {
    StripBracketsPlainPrefix(p, []);
    assert p + [] == p;
  }

  /** Text without dashes passes the marker pass unchanged. */
  lemma {:induction false} StripPageMarkersPlainPrefix(p: string, t: string)
    requires forall i :: 0 <= i < |p| ==> !IsDash(p[i])
    ensures StripPageMarkers(p + t) == p + StripPageMarkers(t)
  {
    if p != [] {
      var x := p + t;
      assert x[0] == p[0] && x[1..] == p[1..] + t;
      assert MarkerLength(x) == 0;
      assert StripPageMarkers(x) == [p[0]] + StripPageMarkers(x[1..]);
      StripPageMarkersPlainPrefix(p[1..], t);
      ConsSplit(p, StripPageMarkers(t));
    } else {
      assert p + t == t;
    }
  }

  // ---------------------------------------------------------------------
  // extract_chapter_title
  // ---------------------------------------------------------------------

  /** The sentinel for a page with neither a usable h1 nor a title element. */
  const Untitled: string := "未命名章节"

  /** The characters of the class `[-|_|—]` used to cut off the site name. */
  predicate IsTitleSeparator(c: char)
  {
    c == '-' || c == '|' || c == '_' || c == '—'
  }

  /** `re.split(r"[-|_|—]", s)[0]`: the text before the first separator. */
  function BeforeSeparator(s: string): (r: string)
    ensures r <= s
    ensures forall c :: c in r ==> !IsTitleSeparator(c)
    ensures |r| == |s| || IsTitleSeparator(s[|r|])
  {
    if s == [] || IsTitleSeparator(s[0]) then [] else [s[0]] + BeforeSeparator(s[1..])
  }

  /** `extract_chapter_title`, given the stripped text of the first `<h1>`
      and of the `<title>` element, each absent when the page has none. */
  function ExtractChapterTitle(h1: Option<string>, title: Option<string>): string
  {
    if h1.Some? && h1.value != "" then CleanChapterTitle(h1.value)
    else if title.Some? then CleanChapterTitle(Strip(BeforeSeparator(title.value)))
    else Untitled
  }

  lemma ExtractChapterTitleSpec(h1: Option<string>, title: Option<string>)
    // a non-empty h1 wins, cleaned but not split at separators
    ensures h1.Some? && h1.value != "" ==> ExtractChapterTitle(h1, title) == CleanChapterTitle(h1.value)
    // otherwise the title element is used: cut before the first separator,
    // so none of the separators is left, and the result may be empty
    ensures !(h1.Some? && h1.value != "") && title.Some? ==>
              ExtractChapterTitle(h1, title) == CleanChapterTitle(Strip(BeforeSeparator(title.value)))
              && forall c :: c in ExtractChapterTitle(h1, title) ==> !IsTitleSeparator(c)
    // with neither, the sentinel
    ensures !(h1.Some? && h1.value != "") && title.None? ==> ExtractChapterTitle(h1, title) == Untitled
  {
    if !(h1.Some? && h1.value != "") && title.Some? {
      CleanChapterTitleChars(Strip(BeforeSeparator(title.value)));
    }
  }
}
