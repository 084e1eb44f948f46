# NovelDownloader in Dafny

A model of the crawler in `NovelDownloader.py`. Starting from one URL, the
downloader fetches a page, works out its chapter title and its body text,
follows the page's "next" link, and keeps going until no link is left, a
URL comes round a second time, or a page fails or has no content. Consecutive pages with the same title are
gathered into one chapter. A chapter is appended to the output file when a
page with another title arrives, and the last one is appended at the end.

The project covers:

- **Title cleaning**: `clean_chapter_title` and `extract_chapter_title`.
  Bracket spans and page markers are removed by left-to-right scanners that
  follow Python's `re.sub`. The text is then trimmed, and a `<title>` is cut
  at the site-name separator.
- **Body selection**: `extract_main_content`. Seven selectors are tried in
  order. A match counts only when its stripped text is longer than 100
  characters.
- **Next-link resolution**: `extract_next_page`. Keyword anchors are tried
  first, then class anchors, then a rewrite of the `page=`/`p=` number in the
  URL. `process_page` then resolves a relative link.
- **The walk**: `process_page`, `save_current_chapter` and `download_novel`.
  They form the class `Walk.NovelDownloader`. Its fields are updated in place
  and its methods are proved against the functions `Step`, `Flush` and
  `Download`. The output file is a string field.

The HTML parser is a foreign library. A page is therefore the record of the
answers the downloader asks of it (`PageModel.Page`):

- the stripped text of the first `<h1>` and of `<title>`;
- the first element each content selector finds;
- the anchors in document order, as they are left after the content
  extractor has removed the script, style, ins and iframe nodes of the
  element it chose (the next-link search reads the page after that).

Three facts about the code that a reader might not expect:

- saving a chapter does not clear it, so saving twice writes it twice
  (`Walk.FlushTwice`, `WalkExamples.FlushTwiceExample`);
- page markers are removed anywhere in a title, not only at its end
  (`TitleCleaning.StripPageMarkersChangesIff`);
- cleaning a title is not idempotent (`TitleExamples.CleanChapterTitleNotIdempotent`).

Modules:

- `Common`: character classes, `str.strip`, `str.lower` and `in`.
- `RuleChain`: the first rule that succeeds.
- `PageModel`: pages and selectors.
- `TitleCleaning` and `TitleExamples`.
- `ContentExtraction`.
- `NextLink` and `NextLinkExamples`.
- `Walk` and `WalkExamples`.

## Model

| member | source | states |
|---|---|---|
| Common.Strip | NovelDownloader.py:26 | `str.strip()`: the result is a slice of the input, no longer than it, and neither starts nor ends with whitespace |
| Common.ContainsIff | NovelDownloader.py:84 | the substring test `"page" in url` holds exactly when the text occurs at some position |
| RuleChain.FirstSome | NovelDownloader.py:58-66 | trying rules in order gives None exactly when every rule fails, and otherwise the answer of one of the rules |
| RuleChain.FirstSomeAppend | NovelDownloader.py:70-93 | a chain of two groups of rules consults the second group only when the first group yields nothing |
| ContentExtraction.SelectContent | NovelDownloader.py:58-66 | the body the selector rule chooses; specified by `SelectContentSpec` |
| ContentExtraction.SelectContentSpec | NovelDownloader.py:45-66 | the body is None exactly when no selector's first match has more than 100 stripped characters; otherwise it is the cleaned text of the first qualifying selector, and every earlier selector failed |
| ContentExtraction.ExtractMainContent | NovelDownloader.py:58-66 | the selector loop returns exactly the selection rule's choice |
| ContentExtraction.ThresholdExample | NovelDownloader.py:60 | a match of exactly 100 characters is skipped for a later selector, and the returned text is the cleaned text, which may be shorter |
| NextLink.Matches | NovelDownloader.py:72-81 | whether an anchor matches a keyword (its string equals the keyword up to case, allowing one final line break for `$`) or carries a class; used by `FirstMatch` |
| NextLink.FirstMatch | NovelDownloader.py:72-81 | `soup.find("a", ...)`; specified by `FirstMatchSpec` |
| NextLink.FirstMatchSpec | NovelDownloader.py:73 | `soup.find` returns None exactly when no anchor matches, and otherwise a matching anchor with no matching anchor before it |
| NextLink.HrefOf | NovelDownloader.py:74-75 | a found anchor gives a link exactly when its href is present and non-empty, and the link is that href |
| NextLink.FindKeywordLink | NovelDownloader.py:71-75 | the keyword loop returns the link of the first keyword whose first matching anchor has an href |
| NextLink.FindClassLink | NovelDownloader.py:78-81 | the class loop returns the link of the first class whose first anchor has an href |
| NextLink.ParamAt | NovelDownloader.py:85 | the pattern `(page\|p)=(\d+)` anchored at one position: no match exactly when neither "page" nor "p" (in any case) is followed there by '=' and a digit; otherwise the name is "page" whenever that alternative fits and "p" only when it does not, then '=', then the longest run of digits there |
| NextLink.FindParam | NovelDownloader.py:85 | `re.search` for `(page\|p)=(\d+)`: None exactly when the pattern matches at no position, otherwise the leftmost match |
| NextLink.ParseShowNat | NovelDownloader.py:87-90 | parsing the decimal text of a number gives the number back |
| NextLink.ReplaceFrom | NovelDownloader.py:88-91 | `str.replace` from a position on; specified by `ReplaceAllAbsent` and `ReplaceFromFirst` |
| NextLink.ReplaceAll | NovelDownloader.py:88-91 | `str.replace` on the whole URL; specified through `ReplaceFrom`'s lemmas and `IncrementPageRewritesFirstMatch` |
| NextLink.ReplaceAllAbsent | NovelDownloader.py:88 | `str.replace` leaves text without an occurrence of the target unchanged |
| NextLink.ReplaceFromFirst | NovelDownloader.py:88 | `str.replace` keeps the text before the first occurrence and puts the replacement in its place |
| NextLink.IncrementPage | NovelDownloader.py:84-93 | the URL rewrite gives a link exactly when the lowered URL contains "page" and the parameter pattern matches somewhere |
| NextLink.IncrementPageRewritesFirstMatch | NovelDownloader.py:84-91 | the rewrite keeps the URL up to the leftmost match, puts the name, '=' and the number plus one in its place, and replaces later copies of the same text |
| NextLink.NextPageLink | NovelDownloader.py:68-93 | the link `extract_next_page` returns; specified by `NextLinkPriority` |
| NextLink.NextLinkPriority | NovelDownloader.py:68-93 | keyword anchors beat class anchors, class anchors beat the URL rewrite, and with none of the three there is no link |
| NextLink.ExtractNextPage | NovelDownloader.py:68-93 | the three loops return exactly the prioritised link |
| NextLinkExamples.IncrementPageExample | NovelDownloader.py:83-91 | "/read?page=3" becomes "/read?page=4" |
| NextLinkExamples.IncrementPageNeedsPageWord | NovelDownloader.py:84 | "/book?p=2" has no next link: the short name `p` is matched only when "page" occurs in the URL |
| TitleCleaning.LazyClose | NovelDownloader.py:22 | the lazy `.*?` stops at the first closing bracket on the same line, and finds none exactly when the line holds none |
| TitleCleaning.StripBrackets | NovelDownloader.py:22 | the bracket pass, never longer than its input; specified by `LazyClose`, `BracketSpansRemoved`, `StripBracketsChars` and `StripBracketsPlain` (text without opening brackets passes unchanged) |
| TitleCleaning.BracketSpansRemoved | NovelDownloader.py:22 | after the bracket pass, an opening bracket that is left has no closing partner on its line; this holds of the bracket pass only, since the marker pass that follows can remove a line break between a pair (`TitleExamples.CleanChapterTitleJoinsBrackets`) |
| TitleCleaning.MarkerLength | NovelDownloader.py:24 | the length of the marker the greedy pattern removes at the start of the text, at least 2 and starting with a dash when positive; `MarkerLengthIff` says where it is positive and `MarkerLengthLongest` how far it reaches |
| TitleCleaning.MarkerLengthLongest | NovelDownloader.py:24 | what the scanner removes is a marker (a dash, whitespace, an optional '第', digits and at most one of 页/章/節), and no longer prefix of the text is one, as the greedy quantifiers demand; when it removes nothing, no prefix is a marker |
| TitleCleaning.MarkerLengthIff | NovelDownloader.py:24 | the marker pattern matches at a position exactly when a dash there is followed by whitespace, an optional '第' and a digit |
| TitleCleaning.StripPageMarkers | NovelDownloader.py:24 | the marker pass, never longer than its input; each marker it removes is the longest one starting there (`MarkerLengthLongest`); specified further by `StripPageMarkersChangesIff` and `StripPageMarkersChars` |
| TitleCleaning.StripPageMarkersChangesIff | NovelDownloader.py:24 | the marker pass changes its input, and makes it shorter, exactly when a marker starts somewhere in it |
| TitleCleaning.CleanChapterTitle | NovelDownloader.py:19-26 | the cleaned title is no longer than the input and has no whitespace at either end |
| TitleCleaning.CleanChapterTitleChars | NovelDownloader.py:19-26 | cleaning only removes characters: every character of the result occurs in the input |
| TitleCleaning.BeforeSeparator | NovelDownloader.py:40 | `re.split(...)[0]` is a prefix of the input without separators, ending at the first separator or at the end |
| TitleCleaning.ExtractChapterTitle | NovelDownloader.py:28-43 | `extract_chapter_title`; specified by `ExtractChapterTitleSpec` |
| TitleCleaning.ExtractChapterTitleSpec | NovelDownloader.py:28-43 | a non-empty h1 wins, cleaned but not cut; otherwise `<title>` is cut at the first separator and cleaned, leaving no separator; with neither, the sentinel |
| TitleExamples.CleanChapterTitleBracketExample | NovelDownloader.py:21-22 | "第一章 (2/3)" becomes "第一章" |
| TitleExamples.CleanChapterTitleMarkerExample | NovelDownloader.py:23-24 | "第一章 - 第2页" becomes "第一章" |
| TitleExamples.CleanChapterTitleJoinsBrackets | NovelDownloader.py:21-26 | "(-\n1)" keeps its brackets in the bracket pass, because a line break separates them, and the marker pass then removes "-\n1", so cleaning gives "()" |
| TitleExamples.CleanChapterTitleNotIdempotent | NovelDownloader.py:19-26 | cleaning "x-—1页2" gives "x-2", and cleaning that again gives "x" |
| TitleExamples.ExtractChapterTitleExample | NovelDownloader.py:28-43 | an h1 "A - B" is kept whole, a `<title>` "A - B" gives "A", and an empty h1 with an empty `<title>` gives the empty title, not the sentinel, which needs the `<title>` missing too |
| Walk.Flush | NovelDownloader.py:139-148 | `save_current_chapter` on values; specified by `FlushNoOpIff` and `FlushTwice` |
| Walk.FlushNoOpIff | NovelDownloader.py:139-148 | saving writes nothing exactly when there is no title, the title is empty or nothing is gathered; otherwise it appends the title line and the joined fragments |
| Walk.FlushTwice | NovelDownloader.py:139-148 | saving keeps the open chapter, so a second save writes it again |
| Walk.Resolve | NovelDownloader.py:129-133 | a non-empty link without http:// or https:// is joined to the page URL; any other link is returned as it is |
| Walk.PageEntry | NovelDownloader.py:111-116 | the title and body of a page, or None when the body is missing or empty; its parts are specified by `ExtractChapterTitleSpec` and `SelectContentSpec` |
| Walk.AddEntry | NovelDownloader.py:119-126 | the chapter bookkeeping of a page with content; specified by `StepChapterChange` and `AddEntryAgrees` |
| Walk.Step | NovelDownloader.py:95-137 | one call of `process_page` on values; specified by `StepVisitedGuard`, `StepFailedKeepsChapter`, `StepChapterChange` and `StepProgress` |
| Walk.StepVisitedGuard | NovelDownloader.py:97-100 | a visited URL changes nothing and answers `True`; any other URL is marked visited before it is fetched |
| Walk.StepFailedKeepsChapter | NovelDownloader.py:103-116 | a page that fails or has no content answers `False` and leaves the chapter, the count and the file alone; a page with content adds an entry and returns its link |
| Walk.StepChapterChange | NovelDownloader.py:118-126 | a new title saves the open chapter, opens one holding only the new content and counts it; the same title only appends |
| Walk.StepProgress | NovelDownloader.py:97-100 | the visited set only grows; a step that goes on fetched a page of the site it had not visited, so the number of unvisited pages of the site shrinks |
| Walk.Run | NovelDownloader.py:158-160 | the `while current_url` loop on values, with the entries and the fetched URLs in order; specified by the lemmas below |
| Walk.RunVisitsPagesOnce | NovelDownloader.py:158-160 | a walk yields no more entries than the site has pages not yet visited when it starts |
| Walk.RunFetchesFresh | NovelDownloader.py:97-100 | a walk never fetches a URL that was visited when it started |
| Walk.RunFetchesOnce | NovelDownloader.py:97-100 | a walk fetches each URL at most once: the fetched URLs are pairwise distinct |
| Walk.RunMarksFetched | NovelDownloader.py:97-100 | a walk adds to the visited set exactly the URLs it fetched |
| Walk.RunFetchesPages | NovelDownloader.py:114-137 | every URL a walk fetched except the last was a page of the site, and there are no more entries than fetched URLs |
| Walk.RunEntriesFetched | NovelDownloader.py:103-126 | the i-th entry of a walk is the entry of the page at the i-th fetched URL, and at most the last fetched URL gave no entry |
| Walk.GroupKeepsContents | NovelDownloader.py:119-126 | gathering pages into chapters keeps every content exactly once, in order |
| Walk.GroupShape | NovelDownloader.py:119-126 | every chapter has content, neighbouring chapters have different titles, there are no more chapters than pages, and the last chapter has the last page's title |
| Walk.RunPlays | NovelDownloader.py:158-160 | apart from the visited set, the loop ends in the state its pages' entries give when added one after another |
| Walk.PlayAgrees | NovelDownloader.py:119-126 | adding entries from a fresh state keeps the state in line with the chapters: earlier chapters in the file, the last one open, all of them counted |
| Walk.Download | NovelDownloader.py:152-163 | `download_novel` on values: empty the file, walk, save the last chapter; specified by `DownloadWritesChapters` |
| Walk.DownloadWritesChapters | NovelDownloader.py:152-164 | a download by a fresh downloader writes exactly the chapters its pages' entries form, in the order `RunEntriesFetched` ties to the fetched URLs, and counts them |
| Walk.NovelDownloader.constructor | NovelDownloader.py:14-17 | a new downloader has nothing visited, no chapter, no content and a count of zero |
| Walk.NovelDownloader.SaveCurrentChapter | NovelDownloader.py:139-148 | the file gains exactly what `Flush` appends, and nothing else changes |
| Walk.NovelDownloader.AddContent | NovelDownloader.py:119-126 | the chapter bookkeeping updates the fields as `AddEntry` says |
| Walk.NovelDownloader.ProcessPage | NovelDownloader.py:95-137 | the fields and the answer agree with one `Step` over the parsed pages |
| Walk.NovelDownloader.DownloadNovel | NovelDownloader.py:152-163 | the fields and the file agree with `Download`: empty the file, loop while there is a URL, save the last chapter |
| WalkExamples.WalkOfExample | NovelDownloader.py:158-160 | the walk over three pages whose last links back to the first fetches "u1", "u2" and "u3" once each and stops at the repeated URL |
| WalkExamples.DownloadExample | NovelDownloader.py:152-163 | two pages of "Chapter 1" and one of "Chapter 2" that link back to the first page give two chapters, and the cycle stops the walk |
| WalkExamples.FlushTwiceExample | NovelDownloader.py:139-148 | saving the same open chapter twice writes it twice |
| WalkExamples.EmptyTitleExample | NovelDownloader.py:119-126 | a chapter with an empty title is counted but never written |

## Left out

- HTTP: the session, the User-Agent header, `time.sleep`, the timeout and encoding detection are not modelled. A page is either in `Web.pages` or treated as one whose fetch raised.
- HTML parsing (BeautifulSoup, `get_text`, `decompose`) is not modelled. A page is the record of what the downloader reads from it, including each selector's first match before and after non-content nodes are removed.
- The selector patterns `read|text|article` and `content|chapter` are not matched against classes and ids. They are part of the parser's answer.
- `urljoin` is a parameter of `Web` (`join`). Its RFC 3986 resolution is not modelled.
- File I/O: the output file is the string `output`. Encoding, open and append failures, and the `except` branch's reaction to them are not modelled.
- The `except Exception` branch is modelled only as the page being absent from `Web.pages`. An exception raised after the chapter state has changed is not modelled.
- `print`, the command line (`parse_arguments`, `main`, the unused `--timeout`) and `KeyboardInterrupt` are not modelled.
- Walk.NovelDownloader.DownloadNovel: after `process_page` answers `True`, the Python loop calls `process_page(True)`, which adds `True` to the visited set, fails to fetch and answers `False`. The model ends the loop at once and does not add the extra non-URL element to the visited set.
- Walk.Run: the walk is over a finite map of pages, so every modelled walk ends. The Python `while current_url` loop has no bound: on a site that serves a page for every `page=N`, the rewrite of the page number yields a new URL each time and the loop never ends, because the visited set stops only cycles. Such an endless walk is not modelled.
- NextLink.FindParam: `\d` is limited to ASCII digits. Python also accepts other Unicode decimal digits.
- Common.Lower: case folding covers ASCII letters only. This is exact for the keywords and names compared ("Next", "page", "p").
