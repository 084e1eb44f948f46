/** The chapter-accumulating walk of NovelDownloader.py: `process_page`,
    `save_current_chapter` and `download_novel`.

    The downloader follows next links from page to page. Consecutive pages
    with the same chapter title are gathered into one chapter, and a chapter
    is appended to the output file when a page with another title arrives,
    and once more at the end of the walk. The functions below describe one
    step and the whole walk on values; the class `NovelDownloader` does the
    same by updating its fields and is proved to agree with them. */
module Walk {
  import opened Common
  import opened PageModel
  import opened TitleCleaning
  import opened ContentExtraction
  import opened NextLink

  /** What the downloader can reach: the parsed page each URL yields, where a
      URL is absent when fetching or parsing it raises; and `urljoin`. */
  datatype Web = Web(pages: map<string, Page>, join: (string, string) -> string)

  /** What `process_page` returns: `True` for a URL seen before, `False` when
      the page fails or has no content, otherwise the next link or None. */
  datatype PageResult = Visited | Failed | Next(link: Option<string>)

  /** A page that joined a chapter: its chapter title and its content. */
  datatype Entry = Entry(title: string, content: string)

  /** What processing a page draws from it: the entry, None when it has no
      content, and the link `process_page` returns after it. */
  datatype PageView = PageView(entry: Option<Entry>, link: Option<string>)

  /** The view of each URL that can be fetched and parsed. */
  type Site = map<string, PageView>

  /** A chapter as it is written: its title and its fragments in order. */
  datatype Chapter = Chapter(title: string, fragments: seq<string>)

  /** The downloader's fields, and the text of the output file. */
  datatype Book = Book(
    visited: set<string>,
    current: Option<string>,
    fragments: seq<string>,
    count: nat,
    file: string)

  /** The state of a new downloader. */
  const Initial: Book := Book({}, None, [], 0, [])

  // ---------------------------------------------------------------------
  // save_current_chapter
  // ---------------------------------------------------------------------

  /** What saving a chapter appends: the title line, then the fragments
      joined without separator on one line; nothing when the title is
      missing or empty or there are no fragments. */
  function Written(title: Option<string>, fragments: seq<string>): string
  {
    if title.None? || title.value == "" || fragments == [] then []
    else (title.value + "\n") + (Concat(fragments) + "\n")
  }

  /** `save_current_chapter`: appends the open chapter to the file. */
  function Flush(b: Book): Book
  {
    b.(file := b.file + Written(b.current, b.fragments))
  }

  /** Saving writes nothing exactly when the title is missing or empty or
      there are no fragments; otherwise it appends the title line and then
      the joined fragments on one line. */
  lemma FlushNoOpIff(b: Book)
    ensures Flush(b) == b <==> (b.current.None? || b.current.value == "" || b.fragments == [])
    ensures b.current.Some? && b.current.value != "" && b.fragments != [] ==>
              Flush(b).file == b.file + b.current.value + "\n" + Concat(b.fragments) + "\n"
  {
    var w := Written(b.current, b.fragments);
    if b.current.Some? && b.current.value != "" && b.fragments != [] {
      assert |w| > 0;
      assert |Flush(b).file| > |b.file|;
      assert b.file + w == b.file + b.current.value + "\n" + Concat(b.fragments) + "\n";
    } else {
      assert b.file + w == b.file;
    }
  }

  /** Saving does not close the chapter: a second save writes it again. */
  lemma FlushTwice(b: Book)
    ensures Flush(b).current == b.current && Flush(b).fragments == b.fragments
    ensures Flush(b).count == b.count && Flush(b).visited == b.visited
    ensures Flush(Flush(b)).file == b.file + Written(b.current, b.fragments) + Written(b.current, b.fragments)
  {
  }

  // ---------------------------------------------------------------------
  // process_page
  // ---------------------------------------------------------------------

  predicate IsAbsolute(link: string)
  {
    StartsWith(link, "http://") || StartsWith(link, "https://")
  }

  /** The link `process_page` returns: a non-empty link that is not absolute
      is resolved against the page's URL; an empty one stays as it is. */
  function Resolve(web: Web, url: string, link: Option<string>): (r: Option<string>)
    ensures r.Some? <==> link.Some?
    ensures link.Some? && (link.value == "" || IsAbsolute(link.value)) ==> r == link
    ensures link.Some? && link.value != "" && !IsAbsolute(link.value) ==> r == Some(web.join(url, link.value))
  {
    if link.Some? && link.value != "" && !IsAbsolute(link.value) then Some(web.join(url, link.value))
    else link
  }

  /** The entry a page yields: its title and its content, or None when the
      page has no content (None or empty). */
  function PageEntry(page: Page): Option<Entry>
  {
    match SelectContent(page)
    case None => None
    case Some(c) => if c == "" then None else Some(Entry(ExtractChapterTitle(page.h1, page.title), c))
  }

  /** The state after a page joins a chapter: a new title saves the open
      chapter and opens another, and the content is appended. */
  function AddEntry(b: Book, e: Entry): Book
  {
    var started := if Some(e.title) != b.current
      then Flush(b).(current := Some(e.title), fragments := [], count := b.count + 1)
      else b;
    started.(fragments := started.fragments + [e.content])
  }

  /** How `process_page` reads a page fetched from `url`. */
  function Read(web: Web, url: string, page: Page): PageView
  {
    PageView(PageEntry(page), Resolve(web, url, NextPageLink(page, url)))
  }

  /** The views of all the pages of the web. */
  function Views(web: Web): (site: Site)
    ensures site.Keys == web.pages.Keys
  {
    map url | url in web.pages :: Read(web, url, web.pages[url])
  }

  /** One call of `process_page`: the new state, the result, and the entry
      the page added to a chapter, if any. */
  datatype Stepped = Stepped(book: Book, result: PageResult, entry: Option<Entry>)

  function Step(site: Site, b: Book, url: string): Stepped
  {
    if url in b.visited then Stepped(b, Visited, None)
    else
      var marked := b.(visited := b.visited + {url});
      if url !in site then Stepped(marked, Failed, None)
      else
        var view := site[url];
        match view.entry
        case None => Stepped(marked, Failed, None)
        case Some(e) => Stepped(AddEntry(marked, e), Next(view.link), Some(e))
  }

  /** A visited URL is answered at once and changes nothing. Any other URL
      is marked visited before it is fetched, whatever happens next. */
  lemma StepVisitedGuard(site: Site, b: Book, url: string)
    ensures url in b.visited ==> Step(site, b, url).book == b && Step(site, b, url).result == Visited
    ensures url !in b.visited ==> Step(site, b, url).book.visited == b.visited + {url}
                                  && Step(site, b, url).result != Visited
  {
  }

  /** A page that fails or has no content leaves the chapter, the count and
      the file as they were; a page with content always adds an entry. */
  lemma StepFailedKeepsChapter(site: Site, b: Book, url: string)
    ensures var s := Step(site, b, url);
            s.result.Failed? <==> (url !in b.visited && (url !in site || site[url].entry.None?))
    ensures var s := Step(site, b, url);
            !s.result.Next? ==> s.book.(visited := b.visited) == b && s.entry.None?
    ensures var s := Step(site, b, url);
            s.result.Next? ==> s.entry.Some? && s.entry == site[url].entry && s.result.link == site[url].link
  {
  }

  /** A page whose title differs from the open chapter's saves that chapter,
      opens a new one holding just its content and counts it; a page with
      the same title only appends its content. */
  lemma StepChapterChange(site: Site, b: Book, url: string)
    requires url !in b.visited && url in site && site[url].entry.Some?
    ensures var e := site[url].entry.value;
            var s := Step(site, b, url).book;
            if Some(e.title) != b.current then
              s.file == b.file + Written(b.current, b.fragments)
              && s.current == Some(e.title) && s.fragments == [e.content] && s.count == b.count + 1
            else
              s.file == b.file && s.current == b.current
              && s.fragments == b.fragments + [e.content] && s.count == b.count
  {
  }

  // ---------------------------------------------------------------------
  // download_novel
  // ---------------------------------------------------------------------

  /** Whether `while current_url` goes on with the result of a page. */
  predicate Continues(r: PageResult)
  {
    r.Next? && r.link.Some? && r.link.value != ""
  }

  /** A walk ends with a state, the entries of its pages in visit order, and
      the URLs it fetched (every URL it did not find visited), in order. */
  datatype Walked = Walked(book: Book, entries: seq<Entry>, fetched: seq<string>)

  function Listed(e: Option<Entry>): seq<Entry>
  {
    if e.Some? then [e.value] else []
  }

  /** No step unmarks a URL, and a step that goes on has marked a URL of
      the site it had not seen. */
  lemma StepProgress(site: Site, b: Book, url: string)
    ensures b.visited <= Step(site, b, url).book.visited
    ensures Step(site, b, url).result.Next? ==> url in site && url !in b.visited
    ensures |site.Keys - Step(site, b, url).book.visited| <= |site.Keys - b.visited|
    ensures Step(site, b, url).result.Next? ==>
              |site.Keys - Step(site, b, url).book.visited| < |site.Keys - b.visited|
  {
    var after := Step(site, b, url).book.visited;
    if url !in b.visited {
      assert after == b.visited + {url};
      assert site.Keys - after == (site.Keys - b.visited) - {url};
    }
  }

  /** The `while current_url` loop from `url` on. Every page that goes on
      marks a URL of the web it had not seen, so the walk ends. */
  function Run(site: Site, b: Book, url: string): Walked
    decreases |site.Keys - b.visited|
  {
    if url == "" then Walked(b, [], [])
    else
      var s := Step(site, b, url);
      if Continues(s.result) then
        StepProgress(site, b, url);
        var w := Run(site, s.book, s.result.link.value);
        Walked(w.book, Listed(s.entry) + w.entries, [url] + w.fetched)
      else Walked(s.book, Listed(s.entry), if url in b.visited then [] else [url])
  }

  /** A walk processes each page of the site at most once: it yields no
      more entries than there are pages it has not visited. */
  lemma {:induction false} RunVisitsPagesOnce(site: Site, b: Book, url: string)
    ensures |Run(site, b, url).entries| <= |site.Keys - b.visited|
    decreases |site.Keys - b.visited|
  {
    if url != "" {
      var s := Step(site, b, url);
      RunUnfold(site, b, url);
      StepProgress(site, b, url);
      if Continues(s.result) {
        RunVisitsPagesOnce(site, s.book, s.result.link.value);
      }
    }
  }

  /** A walk never fetches a URL that was visited when it started. */
  lemma {:induction false} RunFetchesFresh(site: Site, b: Book, url: string)
    ensures forall u :: u in Run(site, b, url).fetched ==> u !in b.visited
    decreases |site.Keys - b.visited|
  {
    if url != "" {
      var s := Step(site, b, url);
      RunUnfold(site, b, url);
      if Continues(s.result) {
        StepProgress(site, b, url);
        var rest := Run(site, s.book, s.result.link.value).fetched;
        RunFetchesFresh(site, s.book, s.result.link.value);
        FetchedCons(url, rest);
      }
    }
  }

  /** A walk fetches each URL at most once. */
  lemma {:induction false} RunFetchesOnce(site: Site, b: Book, url: string)
    ensures var f := Run(site, b, url).fetched;
            forall i, j :: 0 <= i < j < |f| ==> f[i] != f[j]
    decreases |site.Keys - b.visited|
  {
    if url != "" {
      var s := Step(site, b, url);
      RunUnfold(site, b, url);
      if Continues(s.result) {
        StepProgress(site, b, url);
        StepMarks(site, b, url);
        var rest := Run(site, s.book, s.result.link.value).fetched;
        RunFetchesOnce(site, s.book, s.result.link.value);
        RunFetchesFresh(site, s.book, s.result.link.value);
        FetchedCons(url, rest);
      }
    }
  }

  /** A walk marks exactly the URLs it fetches. */
  lemma {:induction false} RunMarksFetched(site: Site, b: Book, url: string)
    ensures var w := Run(site, b, url);
            forall u :: u in w.book.visited <==> u in b.visited || u in w.fetched
    decreases |site.Keys - b.visited|
  {
    if url != "" {
      var s := Step(site, b, url);
      RunUnfold(site, b, url);
      StepMarks(site, b, url);
      if Continues(s.result) {
        StepProgress(site, b, url);
        var next := s.result.link.value;
        RunMarksFetched(site, s.book, next);
        FetchedCons(url, Run(site, s.book, next).fetched);
      }
    }
  }

  lemma StepMarks(site: Site, b: Book, url: string)
    ensures Step(site, b, url).book.visited == if url in b.visited then b.visited else b.visited + {url}
  {
  }

  /** Only a page of the site that was not visited yields an entry. */
  lemma StepFetches(site: Site, b: Book, url: string)
    ensures Step(site, b, url).entry.Some? ==> Step(site, b, url).result.Next?
    ensures Step(site, b, url).result.Next? ==> url in site && url !in b.visited
  {
  }

  lemma FetchedCons(url: string, rest: seq<string>)
    ensures forall i :: 1 <= i < |[url] + rest| ==> ([url] + rest)[i] == rest[i - 1]
    ensures forall u :: u in [url] + rest <==> u == url || u in rest
  {
  }

  /** Every URL a walk fetched but the last was a page of the site, and
      each entry comes from a fetched page. */
  lemma {:induction false} RunFetchesPages(site: Site, b: Book, url: string)
    ensures var w := Run(site, b, url);
            && (forall i :: 0 <= i < |w.fetched| - 1 ==> w.fetched[i] in site)
            && |w.entries| <= |w.fetched|
    decreases |site.Keys - b.visited|
  {
    if url != "" {
      var s := Step(site, b, url);
      RunUnfold(site, b, url);
      StepFetches(site, b, url);
      if Continues(s.result) {
        StepProgress(site, b, url);
        var rest := Run(site, s.book, s.result.link.value).fetched;
        RunFetchesPages(site, s.book, s.result.link.value);
        FetchedCons(url, rest);
      }
    }
  }

  /** The i-th entry of a walk is the entry of the i-th URL it fetched, and
      at most one fetched URL, the last, gave no entry. */
  lemma {:induction false} RunEntriesFetched(site: Site, b: Book, url: string)
    ensures var w := Run(site, b, url);
            && |w.entries| <= |w.fetched| <= |w.entries| + 1
            && forall i :: 0 <= i < |w.entries| ==>
                 w.fetched[i] in site && site[w.fetched[i]].entry == Some(w.entries[i])
    decreases |site.Keys - b.visited|
  {
    if url != "" {
      var s := Step(site, b, url);
      RunUnfold(site, b, url);
      StepEntry(site, b, url);
      if Continues(s.result) {
        StepProgress(site, b, url);
        var rest := Run(site, s.book, s.result.link.value);
        RunEntriesFetched(site, s.book, s.result.link.value);
        EntryCons(url, site[url].entry.value, rest.fetched, rest.entries);
      } else if s.result.Next? {
        StepFetches(site, b, url);
      }
    }
  }

  /** Putting one more fetched URL and its entry in front keeps each entry
      beside its URL. */
  lemma EntryCons(url: string, e: Entry, fetched: seq<string>, entries: seq<Entry>)
    requires |entries| <= |fetched|
    ensures forall i :: 1 <= i < 1 + |entries| ==>
              ([url] + fetched)[i] == fetched[i - 1] && ([e] + entries)[i] == entries[i - 1]
  {
  }

  /** A page that goes on has added the entry its view holds. */
  lemma StepEntry(site: Site, b: Book, url: string)
    ensures Step(site, b, url).result.Next? ==>
              url in site && Step(site, b, url).entry == site[url].entry && Listed(site[url].entry) == [site[url].entry.value]
    ensures !Step(site, b, url).result.Next? ==> Step(site, b, url).entry.None?
  {
  }

  /** `download_novel`: empty the file, walk, then save the last chapter. */
  function Download(site: Site, b: Book, start: string): Walked
  {
    var w := Run(site, b.(file := []), start);
    Walked(Flush(w.book), w.entries, w.fetched)
  }

  // ---------------------------------------------------------------------
  // What the file holds at the end of a walk
  // ---------------------------------------------------------------------

  /** The chapters a sequence of entries forms: consecutive entries with
      the same title make one chapter. */
  function Group(entries: seq<Entry>): seq<Chapter>
  {
    if entries == [] then [] else Extend(Group(entries[..|entries| - 1]), entries[|entries| - 1])
  }

  /** An entry continues the last chapter when it has the same title, and
      starts a chapter otherwise. */
  function Extend(chapters: seq<Chapter>, e: Entry): seq<Chapter>
  {
    if chapters != [] && chapters[|chapters| - 1].title == e.title
    then chapters[..|chapters| - 1] + [Chapter(e.title, chapters[|chapters| - 1].fragments + [e.content])]
    else chapters + [Chapter(e.title, [e.content])]
  }

  /** Every chapter has a fragment and neighbouring chapters have different
      titles. */
  predicate WellGrouped(chapters: seq<Chapter>)
  {
    (forall i :: 0 <= i < |chapters| ==> chapters[i].fragments != [])
    && forall i :: 0 < i < |chapters| ==> chapters[i - 1].title != chapters[i].title
  }

  /** The text that saving the chapters in order writes. */
  function Render(chapters: seq<Chapter>): string
  {
    if chapters == [] then []
    else
      var c := chapters[|chapters| - 1];
      Render(chapters[..|chapters| - 1]) + Written(Some(c.title), c.fragments)
  }

  /** All contents in order. */
  function Contents(entries: seq<Entry>): seq<string>
  {
    if entries == [] then [] else Contents(entries[..|entries| - 1]) + [entries[|entries| - 1].content]
  }

  /** All fragments of all chapters in order. */
  function Fragments(chapters: seq<Chapter>): seq<string>
  {
    if chapters == [] then [] else Fragments(chapters[..|chapters| - 1]) + chapters[|chapters| - 1].fragments
  }

  lemma ExtendFragments(chapters: seq<Chapter>, e: Entry)
    ensures Fragments(Extend(chapters, e)) == Fragments(chapters) + [e.content]
  {
    var x := Extend(chapters, e);
    assert x[..|x| - 1] == if chapters != [] && chapters[|chapters| - 1].title == e.title
                           then chapters[..|chapters| - 1] else chapters;
    if chapters != [] && chapters[|chapters| - 1].title == e.title {
      var init := chapters[..|chapters| - 1];
      assert init + [chapters[|chapters| - 1]] == chapters;
    }
  }

  /** Grouping keeps every content exactly once and in order. */
  lemma {:induction false} GroupKeepsContents(entries: seq<Entry>)
    ensures Fragments(Group(entries)) == Contents(entries)
  {
    if entries != [] {
      GroupKeepsContents(entries[..|entries| - 1]);
      ExtendFragments(Group(entries[..|entries| - 1]), entries[|entries| - 1]);
    }
  }

  lemma ExtendShape(chapters: seq<Chapter>, e: Entry)
    requires WellGrouped(chapters)
    ensures WellGrouped(Extend(chapters, e))
    ensures |Extend(chapters, e)| <= |chapters| + 1
    ensures Extend(chapters, e) != [] && Extend(chapters, e)[|Extend(chapters, e)| - 1].title == e.title
  {
  }

  /** Every chapter has a fragment, neighbouring chapters have different
      titles, there are no more chapters than entries, and the last chapter
      is the last entry's. */
  lemma {:induction false} GroupShape(entries: seq<Entry>)
    ensures WellGrouped(Group(entries))
    ensures |Group(entries)| <= |entries|
    ensures entries != [] ==> Group(entries) != [] && Group(entries)[|Group(entries)| - 1].title == entries[|entries| - 1].title
  {
    if entries != [] {
      GroupShape(entries[..|entries| - 1]);
      ExtendShape(Group(entries[..|entries| - 1]), entries[|entries| - 1]);
    }
  }

  /** The state matches the chapters of the entries seen so far: the last
      chapter is open, the ones before it are in the file, and all of them
      are counted. */
  predicate Agrees(b: Book, entries: seq<Entry>)
  {
    var g := Group(entries);
    if g == [] then b.current.None? && b.fragments == [] && b.count == 0 && b.file == []
    else
      b.current == Some(g[|g| - 1].title) && b.fragments == g[|g| - 1].fragments
      && b.count == |g| && b.file == Render(g[..|g| - 1])
  }

  lemma AddEntryAgrees(b: Book, entries: seq<Entry>, e: Entry)
    requires Agrees(b, entries)
    ensures Agrees(AddEntry(b, e), entries + [e])
  {
    var all := entries + [e];
    assert all[..|all| - 1] == entries;
    var g := Group(entries);
    var g' := Group(all);
    assert g' == Extend(g, e);
    if g != [] && g[|g| - 1].title == e.title {
      assert g'[..|g'| - 1] == g[..|g| - 1];
    } else {
      assert g'[..|g'| - 1] == g;
      if g != [] {
        assert g[..|g| - 1] + [g[|g| - 1]] == g;
      }
    }
  }

  /** The walk from `url` is its first page followed by the walk from the
      link that page returns. */
  lemma RunUnfold(site: Site, b: Book, url: string)
    requires url != ""
    ensures var s := Step(site, b, url);
            Continues(s.result) ==>
              Run(site, b, url).book == Run(site, s.book, s.result.link.value).book
              && Run(site, b, url).entries == Listed(s.entry) + Run(site, s.book, s.result.link.value).entries
              && Run(site, b, url).fetched == [url] + Run(site, s.book, s.result.link.value).fetched
    ensures var s := Step(site, b, url);
            !Continues(s.result) ==>
              Run(site, b, url) == Walked(s.book, Listed(s.entry), if url in b.visited then [] else [url])
  {
  }

  /** The chapter state after entries join chapters one after another. */
  function Play(b: Book, entries: seq<Entry>): Book
    decreases |entries|
  {
    if entries == [] then b else Play(AddEntry(b, entries[0]), entries[1..])
  }

  lemma {:induction false} PlayAppend(b: Book, xs: seq<Entry>, ys: seq<Entry>)
    ensures Play(b, xs + ys) == Play(Play(b, xs), ys)
    decreases |xs|
  {
    if xs == [] {
      assert xs + ys == ys;
    } else {
      assert (xs + ys)[0] == xs[0] && (xs + ys)[1..] == xs[1..] + ys;
      PlayAppend(AddEntry(b, xs[0]), xs[1..], ys);
    }
  }

  /** Joining entries to chapters never looks at the visited set. */
  lemma {:induction false} PlayVisited(b: Book, v: set<string>, entries: seq<Entry>)
    ensures Play(b.(visited := v), entries) == Play(b, entries).(visited := v)
    decreases |entries|
  {
    if entries != [] {
      assert AddEntry(b.(visited := v), entries[0]) == AddEntry(b, entries[0]).(visited := v);
      PlayVisited(AddEntry(b, entries[0]), v, entries[1..]);
    }
  }

  /** Apart from the visited set, a walk ends in the state its entries give
      when they join chapters one after another. */
  lemma {:induction false} RunPlays(site: Site, b: Book, url: string)
    ensures Play(b, Run(site, b, url).entries) == Run(site, b, url).book.(visited := b.visited)
    decreases |site.Keys - b.visited|
  {
    var r := Run(site, b, url);
    if url == "" {
      assert r.entries == [];
    } else {
      var s := Step(site, b, url);
      RunUnfold(site, b, url);
      if s.entry.Some? {
        var e := s.entry.value;
        assert s.book == AddEntry(b.(visited := b.visited + {url}), e);
        assert AddEntry(b, e) == s.book.(visited := b.visited);
        if Continues(s.result) {
          StepProgress(site, b, url);
          var w := Run(site, s.book, s.result.link.value);
          RunPlays(site, s.book, s.result.link.value);
          assert r.entries == [e] + w.entries;
          assert ([e] + w.entries)[0] == e && ([e] + w.entries)[1..] == w.entries;
          PlayVisited(s.book, b.visited, w.entries);
        } else {
          assert r.book == s.book && r.entries == [e];
          assert [e][1..] == [];
        }
      } else {
        assert r.book == s.book && r.entries == [];
      }
    }
  }

  /** Joining entries one after another keeps the state in agreement with
      the chapters they form. */
  lemma {:induction false} PlayAgrees(b: Book, entries: seq<Entry>)
    requires Agrees(b, [])
    ensures Agrees(Play(b, entries), entries)
    decreases |entries|
  {
    if entries != [] {
      var front := entries[..|entries| - 1];
      var e := entries[|entries| - 1];
      assert front + [e] == entries;
      PlayAppend(b, front, [e]);
      assert Play(Play(b, front), [e]) == AddEntry(Play(b, front), e);
      PlayAgrees(b, front);
      AddEntryAgrees(Play(b, front), front, e);
    }
  }

  /** The final save completes the file: every chapter of the walk is
      written once, in the order its pages were visited. */
  lemma FinalFlush(b: Book, entries: seq<Entry>)
    requires Agrees(b, entries)
    ensures Flush(b).file == Render(Group(entries))
  {
    var g := Group(entries);
    if g != [] {
      assert g[..|g| - 1] + [g[|g| - 1]] == g;
    }
  }

  /** A download by a new downloader writes exactly the chapters that the
      visited pages form, in order, and counts them, including chapters
      whose empty title keeps them out of the file. */
  lemma DownloadWritesChapters(site: Site, b: Book, start: string)
    requires b.current.None? && b.fragments == [] && b.count == 0
    ensures var d := Download(site, b, start);
            d.book.file == Render(Group(d.entries)) && d.book.count == |Group(d.entries)|
  {
    var cleared := b.(file := []);
    var w := Run(site, cleared, start);
    RunPlays(site, cleared, start);
    PlayAgrees(cleared, w.entries);
    assert Agrees(w.book, w.entries);
    FinalFlush(w.book, w.entries);
  }

  // ---------------------------------------------------------------------
  // The downloader object
  // ---------------------------------------------------------------------

  class NovelDownloader {
    var visitedUrls: set<string>
    var currentChapter: Option<string>
    var chapterContent: seq<string>
    var chapterCount: nat
    /** The text of the output file. */
    var output: string

    function Snapshot(): Book
      reads this
    {
      Book(visitedUrls, currentChapter, chapterContent, chapterCount, output)
    }

    constructor ()
      ensures Snapshot() == Initial
    {
      visitedUrls := {};
      currentChapter := None;
      chapterContent := [];
      chapterCount := 0;
      output := [];
    }

    /** `save_current_chapter`. */
    method SaveCurrentChapter()
      modifies this`output
      ensures Snapshot() == Flush(old(Snapshot()))
    {
      if currentChapter.None? || currentChapter.value == "" || chapterContent == [] {
        return;
      }
      output := output + (currentChapter.value + "\n");
      output := output + (Concat(chapterContent) + "\n");
    }

    /** The chapter bookkeeping of `process_page`: a new title saves the
        open chapter and starts another; the content is appended. */
    method AddContent(title: string, content: string)
      modifies this
      ensures Snapshot() == AddEntry(old(Snapshot()), Entry(title, content))
    {
      if Some(title) != currentChapter {
        SaveCurrentChapter();
        currentChapter := Some(title);
        chapterContent := [];
        chapterCount := chapterCount + 1;
      }
      chapterContent := chapterContent + [content];
    }

    /** `process_page`. */
    method ProcessPage(web: Web, url: string) returns (result: PageResult)
      modifies this
      ensures Snapshot() == Step(Views(web), old(Snapshot()), url).book
      ensures result == Step(Views(web), old(Snapshot()), url).result
    {
      ghost var site := Views(web);
      if url in visitedUrls {
        return Visited;
      }
      visitedUrls := visitedUrls + {url};
      if url !in web.pages {
        return Failed;
      }
      var page := web.pages[url];
      ghost var view := Read(web, url, page);
      assert site[url] == view;
      var title := ExtractChapterTitle(page.h1, page.title);
      var content := ExtractMainContent(page);
      if content.None? || content.value == "" {
        assert view.entry.None?;
        return Failed;
      }
      assert view.entry == Some(Entry(title, content.value));
      AddContent(title, content.value);
      var next := ExtractNextPage(page, url);
      if next.Some? && next.value != "" && !IsAbsolute(next.value) {
        next := Some(web.join(url, next.value));
      }
      assert next == view.link;
      return Next(next);
    }

    /** `download_novel`. */
    method DownloadNovel(web: Web, startUrl: string)
      modifies this
      ensures Snapshot() == Download(Views(web), old(Snapshot()), startUrl).book
    {
      output := [];
      ghost var site := Views(web);
      ghost var walked := Run(site, Snapshot(), startUrl).book;
      var url := startUrl;
      while url != ""
        invariant Run(site, Snapshot(), url).book == walked
        decreases |site.Keys - visitedUrls|, if url == "" then 0 else 1
      {
        ghost var before := Snapshot();
        RunUnfold(site, before, url);
        var result := ProcessPage(web, url);
        StepProgress(site, before, url);
        if Continues(result) {
          url := result.link.value;
        } else {
          url := "";
        }
      }
      SaveCurrentChapter();
    }
  }
}
