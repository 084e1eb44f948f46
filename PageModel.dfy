/** What the downloader reads from one parsed HTML page. The HTML parser is a
    foreign library, so a page is given by the answers the downloader asks
    of it: the texts of its first `<h1>` and of its `<title>`, the first
    element each content selector finds, and its anchors in document order
    as they are left once the chosen content element has been cleaned. */
module PageModel {
  import opened Common

  /** The structural selectors of `extract_main_content`, as a tagged
      enumeration of match strategies. */
  datatype Selector =
    | ById(tag: string, id: string)
    | ByClass(tag: string, cls: string)
    | ByTag(tag: string)
    | ClassPattern(tag: string, pattern: string)
    | IdPattern(tag: string, pattern: string)

  /** The selectors in the order they are tried. */
  const Selectors: seq<Selector> := [
    ById("div", "content"),
    ByClass("div", "content"),
    ById("div", "chapter-content"),
    ByClass("div", "chapter-content"),
    ByTag("article"),
    ClassPattern("div", "read|text|article"),
    IdPattern("div", "content|chapter")
  ]

  /** The first element a selector finds: its stripped text before any node
      is removed (what the length threshold measures), and its text joined
      by line breaks after script, style, ins and iframe nodes are removed
      (what is returned). */
  datatype Candidate = Candidate(rawText: string, text: string)

  /** An `<a>` element: its `.string` (absent when it has more than one
      child), its classes, and its href attribute (absent when missing). */
  datatype Anchor = Anchor(text: Option<string>, classes: seq<string>, href: Option<string>)

  /** h1 and title hold the stripped text of the first `<h1>` and of the
      `<title>` element, absent when the page has none; firstMatch maps each
      selector that finds something to the first element it finds; anchors
      are the `<a>` elements in document order that are left after the
      content extractor has removed the script, style, ins and iframe nodes
      of the element it chose (the next-link search reads the page after
      that removal). */
  datatype Page = Page(
    h1: Option<string>,
    title: Option<string>,
    firstMatch: map<Selector, Candidate>,
    anchors: seq<Anchor>)
}
