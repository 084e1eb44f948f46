/** A worked walk: two pages of "Chapter 1" and one of "Chapter 2", where the
    last page links back to the first. */
module WalkExamples {
  import opened Common
  import opened Walk

  const E1: Entry := Entry("Chapter 1", "AAA")
  const E2: Entry := Entry("Chapter 1", "BBB")
  const E3: Entry := Entry("Chapter 2", "CCC")

  const Pages: Site := map[
    "u1" := PageView(Some(E1), Some("u2")),
    "u2" := PageView(Some(E2), Some("u3")),
    "u3" := PageView(Some(E3), Some("u1"))]

  /** The states after each of the three pages. */
  const After1: Book := Book({"u1"}, Some("Chapter 1"), ["AAA"], 1, [])
  const After2: Book := Book({"u1", "u2"}, Some("Chapter 1"), ["AAA", "BBB"], 1, [])
  const After3: Book := Book({"u1", "u2", "u3"}, Some("Chapter 2"), ["CCC"], 2, "Chapter 1\nAAABBB\n")

  lemma FirstPage()
    ensures Step(Pages, Initial, "u1") == Stepped(After1, Next(Some("u2")), Some(E1))
  {
    assert Written(None, []) == [];
  }

  lemma SecondPage()
    ensures Step(Pages, After1, "u2") == Stepped(After2, Next(Some("u3")), Some(E2))
  {
    assert After1.visited + {"u2"} == {"u1", "u2"};
  }

  lemma FirstChapterText()
    ensures Written(Some("Chapter 1"), ["AAA", "BBB"]) == "Chapter 1\nAAABBB\n"
  {
    assert ["AAA", "BBB"][1..] == ["BBB"] && ["BBB"][1..] == [];
    assert Concat(["AAA", "BBB"]) == "AAABBB";
  }

  lemma ThirdPage()
    ensures Step(Pages, After2, "u3") == Stepped(After3, Next(Some("u1")), Some(E3))
  {
    assert After2.visited + {"u3"} == {"u1", "u2", "u3"};
    FirstChapterText();
  }

  /** The link back to the first page finds it visited, which ends the walk. */
  lemma BackToFirstPage()
    ensures Run(Pages, After3, "u1") == Walked(After3, [], [])
  {
    assert "u1" in After3.visited;
  }

  lemma WalkOfExample()
    ensures Run(Pages, Initial, "u1") == Walked(After3, [E1, E2, E3], ["u1", "u2", "u3"])
  {
    FirstPage();
    SecondPage();
    ThirdPage();
    BackToFirstPage();
    RunUnfold(Pages, After2, "u3");
    RunUnfold(Pages, After1, "u2");
    RunUnfold(Pages, Initial, "u1");
    assert [E1] + ([E2] + ([E3] + [])) == [E1, E2, E3];
    assert ["u1"] + (["u2"] + ["u3"]) == ["u1", "u2", "u3"];
  }

  lemma SecondChapterText()
    ensures Written(Some("Chapter 2"), ["CCC"]) == "Chapter 2\nCCC\n"
  {
    assert ["CCC"][1..] == [];
  }

  /** Pages of one title are joined into one chapter, each chapter is written
      once in order, and the cycle back to the first page stops the walk. */
  lemma DownloadExample()
    ensures Download(Pages, Initial, "u1").book.file == "Chapter 1\nAAABBB\nChapter 2\nCCC\n"
    ensures Download(Pages, Initial, "u1").book.count == 2
    ensures Download(Pages, Initial, "u1").entries == [E1, E2, E3]
  {
    assert Initial.(file := []) == Initial;
    WalkOfExample();
    LastSave();
    var w := Run(Pages, Initial, "u1");
    assert Download(Pages, Initial, "u1") == Walked(Flush(w.book), w.entries, w.fetched);
  }

  /** The final save writes the second chapter after the first. */
  lemma LastSave()
    ensures Flush(After3).file == "Chapter 1\nAAABBB\nChapter 2\nCCC\n" && Flush(After3).count == 2
  {
    SecondChapterText();
    assert "Chapter 1\nAAABBB\n" + "Chapter 2\nCCC\n" == "Chapter 1\nAAABBB\nChapter 2\nCCC\n";
  }

  /** The same file follows from the chapters the entries form. */
  lemma GroupOfExample()
    ensures Group([E1, E2, E3]) == [Chapter("Chapter 1", ["AAA", "BBB"]), Chapter("Chapter 2", ["CCC"])]
  {
    var es := [E1, E2, E3];
    assert [E1][..0] == [];
    assert Group([E1]) == [Chapter("Chapter 1", ["AAA"])];
    assert [E1, E2][..1] == [E1];
    var one := [Chapter("Chapter 1", ["AAA"])];
    assert one[..0] == [] && ["AAA"] + ["BBB"] == ["AAA", "BBB"];
    assert [] + [Chapter("Chapter 1", ["AAA", "BBB"])] == [Chapter("Chapter 1", ["AAA", "BBB"])];
    assert Group([E1, E2]) == Extend(one, E2);
    assert es[..2] == [E1, E2];
  }

  lemma RenderOfExample()
    ensures Render(Group([E1, E2, E3])) == "Chapter 1\nAAABBB\nChapter 2\nCCC\n"
  {
    GroupOfExample();
    var cs := [Chapter("Chapter 1", ["AAA", "BBB"]), Chapter("Chapter 2", ["CCC"])];
    assert cs[..1] == [cs[0]] && [cs[0]][..0] == [];
    FirstChapterText();
    SecondChapterText();
    assert Render([cs[0]]) == "Chapter 1\nAAABBB\n";
    assert "Chapter 1\nAAABBB\n" + "Chapter 2\nCCC\n" == "Chapter 1\nAAABBB\nChapter 2\nCCC\n";
  }

  /** Saving twice writes the open chapter twice. */
  lemma FlushTwiceExample()
    ensures Flush(Flush(After2)).file == "Chapter 1\nAAABBB\nChapter 1\nAAABBB\n"
  {
    FlushTwice(After2);
    FirstChapterText();
    assert [] + "Chapter 1\nAAABBB\n" + "Chapter 1\nAAABBB\n" == "Chapter 1\nAAABBB\nChapter 1\nAAABBB\n";
  }

  /** A chapter with an empty title is counted but never written. */
  lemma EmptyTitleExample()
    ensures Download(map["u1" := PageView(Some(Entry("", "AAA")), None)], Initial, "u1").book.file == []
    ensures Download(map["u1" := PageView(Some(Entry("", "AAA")), None)], Initial, "u1").book.count == 1
  {
    var site := map["u1" := PageView(Some(Entry("", "AAA")), None)];
    assert Initial.(file := []) == Initial;
    assert Written(None, []) == [];
    RunUnfold(site, Initial, "u1");
  }
}
