/**
  A whole run on a small tree: `a/b.txt` holding `hello`, a `.git` directory and a
  top-level `data` directory. Only `a/b.txt` is archived, and the files under the two
  pruned directories never reach the counters.
 */
module Scenario {
  import opened Wrappers
  import opened Text
  import opened Rules
  import opened Classifier
  import opened Walker
  import opened Archiver

  function Tree(hello: FileData, secret: FileData, rows: FileData): Entry {
    Folder("root", [
      Folder("a", [File("b.txt", hello)]),
      Folder(".git", [File("ignored.txt", secret)]),
      Folder("data", [File("x.txt", rows)])])
  }

  /** The walk reaches one file: `b.txt` under `a`. */
  lemma ScenarioVisits(hello: FileData, secret: FileData, rows: FileData)
    ensures Visits(Walk(Tree(hello, secret, rows), [])) == [Visit(["a"], File("b.txt", hello))]
  {
    var b := File("b.txt", hello);
    ScenarioWalk(hello, secret, rows);
    VisitsTwo(Listing([], []), Listing(["a"], [b]));
    assert ListingVisits(Listing(["a"], [b])) == [Visit(["a"], b)];
  }

  /** Two listings: the empty root, then `a` with its one file. */
  lemma ScenarioWalk(hello: FileData, secret: FileData, rows: FileData)
    ensures Walk(Tree(hello, secret, rows), []) == [Listing([], []), Listing(["a"], [File("b.txt", hello)])]
  {
    RootStep(hello, secret, rows);
    ChildStep(hello, secret, rows);
  }

  lemma RootStep(hello: FileData, secret: FileData, rows: FileData)
    ensures var root := Tree(hello, secret, rows);
      Walk(root, []) == [Listing([], [])] + WalkFolders(root, [Folder("a", [File("b.txt", hello)])], [])
  {
    var a := Folder("a", [File("b.txt", hello)]);
    var root := Tree(hello, secret, rows);
    NoFiles(root.children);
    SortedOne(a);
    OnlyAKept(a, secret, rows);
  }

  lemma ChildStep(hello: FileData, secret: FileData, rows: FileData)
    ensures var root := Tree(hello, secret, rows);
      WalkFolders(root, [Folder("a", [File("b.txt", hello)])], []) == [Listing(["a"], [File("b.txt", hello)])]
  {
    var a := Folder("a", [File("b.txt", hello)]);
    var root := Tree(hello, secret, rows);
    LeafWalk(a, ["a"]);
    OneFolder(root, a, []);
    assert [] + ["a"] == ["a"];
  }

  lemma OneFolder(parent: Entry, f: Entry, dirs: seq<string>)
    requires parent.Folder? && f in parent.children && f.Folder?
    ensures WalkFolders(parent, [f], dirs) == Walk(f, dirs + [f.name])
  {
    assert [f][1..] == [];
  }

  lemma VisitsTwo(l: Listing, l': Listing)
    ensures Visits([l, l']) == ListingVisits(l) + ListingVisits(l')
  {
    assert [l, l'][1..] == [l'] && [l'][1..] == [];
    assert Visits([l']) == ListingVisits(l') + [];
    assert ListingVisits(l') + [] == ListingVisits(l');
  }

  lemma NoFiles(children: seq<Entry>)
    requires forall x :: x in children ==> x.Folder?
    ensures FilesOf(children) == []
  {
  }

  lemma NoneKept(children: seq<Entry>, atRoot: bool)
    requires forall x :: x in children ==> !x.Folder? || !KeepDir(x.name, atRoot)
    ensures KeptFolders(children, atRoot) == []
  {
  }

  lemma SortedOne(e: Entry)
    ensures SortByName([e]) == [e]
  {
    assert [e][1..] == [];
  }

  lemma OnlyAKept(a: Entry, secret: FileData, rows: FileData)
    requires a.Folder? && a.name == "a"
    ensures KeptFolders([a, Folder(".git", [File("ignored.txt", secret)]), Folder("data", [File("x.txt", rows)])], true) == [a]
  {
    var g, d := Folder(".git", [File("ignored.txt", secret)]), Folder("data", [File("x.txt", rows)]);
    assert KeepDir("a", true) by {
      assert !EndsWith("a", ".egg-info");
    }
    assert !KeepDir(".git", true);
    DataKeptOnlyBelowRoot();
    NoneKept([g, d], true);
    assert [a, g, d][1..] == [g, d];
  }

  /** A directory holding one file and no directories lists that file and stops. */
  lemma LeafWalk(dir: Entry, dirs: seq<string>)
    requires dir.Folder? && |dir.children| == 1 && dir.children[0].File?
    ensures Walk(dir, dirs) == [Listing(dirs, dir.children)]
  {
    var f := dir.children[0];
    assert dir.children == [f] && dir.children[1..] == [];
    NoneKept(dir.children, dirs == []);
    assert FilesOf(dir.children) == [f];
    SortedOne(f);
  }

  /** `b.txt` is plain text with content, so its block is written. */
  lemma ScenarioOutcome(hello: FileData)
    requires hello.raw.Some? && 0 !in hello.raw.value && hello.text == Some("hello")
    ensures OutcomeOf(Visit(["a"], File("b.txt", hello)), ExcludedNamesFor(OutputFilename))
         == Archived(Block("a/b.txt", "hello"))
  {
    ExtractHello(hello);
    HelloStrip();
    PathOfB(File("b.txt", hello));
    BNotExcluded();
    ArchivedWhen(Visit(["a"], File("b.txt", hello)), ExcludedNamesFor(OutputFilename), "hello");
  }

  lemma BNotExcluded()
    ensures "b.txt" !in ExcludedNamesFor(OutputFilename)
  {
  }

  lemma ArchivedWhen(v: Visit, ex: set<string>, content: string)
    requires v.file.File? && v.file.name !in ex
    requires Extract(v.file.name, v.file.data) == Some(content) && Strip(content) != []
    ensures OutcomeOf(v, ex) == Archived(Block(RelPath(v), content))
  {
  }

  lemma ExtractHello(hello: FileData)
    requires hello.raw.Some? && 0 !in hello.raw.value && hello.text == Some("hello")
    ensures Extract("b.txt", hello) == Some("hello")
  {
    TextSuffix();
    SniffNoZero(hello.raw.value);
  }

  lemma HelloStrip()
    ensures Strip("hello") == "hello"
  {
    StripExact("", "hello", "", Whitespace);
  }

  lemma PathOfB(f: Entry)
    requires f.name == "b.txt"
    ensures RelPath(Visit(["a"], f)) == "a/b.txt"
  {
    RelPathJoin(Visit(["a"], f));
    assert ["a"] + [f.name] == ["a", "b.txt"];
    JoinOfB();
  }

  lemma RelPathJoin(v: Visit)
    ensures RelPath(v) == Join("/", v.dirs + [v.file.name])
  {
  }

  lemma JoinOfB()
    ensures Join("/", ["a", "b.txt"]) == "a/b.txt"
  {
    assert ["a", "b.txt"][1..] == ["b.txt"];
    assert Join("/", ["b.txt"]) == "b.txt";
    assert Join("/", ["a", "b.txt"]) == "a" + "/" + "b.txt";
  }

  lemma TextSuffix()
    ensures LowerSuffix("b.txt") == ".txt" && ".txt" !in ExcludeExtensions && !IsNotebookName("b.txt")
  {
    SuffixOfB();
    LowerTxt();
  }

  lemma SuffixOfB()
    ensures Suffix("b.txt") == ".txt"
  {
    assert LastIndexOf("b.txt", '.') == Some(1) by {
      assert "b.txt"[1] == '.' && '.' !in "b.txt"[2..];
    }
    assert "b.txt"[1..] == ".txt";
  }

  lemma LowerTxt()
    ensures Lower(".txt") == ".txt"
  {
  }

  lemma SniffNoZero(raw: seq<bv8>)
    requires 0 !in raw
    ensures SniffIsText(raw)
  {
    var n := if |raw| < SniffLength then |raw| else SniffLength;
    assert forall k :: 0 <= k < n ==> raw[..n][k] == raw[k];
  }

  /**
    The end-to-end scenario: the archive is the header and the one block of `a/b.txt`;
    one file is processed and none is skipped, since the `.git` and `data` files are
    pruned before they are ever looked at.
   */
  lemma EndToEnd(hello: FileData, secret: FileData, rows: FileData)
    requires hello.raw.Some? && 0 !in hello.raw.value && hello.text == Some("hello")
    ensures var vs, ex := Visits(Walk(Tree(hello, secret, rows), [])), ExcludedNamesFor(OutputFilename);
      && ArchiveText(vs, ex) == Header + "<a/b.txt>\nhello\n</a/b.txt>\n\n"
      && ProcessedCount(Outcomes(vs, ex)) == 1
      && SkippedCount(Outcomes(vs, ex)) == 0
  {
    var v := Visit(["a"], File("b.txt", hello));
    var ex := ExcludedNamesFor(OutputFilename);
    var o := Archived(Block("a/b.txt", "hello"));
    ScenarioVisits(hello, secret, rows);
    ScenarioOutcome(hello);
    OneVisit(v, ex);
    OneOutcome(o);
    BlockOfB();
  }

  lemma OneVisit(v: Visit, ex: set<string>)
    ensures Outcomes([v], ex) == [OutcomeOf(v, ex)]
  {
  }

  lemma OneOutcome(o: Outcome)
    ensures Blocks([o]) == o.Written()
    ensures ProcessedCount([o]) == o.ProcessedDelta() && SkippedCount([o]) == o.SkippedDelta()
  {
    assert [o][..0] == [];
  }

  lemma BlockOfB()
    ensures Block("a/b.txt", "hello") == "<a/b.txt>\nhello\n</a/b.txt>\n\n"
  {
    HelloStrip();
    BlockOfText("a/b.txt", "hello");
    TagsOfB();
    JoinedB();
  }

  lemma BlockOfText(rel: string, content: string)
    requires Strip(content) == content
    ensures Block(rel, content) == OpenTag(rel) + content + CloseTag(rel)
  {
  }

  lemma TagsOfB()
    ensures OpenTag("a/b.txt") == "<a/b.txt>\n" && CloseTag("a/b.txt") == "\n</a/b.txt>\n\n"
  {
  }

  lemma JoinedB()
    ensures "<a/b.txt>\n" + "hello" + "\n</a/b.txt>\n\n" == "<a/b.txt>\nhello\n</a/b.txt>\n\n"
  {
  }
}
