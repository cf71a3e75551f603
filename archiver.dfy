/**
  The archive writer: a fixed header, then one tagged block per file that yields
  content, in walk order, while two counters record archived and skipped files.
 */
module Archiver {
  import opened Wrappers
  import opened Text
  import opened Rules
  import opened Classifier
  import opened Notebook
  import opened Walker
  import opened Seqs

  /** The two header lines written once, before any block. */
  const Header: string :=
    "--- Project Source Code Archive ---\n\n"
    + "This file contains the concatenated source code of the project, "
    + "with each file wrapped in tags indicating its relative path.\n\n"

  /** The tags around a file's content, named by its relative path. */
  function OpenTag(rel: string): string { "<" + rel + ">\n" }
  function CloseTag(rel: string): string { "\n</" + rel + ">\n\n" }

  /** Reads a block back: the text between the tags named `rel`, if `b` has them. */
  function Unwrap(rel: string, b: string): (r: Option<string>)
    ensures r.Some? ==> OpenTag(rel) + r.value + CloseTag(rel) == b
  {
    var o, c := OpenTag(rel), CloseTag(rel);
    if |o| + |c| <= |b| && b[..|o|] == o && b[|b| - |c|..] == c then
      assert b == b[..|o|] + b[|o|..|b| - |c|] + b[|b| - |c|..];
      Some(b[|o|..|b| - |c|])
    else None
  }

  /** The block written for a file: its stripped content between the tags, and nothing else. */
  function Block(rel: string, content: string): (r: string)
    ensures Unwrap(rel, r) == Some(Strip(content))
  {
    var o, m, c := OpenTag(rel), Strip(content), CloseTag(rel);
    var b := o + m + c;
    assert b[..|o|] == o;
    assert b[|b| - |c|..] == c;
    assert b[|o|..|b| - |c|] == m;
    b
  }

  /** No name on the way to the file, nor the file's own, holds a `/`. */
  predicate PlainNames(v: Visit) {
    (forall i :: 0 <= i < |v.dirs| ==> '/' !in v.dirs[i]) && '/' !in v.file.name
  }

  /**
    The file's path below the root, with `/` separators (`relative_to(...).as_posix()`):
    split on `/`, it gives back the directories on the way and then the file's name.
   */
  function RelPath(v: Visit): (r: string)
    ensures v.dirs == [] ==> r == v.file.name
    ensures EndsWith(r, v.file.name)
    ensures v.dirs != [] ==> StartsWith(r, v.dirs[0] + "/") && EndsWith(r, "/" + v.file.name)
    ensures PlainNames(v) ==> SplitOn(r, '/') == v.dirs + [v.file.name]
  {
    var parts := v.dirs + [v.file.name];
    assert parts[|parts| - 1] == v.file.name;
    assert v.dirs != [] ==> parts[0] == v.dirs[0];
    assert v.dirs == [] ==> parts == [v.file.name];
    var r := Join("/", parts);
    if PlainNames(v) then
      assert forall i :: 0 <= i < |parts| ==> '/' !in parts[i] by {
        forall i | 0 <= i < |parts| ensures '/' !in parts[i] {
          if i < |v.dirs| {
            assert parts[i] == v.dirs[i];
          }
        }
      }
      SplitJoin('/', parts);
      r
    else r
  }

  /** `content and content.strip()`: present and not blank. */
  predicate HasContent(content: Option<string>) {
    content.Some? && Strip(content.value) != []
  }

  /**
    The content the run extracts from a file that is not excluded by name: the notebook
    text for a notebook, the decoded text for a text file, nothing otherwise.
   */
  function Extract(name: string, data: FileData): (content: Option<string>)
    ensures Classify(name, data.raw, {}) == Notebook ==> content == ProcessNotebook(data.cells)
    ensures Classify(name, data.raw, {}) == PlainText ==> content == data.text
    ensures Classify(name, data.raw, {}) == NotText ==> content.None?
  {
    if IsNotebookName(name) then ProcessNotebook(data.cells)
    else if IsLikelyTextFile(name, data.raw) then data.text
    else None
  }

  /** What happens to one visited file. */
  datatype Outcome = Ignored | Skipped | Archived(block: string) {
    /** What the outcome appends to the archive. */
    function Written(): string { if Archived? then block else "" }
    /** What it adds to the processed and to the skipped counter. */
    function ProcessedDelta(): nat { if Archived? then 1 else 0 }
    function SkippedDelta(): nat { if Skipped? then 1 else 0 }
  }

  /** What happens to one visited file; the walk never hands a directory to this logic. */
  function OutcomeOf(v: Visit, excluded: set<string>): (o: Outcome)
    ensures v.file.File? ==> (o == Ignored <==> v.file.name in excluded)
    ensures o.Archived? <==> v.file.File? && v.file.name !in excluded && HasContent(Extract(v.file.name, v.file.data))
  {
    match v.file
    case Folder(_, _) => Ignored
    case File(name, data) =>
      if name in excluded then Ignored
      else
        var content := Extract(name, data);
        if HasContent(content) then Archived(Block(RelPath(v), content.value)) else Skipped
  }

  /** The outcome of a file follows its verdict: ignored exactly when excluded by name, skipped when not text. */
  lemma OutcomeFollowsVerdict(v: Visit, excluded: set<string>)
    requires v.file.File?
    ensures OutcomeOf(v, excluded) == Ignored <==> Classify(v.file.name, v.file.data.raw, excluded) == ExcludedByName
    ensures Classify(v.file.name, v.file.data.raw, excluded) == NotText ==> OutcomeOf(v, excluded) == Skipped
    ensures Classify(v.file.name, v.file.data.raw, excluded) == Notebook ==>
      (OutcomeOf(v, excluded).Archived? <==> HasContent(ProcessNotebook(v.file.data.cells)))
    ensures Classify(v.file.name, v.file.data.raw, excluded) == PlainText ==>
      (OutcomeOf(v, excluded).Archived? <==> HasContent(v.file.data.text))
  {
  }

  /** A file that is not a notebook and has a NUL among its first 1024 bytes is never archived. */
  lemma NulNeverArchived(v: Visit, excluded: set<string>, k: nat)
    requires v.file.File? && !IsNotebookName(v.file.name)
    requires v.file.data.raw.Some? && k < |v.file.data.raw.value| && k < SniffLength
    requires v.file.data.raw.value[k] == 0
    ensures !OutcomeOf(v, excluded).Archived?
    ensures v.file.name !in excluded ==> OutcomeOf(v, excluded) == Skipped
  {
    assert Classify(v.file.name, v.file.data.raw, {}) == NotText;
  }

  /** The outcome of each visited file, in walk order. */
  function Outcomes(vs: seq<Visit>, excluded: set<string>): (os: seq<Outcome>)
    ensures |os| == |vs|
  {
    Map(v => OutcomeOf(v, excluded), vs)
  }

  lemma OutcomesAppend(a: seq<Visit>, b: seq<Visit>, excluded: set<string>)
    ensures Outcomes(a + b, excluded) == Outcomes(a, excluded) + Outcomes(b, excluded)
  {
    MapAppend(v => OutcomeOf(v, excluded), a, b);
  }

  /** The text the outcomes append to the archive: the blocks, in order. */
  function Blocks(os: seq<Outcome>): string {
    if os == [] then "" else Blocks(os[..|os| - 1]) + os[|os| - 1].Written()
  }

  /** The final values the outcomes give the two counters. */
  function ProcessedCount(os: seq<Outcome>): nat {
    if os == [] then 0 else ProcessedCount(os[..|os| - 1]) + os[|os| - 1].ProcessedDelta()
  }

  function SkippedCount(os: seq<Outcome>): nat {
    if os == [] then 0 else SkippedCount(os[..|os| - 1]) + os[|os| - 1].SkippedDelta()
  }

  /** One more outcome appends its block, if any, and moves its counter, if any. */
  lemma StepOutcome(os: seq<Outcome>, o: Outcome)
    ensures Blocks(os + [o]) == Blocks(os) + o.Written()
    ensures ProcessedCount(os + [o]) == ProcessedCount(os) + o.ProcessedDelta()
    ensures SkippedCount(os + [o]) == SkippedCount(os) + o.SkippedDelta()
  {
    assert (os + [o])[..|os|] == os;
  }

  /** The archive of two runs of files, one after the other, is the two archives concatenated. */
  lemma {:induction false} Concatenation(a: seq<Outcome>, b: seq<Outcome>)
    ensures Blocks(a + b) == Blocks(a) + Blocks(b)
    ensures ProcessedCount(a + b) == ProcessedCount(a) + ProcessedCount(b)
    ensures SkippedCount(a + b) == SkippedCount(a) + SkippedCount(b)
  {
    BlocksAppend(a, b);
    CountsAppend(a, b);
  }

  lemma {:induction false} BlocksAppend(a: seq<Outcome>, b: seq<Outcome>)
    ensures Blocks(a + b) == Blocks(a) + Blocks(b)
  {
    if b == [] {
      assert a + b == a;
    } else {
      var init, last := b[..|b| - 1], b[|b| - 1];
      BlocksAppend(a, init);
      SplitOff(a, b);
      assert Blocks(a + b) == Blocks(a + init) + last.Written();
      AppendAssociative(Blocks(a), Blocks(init), last.Written());
    }
  }

  lemma {:induction false} CountsAppend(a: seq<Outcome>, b: seq<Outcome>)
    ensures ProcessedCount(a + b) == ProcessedCount(a) + ProcessedCount(b)
    ensures SkippedCount(a + b) == SkippedCount(a) + SkippedCount(b)
  {
    if b == [] {
      assert a + b == a;
    } else {
      CountsAppend(a, b[..|b| - 1]);
      SplitOff(a, b);
    }
  }

  lemma AppendAssociative(x: string, y: string, z: string)
    ensures (x + y) + z == x + (y + z)
  {
  }

  /** How many outcomes are not `Ignored`: the files the run considers. */
  function ConsideredCount(os: seq<Outcome>): (n: nat)
    ensures n <= |os|
  {
    if os == [] then 0 else ConsideredCount(os[..|os| - 1]) + (if os[|os| - 1] == Ignored then 0 else 1)
  }

  /** Every considered file moves exactly one of the two counters, and no other file does. */
  lemma {:induction false} CountersPartition(os: seq<Outcome>)
    ensures ProcessedCount(os) + SkippedCount(os) == ConsideredCount(os)
  {
    if os != [] {
      CountersPartition(os[..|os| - 1]);
    }
  }

  /** The outcomes other than `Ignored`, in order. */
  function Kept(os: seq<Outcome>): (r: seq<Outcome>)
    ensures Ignored !in r
    ensures |r| == ConsideredCount(os)
  {
    if os == [] then []
    else Kept(os[..|os| - 1]) + (if os[|os| - 1] == Ignored then [] else [os[|os| - 1]])
  }

  /** An ignored file leaves no trace: neither a block nor a counter. */
  lemma IgnoredLeaveNoTrace(os: seq<Outcome>)
    ensures Blocks(Kept(os)) == Blocks(os)
    ensures ProcessedCount(Kept(os)) == ProcessedCount(os)
    ensures SkippedCount(Kept(os)) == SkippedCount(os)
  {
    KeptBlocks(os);
    KeptCounts(os);
  }

  lemma {:induction false} KeptBlocks(os: seq<Outcome>)
    ensures Blocks(Kept(os)) == Blocks(os)
  {
    if os != [] {
      var init, last := os[..|os| - 1], os[|os| - 1];
      KeptBlocks(init);
      assert os == init + [last];
      KeptStep(init, last);
      StepOutcome(init, last);
      if last != Ignored {
        StepOutcome(Kept(init), last);
      } else {
        assert Blocks(init) + "" == Blocks(init);
      }
    }
  }

  lemma {:induction false} KeptCounts(os: seq<Outcome>)
    ensures ProcessedCount(Kept(os)) == ProcessedCount(os)
    ensures SkippedCount(Kept(os)) == SkippedCount(os)
  {
    if os != [] {
      var init, last := os[..|os| - 1], os[|os| - 1];
      KeptCounts(init);
      assert os == init + [last];
      KeptStep(init, last);
      StepOutcome(init, last);
      if last != Ignored {
        StepOutcome(Kept(init), last);
      }
    }
  }

  lemma KeptStep(init: seq<Outcome>, last: Outcome)
    ensures Kept(init + [last]) == if last == Ignored then Kept(init) else Kept(init) + [last]
  {
    assert (init + [last])[..|init|] == init;
  }

  /** `vs` without the files named `name`. */
  function Without(vs: seq<Visit>, name: string): (r: seq<Visit>)
    ensures |r| <= |vs|
    ensures forall k :: 0 <= k < |r| ==> r[k].file.name != name
  {
    if vs == [] then []
    else Without(vs[..|vs| - 1], name) + (if vs[|vs| - 1].file.name == name then [] else [vs[|vs| - 1]])
  }

  lemma {:induction false} KeptAppend(a: seq<Outcome>, b: seq<Outcome>)
    ensures Kept(a + b) == Kept(a) + Kept(b)
  {
    if b == [] {
      assert a + b == a;
    } else {
      var init, last := b[..|b| - 1], b[|b| - 1];
      var tail := if last == Ignored then [] else [last];
      KeptAppend(a, init);
      SplitOff(a, b);
      assert Kept(a + b) == Kept(a + init) + tail;
      Associative(Kept(a), Kept(init), tail);
    }
  }

  lemma SplitLast(vs: seq<Visit>)
    requires vs != []
    ensures vs == vs[..|vs| - 1] + [vs[|vs| - 1]]
  {
  }

  /** A file named like the output is ignored. */
  lemma OutputIgnored(v: Visit, outputFilename: string)
    requires v.file.name == outputFilename
    ensures Kept(Outcomes([v], ExcludedNamesFor(outputFilename))) == []
  {
    var os := Outcomes([v], ExcludedNamesFor(outputFilename));
    assert os[0] == Ignored;
    assert os[..0] == [];
  }

  /** Files named like the output are ignored, so dropping them keeps the same considered outcomes. */
  lemma {:induction false} WithoutOutputSameKept(vs: seq<Visit>, outputFilename: string)
    ensures var ex := ExcludedNamesFor(outputFilename);
      Kept(Outcomes(Without(vs, outputFilename), ex)) == Kept(Outcomes(vs, ex))
  {
    if vs != [] {
      var ex := ExcludedNamesFor(outputFilename);
      var init, last := vs[..|vs| - 1], vs[|vs| - 1];
      WithoutOutputSameKept(init, outputFilename);
      var wi := Without(init, outputFilename);
      SplitLast(vs);
      OutcomesAppend(init, [last], ex);
      KeptAppend(Outcomes(init, ex), Outcomes([last], ex));
      if last.file.name != outputFilename {
        assert Without(vs, outputFilename) == wi + [last];
        OutcomesAppend(wi, [last], ex);
        KeptAppend(Outcomes(wi, ex), Outcomes([last], ex));
      } else {
        OutputIgnored(last, outputFilename);
        assert Without(vs, outputFilename) == wi;
        assert Kept(Outcomes(init, ex)) + [] == Kept(Outcomes(init, ex));
      }
    }
  }

  /**
    The archive of a previous run is never read back: the archive and the counters are
    the same as if no file with the output's name existed anywhere in the tree.
   */
  lemma PreviousArchiveIgnored(vs: seq<Visit>, outputFilename: string)
    ensures var ex := ExcludedNamesFor(outputFilename);
      && Blocks(Outcomes(Without(vs, outputFilename), ex)) == Blocks(Outcomes(vs, ex))
      && ProcessedCount(Outcomes(Without(vs, outputFilename), ex)) == ProcessedCount(Outcomes(vs, ex))
      && SkippedCount(Outcomes(Without(vs, outputFilename), ex)) == SkippedCount(Outcomes(vs, ex))
  {
    var ex := ExcludedNamesFor(outputFilename);
    WithoutOutputSameKept(vs, outputFilename);
    IgnoredLeaveNoTrace(Outcomes(Without(vs, outputFilename), ex));
    IgnoredLeaveNoTrace(Outcomes(vs, ex));
  }

  /**
    The run does not depend on the order in which directories list their entries: two
    trees with unique names per directory and the same normal form give the same archive
    and the same counts.
   */
  lemma ArchiveIgnoresOrder(a: Entry, b: Entry, outputFilename: string)
    requires a.Folder? && b.Folder? && UniqueNames(a) && UniqueNames(b)
    requires Normal(a) == Normal(b)
    ensures var ex := ExcludedNamesFor(outputFilename);
      && ArchiveText(Visits(Walk(a, [])), ex) == ArchiveText(Visits(Walk(b, [])), ex)
      && ProcessedCount(Outcomes(Visits(Walk(a, [])), ex)) == ProcessedCount(Outcomes(Visits(Walk(b, [])), ex))
      && SkippedCount(Outcomes(Visits(Walk(a, [])), ex)) == SkippedCount(Outcomes(Visits(Walk(b, [])), ex))
  {
    WalkIgnoresOrder(a, b, []);
  }

  /** The archive file and the two counters, as the run updates them. */
  class Archive {
    var output: string
    var processed: nat
    var skipped: nat

    /** Opens the archive and writes the header. */
    constructor ()
      ensures output == Header && processed == 0 && skipped == 0
    {
      output := Header;
      processed := 0;
      skipped := 0;
    }

    /** Counts a file that yields no block. */
    method Skip()
      modifies this
      ensures output == old(output) && processed == old(processed) && skipped == old(skipped) + 1
    {
      skipped := skipped + 1;
    }

    /** Writes the block of a file with content and counts it. */
    method Write(rel: string, content: string)
      modifies this
      ensures output == old(output) + Block(rel, content)
      ensures processed == old(processed) + 1 && skipped == old(skipped)
    {
      ghost var before := output;
      output := output + OpenTag(rel);
      output := output + Strip(content);
      output := output + CloseTag(rel);
      BlockAppended(before, rel, content);
      processed := processed + 1;
    }
  }

  /** The three writes of a block, one after the other, append the block. */
  lemma BlockAppended(before: string, rel: string, content: string)
    ensures before + OpenTag(rel) + Strip(content) + CloseTag(rel) == before + Block(rel, content)
  {
    var o, m, c := OpenTag(rel), Strip(content), CloseTag(rel);
    assert Block(rel, content) == o + m + c;
    Associative(before, o, m);
    Associative(before, o + m, c);
  }

  /** The visits of the first `i + 1` listings extend those of the first `i`. */
  lemma VisitsPrefix(ls: seq<Listing>, i: nat)
    requires i < |ls|
    ensures Visits(ls[..i + 1]) == Visits(ls[..i]) + ListingVisits(ls[i])
  {
    assert ls[..i + 1] == ls[..i] + [ls[i]];
    VisitsAppend(ls[..i], [ls[i]]);
    assert [ls[i]][1..] == [];
  }

  /**
    The loop body for one file: skipped silently when excluded by name; otherwise a
    notebook is extracted, a likely text file is read, anything else is skipped; the
    content, when it has any, is written as a block.
   */
  method ArchiveFile(archive: Archive, dirs: seq<string>, f: Entry, excluded: set<string>)
    requires f.File?
    modifies archive
    ensures archive.output == old(archive.output) + OutcomeOf(Visit(dirs, f), excluded).Written()
    ensures archive.processed == old(archive.processed) + OutcomeOf(Visit(dirs, f), excluded).ProcessedDelta()
    ensures archive.skipped == old(archive.skipped) + OutcomeOf(Visit(dirs, f), excluded).SkippedDelta()
  {
    if f.name in excluded {
      return;
    }
    ArchiveIncluded(archive, dirs, f, excluded);
  }

  /** The dispatch for a file that passes the name check. */
  method ArchiveIncluded(archive: Archive, dirs: seq<string>, f: Entry, excluded: set<string>)
    requires f.File? && f.name !in excluded
    modifies archive
    ensures archive.output == old(archive.output) + OutcomeOf(Visit(dirs, f), excluded).Written()
    ensures archive.processed == old(archive.processed) + OutcomeOf(Visit(dirs, f), excluded).ProcessedDelta()
    ensures archive.skipped == old(archive.skipped) + OutcomeOf(Visit(dirs, f), excluded).SkippedDelta()
  {
    if IsNotebookName(f.name) {
      var content := ProcessNotebook(f.data.cells);
      ArchiveContent(archive, dirs, f, excluded, content);
    } else if IsLikelyTextFile(f.name, f.data.raw) {
      var content := f.data.text;
      ArchiveContent(archive, dirs, f, excluded, content);
    } else {
      NotTextOutcome(Visit(dirs, f), excluded);
      archive.Skip();
    }
  }

  /** The content extracted from a notebook or a likely text file: written when it is not blank. */
  method ArchiveContent(archive: Archive, dirs: seq<string>, f: Entry, excluded: set<string>, content: Option<string>)
    requires f.File? && f.name !in excluded
    requires IsNotebookName(f.name) ==> content == ProcessNotebook(f.data.cells)
    requires !IsNotebookName(f.name) ==> IsLikelyTextFile(f.name, f.data.raw) && content == f.data.text
    modifies archive
    ensures archive.output == old(archive.output) + OutcomeOf(Visit(dirs, f), excluded).Written()
    ensures archive.processed == old(archive.processed) + OutcomeOf(Visit(dirs, f), excluded).ProcessedDelta()
    ensures archive.skipped == old(archive.skipped) + OutcomeOf(Visit(dirs, f), excluded).SkippedDelta()
  {
    ContentOutcome(Visit(dirs, f), excluded, content);
    WriteContent(archive, RelPath(Visit(dirs, f)), content);
  }

  /** A file that passes the name check but is neither a notebook nor likely text is skipped. */
  lemma NotTextOutcome(v: Visit, excluded: set<string>)
    requires v.file.File? && v.file.name !in excluded
    requires !IsNotebookName(v.file.name) && !IsLikelyTextFile(v.file.name, v.file.data.raw)
    ensures OutcomeOf(v, excluded) == Skipped
  {
  }

  /** A notebook or likely text file comes to its block when its content is not blank, and to a skip otherwise. */
  lemma ContentOutcome(v: Visit, excluded: set<string>, content: Option<string>)
    requires v.file.File? && v.file.name !in excluded
    requires IsNotebookName(v.file.name) ==> content == ProcessNotebook(v.file.data.cells)
    requires !IsNotebookName(v.file.name) ==> IsLikelyTextFile(v.file.name, v.file.data.raw) && content == v.file.data.text
    ensures OutcomeOf(v, excluded) == if HasContent(content) then Archived(Block(RelPath(v), content.value)) else Skipped
  {
  }

  /** `if content and content.strip()`: write the block and count it, or count a skip. */
  method WriteContent(archive: Archive, rel: string, content: Option<string>)
    modifies archive
    ensures archive.output == old(archive.output) + if HasContent(content) then Block(rel, content.value) else ""
    ensures archive.processed == old(archive.processed) + if HasContent(content) then 1 else 0
    ensures archive.skipped == old(archive.skipped) + if HasContent(content) then 0 else 1
  {
    if content.Some? && Strip(content.value) != [] {
      archive.Write(rel, content.value);
    } else {
      archive.Skip();
    }
  }

  /** The inner loop: the files of one listing, in their sorted order. */
  method ArchiveListing(archive: Archive, l: Listing, excluded: set<string>)
    requires FilesOnly(l)
    modifies archive
    ensures archive.output == old(archive.output) + Blocks(Outcomes(ListingVisits(l), excluded))
    ensures archive.processed == old(archive.processed) + ProcessedCount(Outcomes(ListingVisits(l), excluded))
    ensures archive.skipped == old(archive.skipped) + SkippedCount(Outcomes(ListingVisits(l), excluded))
  {
    ghost var here := ListingVisits(l);
    for j := 0 to |l.files|
      invariant archive.output == old(archive.output) + Blocks(Outcomes(here[..j], excluded))
      invariant archive.processed == old(archive.processed) + ProcessedCount(Outcomes(here[..j], excluded))
      invariant archive.skipped == old(archive.skipped) + SkippedCount(Outcomes(here[..j], excluded))
    {
      var f := l.files[j];
      assert f in l.files && here[j] == Visit(l.dirs, f);
      PrefixStep(here, j, excluded);
      ArchiveFile(archive, l.dirs, f, excluded);
      AppendAssociative(old(archive.output), Blocks(Outcomes(here[..j], excluded)), OutcomeOf(here[j], excluded).Written());
    }
    assert here[..|l.files|] == here;
  }

  /** One more visit appends its block and moves its counter. */
  lemma PrefixStep(vs: seq<Visit>, j: nat, excluded: set<string>)
    requires j < |vs|
    ensures Blocks(Outcomes(vs[..j + 1], excluded)) == Blocks(Outcomes(vs[..j], excluded)) + OutcomeOf(vs[j], excluded).Written()
    ensures ProcessedCount(Outcomes(vs[..j + 1], excluded)) == ProcessedCount(Outcomes(vs[..j], excluded)) + OutcomeOf(vs[j], excluded).ProcessedDelta()
    ensures SkippedCount(Outcomes(vs[..j + 1], excluded)) == SkippedCount(Outcomes(vs[..j], excluded)) + OutcomeOf(vs[j], excluded).SkippedDelta()
  {
    assert vs[..j + 1] == vs[..j] + [vs[j]];
    OutcomesAppend(vs[..j], [vs[j]], excluded);
    StepOutcome(Outcomes(vs[..j], excluded), OutcomeOf(vs[j], excluded));
  }

  /** The archive a run writes for the visits `vs`: the header, then the blocks. */
  function ArchiveText(vs: seq<Visit>, excluded: set<string>): string {
    Header + Blocks(Outcomes(vs, excluded))
  }

  /** The outer loop: the listings of the walk, in walk order. */
  method ArchiveListings(archive: Archive, listings: seq<Listing>, excluded: set<string>)
    requires forall l :: l in listings ==> FilesOnly(l)
    modifies archive
    ensures archive.output == old(archive.output) + Blocks(Outcomes(Visits(listings), excluded))
    ensures archive.processed == old(archive.processed) + ProcessedCount(Outcomes(Visits(listings), excluded))
    ensures archive.skipped == old(archive.skipped) + SkippedCount(Outcomes(Visits(listings), excluded))
  {
    for i := 0 to |listings|
      invariant archive.output == old(archive.output) + Blocks(Outcomes(Visits(listings[..i]), excluded))
      invariant archive.processed == old(archive.processed) + ProcessedCount(Outcomes(Visits(listings[..i]), excluded))
      invariant archive.skipped == old(archive.skipped) + SkippedCount(Outcomes(Visits(listings[..i]), excluded))
    {
      var l := listings[i];
      assert l in listings;
      ghost var before := Outcomes(Visits(listings[..i]), excluded);
      ghost var added := Outcomes(ListingVisits(l), excluded);
      ArchiveListing(archive, l, excluded);
      VisitsPrefix(listings, i);
      OutcomesAppend(Visits(listings[..i]), ListingVisits(l), excluded);
      Concatenation(before, added);
      AppendAssociative(old(archive.output), Blocks(before), Blocks(added));
    }
    assert listings[..|listings|] == listings;
  }

  /**
    Python's `combine_project_files` on the tree `root`: the header, then for every file
    the walk reaches, in walk order, the name check, the notebook or text dispatch, and
    either a block and the processed counter or the skipped counter.
   */
  method CombineProjectFiles(root: Entry, outputFilename: string) returns (archive: Archive)
    requires root.Folder?
    ensures archive.output == ArchiveText(Visits(Walk(root, [])), ExcludedNamesFor(outputFilename))
    ensures archive.processed == ProcessedCount(Outcomes(Visits(Walk(root, [])), ExcludedNamesFor(outputFilename)))
    ensures archive.skipped == SkippedCount(Outcomes(Visits(Walk(root, [])), ExcludedNamesFor(outputFilename)))
  {
    var excluded := ExcludeFiles;
    excluded := excluded + {outputFilename};
    assert excluded == ExcludedNamesFor(outputFilename);
    archive := new Archive();
    var listings := Walk(root, []);
    WalkListingsWellFormed(root, []);
    ArchiveListings(archive, listings, excluded);
  }
}
