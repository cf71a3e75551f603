/**
  The top-down directory walk. A directory's child directories are pruned by the
  exclusion rules and sorted before the walk descends into them, so nothing below a
  pruned directory is ever listed; each visited directory yields its files sorted by name.
 */
module Walker {
  import opened Wrappers
  import opened Text
  import opened Rules
  import opened Notebook
  import opened Seqs

  /**
    What the run can learn about one file: its bytes for the binary sniff (`None` when
    opening or reading fails); its text as `read()` in text mode returns it, that is decoded
    as UTF-8 with replacement characters and with `\r\n` and `\r` turned into `\n`
    (`None` when reading fails); and its cells when parsed as a notebook (`None` when the
    file cannot be opened or is not a notebook document).
   */
  datatype FileData = FileData(raw: Option<seq<bv8>>, text: Option<string>, cells: Option<seq<Cell>>)

  /** A directory entry as a directory listing returns it, in no particular order. */
  datatype Entry = File(name: string, data: FileData) | Folder(name: string, children: seq<Entry>)

  /** One directory the walk yields: its path below the root and its files, sorted by name. */
  datatype Listing = Listing(dirs: seq<string>, files: seq<Entry>)

  predicate SortedByName(s: seq<Entry>) {
    forall i, j :: 0 <= i < j < |s| ==> LexLe(s[i].name, s[j].name)
  }

  function InsertByName(e: Entry, s: seq<Entry>): (r: seq<Entry>)
    ensures multiset(r) == multiset(s) + multiset{e}
    ensures forall x :: x in r <==> x == e || x in s
  {
    if s == [] then [e]
    else if LexLe(e.name, s[0].name) then [e] + s
    else
      assert s == [s[0]] + s[1..];
      [s[0]] + InsertByName(e, s[1..])
  }

  /** Python's `sorted` on names: an insertion sort, stable for equal names. */
  function SortByName(s: seq<Entry>): (r: seq<Entry>)
    ensures multiset(r) == multiset(s)
    ensures forall x :: x in r <==> x in s
  {
    if s == [] then []
    else
      assert s == [s[0]] + s[1..];
      InsertByName(s[0], SortByName(s[1..]))
  }

  lemma {:induction false} InsertKeepsSorted(e: Entry, s: seq<Entry>)
    requires SortedByName(s)
    ensures SortedByName(InsertByName(e, s))
  {
    if s != [] {
      if LexLe(e.name, s[0].name) {
        forall j | 0 <= j < |s| ensures LexLe(e.name, s[j].name) {
          if j > 0 {
            LexLeTransitive(e.name, s[0].name, s[j].name);
          }
        }
        SortedCons(e, s);
      } else {
        LexLeTotal(e.name, s[0].name);
        InsertKeepsSorted(e, s[1..]);
        var tail := InsertByName(e, s[1..]);
        forall j | 0 <= j < |tail| ensures LexLe(s[0].name, tail[j].name) {
          assert tail[j] in tail;
          if tail[j] != e {
            var k :| 0 <= k < |s[1..]| && s[1..][k] == tail[j];
            assert s[k + 1] == tail[j];
          }
        }
        SortedCons(s[0], tail);
      }
    }
  }

  /** An entry no later than every entry of a sorted sequence can go in front of it. */
  lemma SortedCons(x: Entry, t: seq<Entry>)
    requires SortedByName(t)
    requires forall j :: 0 <= j < |t| ==> LexLe(x.name, t[j].name)
    ensures SortedByName([x] + t)
  {
    var r := [x] + t;
    forall i, j | 0 <= i < j < |r| ensures LexLe(r[i].name, r[j].name) {
      assert r[j] == t[j - 1];
      if i > 0 {
        assert r[i] == t[i - 1];
      }
    }
  }

  /** The sort orders by name and keeps every entry, as Python's `sorted` does. */
  lemma {:induction false} SortIsSorted(s: seq<Entry>)
    ensures SortedByName(SortByName(s))
    ensures multiset(SortByName(s)) == multiset(s)
  {
    if s != [] {
      SortIsSorted(s[1..]);
      InsertKeepsSorted(s[0], SortByName(s[1..]));
    }
  }

  /** The files among a directory's entries. */
  function FilesOf(children: seq<Entry>): (r: seq<Entry>)
    ensures forall x :: x in r <==> x in children && x.File?
  {
    if children == [] then []
    else (if children[0].File? then [children[0]] else []) + FilesOf(children[1..])
  }

  /** The child directories that survive pruning. */
  function KeptFolders(children: seq<Entry>, atRoot: bool): (r: seq<Entry>)
    ensures forall x :: x in r <==> x in children && x.Folder? && KeepDir(x.name, atRoot)
  {
    if children == [] then []
    else
      var c := children[0];
      (if c.Folder? && KeepDir(c.name, atRoot) then [c] else []) + KeptFolders(children[1..], atRoot)
  }

  /**
    Python's `os.walk(root, topdown=True)` with the in-place pruning of `dirnames`:
    the listing of `dir` (whose path below the root is `dirs`) comes first, then the
    walks of its kept child directories in ascending name order.
   */
  function Walk(dir: Entry, dirs: seq<string>): (r: seq<Listing>)
    requires dir.Folder?
    ensures r != [] && r[0].dirs == dirs
    ensures forall l :: l in r ==> |dirs| <= |l.dirs| && l.dirs[..|dirs|] == dirs
    decreases dir, 1
  {
    var files := SortByName(FilesOf(dir.children));
    var kept := SortByName(KeptFolders(dir.children, dirs == []));
    [Listing(dirs, files)] + WalkFolders(dir, kept, dirs)
  }

  /** The walks of the kept child directories, in order; everything they list lies deeper. */
  function WalkFolders(parent: Entry, folders: seq<Entry>, dirs: seq<string>): (r: seq<Listing>)
    requires parent.Folder?
    requires forall f :: f in folders ==> f in parent.children && f.Folder?
    ensures forall l :: l in r ==> |dirs| < |l.dirs| && l.dirs[..|dirs|] == dirs
    decreases parent, 0, |folders|
  {
    if folders == [] then []
    else
      var f := folders[0];
      var here := Walk(f, dirs + [f.name]);
      assert forall l :: l in here ==> l.dirs[..|dirs|] == l.dirs[..|dirs| + 1][..|dirs|];
      here + WalkFolders(parent, folders[1..], dirs)
  }

  /** A file handed to the per-file logic, with the directory path that leads to it. */
  datatype Visit = Visit(dirs: seq<string>, file: Entry)

  function ListingVisits(l: Listing): (r: seq<Visit>)
    ensures |r| == |l.files|
  {
    seq(|l.files|, k requires 0 <= k < |l.files| => Visit(l.dirs, l.files[k]))
  }

  /** The files of the walk, in the order the run reaches them. */
  function Visits(ls: seq<Listing>): seq<Visit> {
    if ls == [] then [] else ListingVisits(ls[0]) + Visits(ls[1..])
  }

  lemma {:induction false} VisitsAppend(a: seq<Listing>, b: seq<Listing>)
    ensures Visits(a + b) == Visits(a) + Visits(b)
  {
    if a == [] {
      assert a + b == b;
    } else {
      assert (a + b)[0] == a[0] && (a + b)[1..] == a[1..] + b;
      VisitsAppend(a[1..], b);
    }
  }

  lemma ListingVisitsMembers(l: Listing, v: Visit)
    ensures v in ListingVisits(l) <==> v.dirs == l.dirs && v.file in l.files
  {
    if v.dirs == l.dirs && v.file in l.files {
      var k :| 0 <= k < |l.files| && l.files[k] == v.file;
      assert ListingVisits(l)[k] == v;
    }
  }

  /** `f` is a file of the directory reached from `dir` by following the names in `path`. */
  ghost predicate InTree(dir: Entry, path: seq<string>, f: Entry)
    decreases dir
  {
    dir.Folder? &&
    if path == [] then f in dir.children && f.File?
    else exists c :: c in dir.children && c.Folder? && c.name == path[0] && InTree(c, path[1..], f)
  }

  /**
    Every directory on `path` passes the pruning rule; the first one is a child of the
    root when `atRoot` holds.
   */
  predicate AdmittedAt(path: seq<string>, atRoot: bool) {
    forall i :: 0 <= i < |path| ==> KeepDir(path[i], atRoot && i == 0)
  }

  lemma AdmittedCons(d: string, path: seq<string>, atRoot: bool)
    ensures AdmittedAt([d] + path, atRoot) <==> KeepDir(d, atRoot) && AdmittedAt(path, false)
  {
    var p := [d] + path;
    if KeepDir(d, atRoot) && AdmittedAt(path, false) {
      forall i | 0 <= i < |p| ensures KeepDir(p[i], atRoot && i == 0) {
        if i > 0 {
          assert p[i] == path[i - 1];
        }
      }
    }
    if AdmittedAt(p, atRoot) {
      assert KeepDir(p[0], atRoot);
      forall i | 0 <= i < |path| ensures KeepDir(path[i], false) {
        assert p[i + 1] == path[i];
      }
    }
  }

  /** The visits of a walk started at `dir`, whose path below the root is `dirs`. */
  ghost predicate VisitedBelow(dir: Entry, dirs: seq<string>, v: Visit) {
    |v.dirs| >= |dirs| && v.dirs[..|dirs|] == dirs
    && InTree(dir, v.dirs[|dirs|..], v.file)
    && AdmittedAt(v.dirs[|dirs|..], dirs == [])
  }

  lemma {:induction false} WalkVisits(dir: Entry, dirs: seq<string>, v: Visit)
    requires dir.Folder?
    ensures v in Visits(Walk(dir, dirs)) <==> VisitedBelow(dir, dirs, v)
    decreases dir, 2
  {
    var files := SortByName(FilesOf(dir.children));
    var kept := SortByName(KeptFolders(dir.children, dirs == []));
    var w := Walk(dir, dirs);
    assert w[0] == Listing(dirs, files) && w[1..] == WalkFolders(dir, kept, dirs);
    assert Visits(w) == ListingVisits(Listing(dirs, files)) + Visits(WalkFolders(dir, kept, dirs));
    HeadVisits(dir, dirs, v);
    DeeperVisits(dir, dirs, v);
  }

  /** The visits of a directory's own listing are its files, at its own path. */
  lemma HeadVisits(dir: Entry, dirs: seq<string>, v: Visit)
    requires dir.Folder?
    ensures v in ListingVisits(Listing(dirs, SortByName(FilesOf(dir.children)))) <==>
      VisitedBelow(dir, dirs, v) && |v.dirs| == |dirs|
  {
    ListingVisitsMembers(Listing(dirs, SortByName(FilesOf(dir.children))), v);
    if |v.dirs| == |dirs| {
      assert v.dirs[..|dirs|] == v.dirs;
      assert v.dirs[|dirs|..] == [];
    }
  }

  /** The visits below a directory's kept children are its files at admitted depth one or more. */
  lemma {:induction false} DeeperVisits(dir: Entry, dirs: seq<string>, v: Visit)
    requires dir.Folder?
    ensures v in Visits(WalkFolders(dir, SortByName(KeptFolders(dir.children, dirs == [])), dirs)) <==>
      VisitedBelow(dir, dirs, v) && |v.dirs| > |dirs|
    decreases dir, 1
  {
    var kept := SortByName(KeptFolders(dir.children, dirs == []));
    WalkFoldersVisits(dir, kept, dirs, v);
    if v in Visits(WalkFolders(dir, kept, dirs)) {
      var c :| c in kept && ViaChild(c, dirs, v);
      DeeperFromChild(dir, dirs, c, v);
    }
    if |v.dirs| > |dirs| && VisitedBelow(dir, dirs, v) {
      var c := ChildOnPath(dir, dirs, v);
      assert c in kept && ViaChild(c, dirs, v);
    }
  }

  lemma DeeperFromChild(dir: Entry, dirs: seq<string>, c: Entry, v: Visit)
    requires dir.Folder? && c in dir.children && c.Folder? && KeepDir(c.name, dirs == [])
    requires |v.dirs| > |dirs| && v.dirs[..|dirs| + 1] == dirs + [c.name]
    requires InTree(c, v.dirs[|dirs| + 1..], v.file) && AdmittedAt(v.dirs[|dirs| + 1..], false)
    ensures VisitedBelow(dir, dirs, v)
  {
    var q := v.dirs[|dirs|..];
    assert v.dirs[..|dirs|] == (dirs + [c.name])[..|dirs|] == dirs;
    assert q[0] == c.name && q[1..] == v.dirs[|dirs| + 1..];
    AdmittedCons(q[0], q[1..], dirs == []);
    assert [q[0]] + q[1..] == q;
  }

  /** The kept child directory through which a deeper visit passes. */
  lemma ChildOnPath(dir: Entry, dirs: seq<string>, v: Visit) returns (c: Entry)
    requires dir.Folder? && |v.dirs| > |dirs| && VisitedBelow(dir, dirs, v)
    ensures c in dir.children && c.Folder? && KeepDir(c.name, dirs == [])
    ensures v.dirs[..|dirs| + 1] == dirs + [c.name]
    ensures InTree(c, v.dirs[|dirs| + 1..], v.file) && AdmittedAt(v.dirs[|dirs| + 1..], false)
  {
    var q := v.dirs[|dirs|..];
    assert q[1..] == v.dirs[|dirs| + 1..];
    AdmittedCons(q[0], q[1..], dirs == []);
    assert [q[0]] + q[1..] == q;
    c :| c in dir.children && c.Folder? && c.name == q[0] && InTree(c, q[1..], v.file);
  }

  /** `v` lies below the child directory `c` of the directory at `dirs`, on an admitted path. */
  ghost predicate ViaChild(c: Entry, dirs: seq<string>, v: Visit) {
    |v.dirs| > |dirs| && v.dirs[..|dirs| + 1] == dirs + [c.name]
    && InTree(c, v.dirs[|dirs| + 1..], v.file) && AdmittedAt(v.dirs[|dirs| + 1..], false)
  }

  lemma ViaChildBelow(c: Entry, dirs: seq<string>, v: Visit)
    ensures ViaChild(c, dirs, v) <==> VisitedBelow(c, dirs + [c.name], v)
  {
  }

  lemma {:induction false} WalkFoldersVisits(parent: Entry, folders: seq<Entry>, dirs: seq<string>, v: Visit)
    requires parent.Folder?
    requires forall f :: f in folders ==> f in parent.children && f.Folder?
    ensures v in Visits(WalkFolders(parent, folders, dirs)) <==> exists c :: c in folders && ViaChild(c, dirs, v)
    decreases parent, 0, |folders|
  {
    if folders != [] {
      var f := folders[0];
      var rest := WalkFolders(parent, folders[1..], dirs);
      VisitsAppend(Walk(f, dirs + [f.name]), rest);
      WalkVisits(f, dirs + [f.name], v);
      ViaChildBelow(f, dirs, v);
      WalkFoldersVisits(parent, folders[1..], dirs, v);
      if c :| c in folders && ViaChild(c, dirs, v) {
        if c != f {
          assert c in folders[1..];
        }
      }
    }
  }

  /**
    A file is visited exactly when it lies in the tree below a path of directories that
    each pass the pruning rule, the first of them judged as a child of the root.
   */
  lemma WalkFromRoot(root: Entry, v: Visit)
    requires root.Folder?
    ensures v in Visits(Walk(root, [])) <==> InTree(root, v.dirs, v.file) && AdmittedAt(v.dirs, true)
  {
    WalkVisits(root, [], v);
    assert v.dirs[..0] == [] && v.dirs[0..] == v.dirs;
  }

  /**
    Pruning happens before descent: no visited file lies below a directory excluded
    anywhere or by its ending, and a root-only name is excluded only as a child of the root.
   */
  lemma NeverBelowExcluded(root: Entry, v: Visit)
    requires root.Folder? && v in Visits(Walk(root, []))
    ensures forall i :: 0 <= i < |v.dirs| ==> v.dirs[i] !in ExcludeDirsAnywhere && !HasExcludedPattern(v.dirs[i])
    ensures |v.dirs| > 0 ==> v.dirs[0] !in ExcludeDirsRootOnly
  {
    WalkFromRoot(root, v);
    forall i | 0 <= i < |v.dirs| ensures v.dirs[i] !in ExcludeDirsAnywhere && !HasExcludedPattern(v.dirs[i]) {
      assert KeepDir(v.dirs[i], i == 0);
    }
    if |v.dirs| > 0 {
      assert KeepDir(v.dirs[0], true);
    }
  }

  /** A yielded directory listing holds only files, in ascending name order. */
  predicate WellFormed(l: Listing) {
    SortedByName(l.files) && FilesOnly(l)
  }

  predicate FilesOnly(l: Listing) {
    forall f :: f in l.files ==> f.File?
  }

  lemma {:induction false} WalkListingsWellFormed(dir: Entry, dirs: seq<string>)
    requires dir.Folder?
    ensures forall l :: l in Walk(dir, dirs) ==> WellFormed(l)
    decreases dir, 1
  {
    var kept := SortByName(KeptFolders(dir.children, dirs == []));
    SortIsSorted(FilesOf(dir.children));
    WalkFoldersListingsWellFormed(dir, kept, dirs);
  }

  lemma {:induction false} WalkFoldersListingsWellFormed(parent: Entry, folders: seq<Entry>, dirs: seq<string>)
    requires parent.Folder?
    requires forall f :: f in folders ==> f in parent.children && f.Folder?
    ensures forall l :: l in WalkFolders(parent, folders, dirs) ==> WellFormed(l)
    decreases parent, 0, |folders|
  {
    if folders != [] {
      assert folders[0] in folders;
      WalkListingsWellFormed(folders[0], dirs + [folders[0].name]);
      WalkFoldersListingsWellFormed(parent, folders[1..], dirs);
    }
  }

  lemma {:induction false} KeptFoldersAppend(a: seq<Entry>, b: seq<Entry>, atRoot: bool)
    ensures KeptFolders(a + b, atRoot) == KeptFolders(a, atRoot) + KeptFolders(b, atRoot)
  {
    if a == [] {
      assert a + b == b;
    } else {
      var c := a[0];
      var head := if c.Folder? && KeepDir(c.name, atRoot) then [c] else [];
      SplitHead(a, b);
      KeptFoldersAppend(a[1..], b, atRoot);
      assert KeptFolders(a + b, atRoot) == head + KeptFolders(a[1..] + b, atRoot);
      Associative(head, KeptFolders(a[1..], atRoot), KeptFolders(b, atRoot));
    }
  }

  lemma KeptFoldersOne(d: Entry, atRoot: bool)
    requires d.Folder?
    ensures KeptFolders([d], atRoot) == if KeepDir(d.name, atRoot) then [d] else []
  {
    assert [d][1..] == [];
  }

  /** One more listed directory extends the kept ones by itself exactly when no rule prunes it. */
  lemma PruneStep(dirnames: seq<Entry>, i: nat, atRoot: bool)
    requires i < |dirnames| && dirnames[i].Folder?
    ensures KeptFolders(dirnames[..i + 1], atRoot)
         == KeptFolders(dirnames[..i], atRoot) + if KeepDir(dirnames[i].name, atRoot) then [dirnames[i]] else []
  {
    KeptFoldersAppend(dirnames[..i], [dirnames[i]], atRoot);
    KeptFoldersOne(dirnames[i], atRoot);
    assert dirnames[..i + 1] == dirnames[..i] + [dirnames[i]];
  }

  /**
    The in-place rebuild of `dirnames`: each listed directory is tried against the three
    rules in order and appended back when none applies, then the list is sorted.
   */
  method PruneDirs(dirnames: seq<Entry>, atRoot: bool) returns (kept: seq<Entry>)
    requires forall d :: d in dirnames ==> d.Folder?
    ensures kept == SortByName(KeptFolders(dirnames, atRoot))
    ensures SortedByName(kept) && multiset(kept) == multiset(KeptFolders(dirnames, atRoot))
    ensures forall d :: d in kept <==> d in dirnames && KeepDir(d.name, atRoot)
  {
    kept := [];
    for i := 0 to |dirnames|
      invariant kept == KeptFolders(dirnames[..i], atRoot)
    {
      var d := dirnames[i];
      PruneStep(dirnames, i, atRoot);
      if d.name in ExcludeDirsAnywhere {
        continue;
      }
      if d.name in ExcludeDirsRootOnly && atRoot {
        continue;
      }
      if HasExcludedPattern(d.name) {
        continue;
      }
      kept := kept + [d];
    }
    assert dirnames[..|dirnames|] == dirnames;
    SortIsSorted(kept);
    kept := SortByName(kept);
  }

  /** `data` is pruned as a child of the root and kept one level deeper. */
  lemma DataKeptOnlyBelowRoot()
    ensures !KeepDir("data", true) && KeepDir("data", false)
  {
    assert !EndsWith("data", ".egg-info");
    assert !HasExcludedPattern("data");
  }

  lemma DataExample(d: FileData)
    ensures var root := Folder("proj", [
      Folder("data", [File("raw.csv", d)]),
      Folder("src", [Folder("data", [File("load.py", d)])])]);
      && Visit(["src", "data"], File("load.py", d)) in Visits(Walk(root, []))
      && Visit(["data"], File("raw.csv", d)) !in Visits(Walk(root, []))
  {
    var nested := Folder("data", [File("load.py", d)]);
    var src := Folder("src", [nested]);
    var top := Folder("data", [File("raw.csv", d)]);
    var root := Folder("proj", [top, src]);
    DataKeptOnlyBelowRoot();
    assert !EndsWith("src", ".egg-info");
    assert KeepDir("src", true);
    assert AdmittedAt(["src", "data"], true);
    assert InTree(nested, [], File("load.py", d));
    assert ["src", "data"][1..] == ["data"] && ["data"][1..] == [];
    assert InTree(src, ["data"], File("load.py", d));
    assert InTree(root, ["src", "data"], File("load.py", d));
    WalkFromRoot(root, Visit(["src", "data"], File("load.py", d)));
    WalkFromRoot(root, Visit(["data"], File("raw.csv", d)));
  }

  // The walk does not depend on the order in which a directory lists its entries.

  /** Entries that share a name are the same entry, as names within one directory are. */
  predicate NamesDetermine(s: seq<Entry>) {
    forall x, y :: x in s && y in s && x.name == y.name ==> x == y
  }

  /** Every directory of the tree holds entries with distinct names, as a file system's do. */
  predicate UniqueNames(e: Entry)
    decreases e
  {
    e.Folder? ==> NamesDetermine(e.children) && forall i :: 0 <= i < |e.children| ==> UniqueNames(e.children[i])
  }

  /** Two sorted sequences with the same entries, told apart by their names, are equal. */
  lemma {:induction false} SortedUnique(s: seq<Entry>, t: seq<Entry>)
    requires SortedByName(s) && SortedByName(t)
    requires multiset(s) == multiset(t) && NamesDetermine(s)
    ensures s == t
    decreases |s|
  {
    assert |s| == |multiset(s)| == |t|;
    if s != [] {
      SortedHeads(s, t);
      SortedTail(s);
      SortedTail(t);
      MultisetTail(s, t);
      NamesDetermineSub(s[1..], s);
      SortedUnique(s[1..], t[1..]);
      assert s == [s[0]] + s[1..] && t == [t[0]] + t[1..];
    }
  }

  lemma SortedTail(s: seq<Entry>)
    requires SortedByName(s) && s != []
    ensures SortedByName(s[1..])
  {
    forall i, j | 0 <= i < j < |s[1..]| ensures LexLe(s[1..][i].name, s[1..][j].name) {
      assert s[1..][i] == s[i + 1] && s[1..][j] == s[j + 1];
    }
  }

  lemma NamesDetermineSub(s: seq<Entry>, t: seq<Entry>)
    requires NamesDetermine(t) && forall x :: x in s ==> x in t
    ensures NamesDetermine(s)
  {
  }

  /** Taking the same first entry off two sequences with the same entries leaves the same entries. */
  lemma MultisetTail(s: seq<Entry>, t: seq<Entry>)
    requires s != [] && t != [] && s[0] == t[0] && multiset(s) == multiset(t)
    ensures multiset(s[1..]) == multiset(t[1..])
  {
    assert s == [s[0]] + s[1..] && t == [t[0]] + t[1..];
    assert multiset(s) == multiset{s[0]} + multiset(s[1..]);
    assert multiset(t) == multiset{t[0]} + multiset(t[1..]);
    forall x ensures multiset(s[1..])[x] == multiset(t[1..])[x] {
      assert multiset(s)[x] == multiset{s[0]}[x] + multiset(s[1..])[x];
      assert multiset(t)[x] == multiset{t[0]}[x] + multiset(t[1..])[x];
    }
  }

  /** Two such sequences start with the same entry: the one whose name comes first. */
  lemma SortedHeads(s: seq<Entry>, t: seq<Entry>)
    requires SortedByName(s) && SortedByName(t) && s != [] && t != []
    requires multiset(s) == multiset(t) && NamesDetermine(s)
    ensures s[0] == t[0]
  {
    assert s[0] in multiset(t) && t[0] in multiset(s);
    var j :| 0 <= j < |t| && t[j] == s[0];
    var k :| 0 <= k < |s| && s[k] == t[0];
    LexLeTotal(s[0].name, s[0].name);
    LexLeTotal(t[0].name, t[0].name);
    assert LexLe(t[0].name, s[0].name) by {
      if j > 0 {
        assert LexLe(t[0].name, t[j].name);
      }
    }
    assert LexLe(s[0].name, t[0].name) by {
      if k > 0 {
        assert LexLe(s[0].name, s[k].name);
      }
    }
    LexLeAntisymmetric(s[0].name, t[0].name);
  }

  /** Sorting by name depends only on which entries there are, not on their order. */
  lemma SortByNameIgnoresOrder(s: seq<Entry>, t: seq<Entry>)
    requires multiset(s) == multiset(t) && NamesDetermine(s)
    ensures SortByName(s) == SortByName(t)
  {
    SortIsSorted(s);
    SortIsSorted(t);
    SortedUnique(SortByName(s), SortByName(t));
  }

  /** The tree with every directory's entries put in name order, all the way down. */
  function Normal(e: Entry): (r: Entry)
    ensures r.name == e.name && r.Folder? == e.Folder?
    ensures e.File? ==> r == e
    decreases e
  {
    match e
    case File(_, _) => e
    case Folder(name, children) =>
      Folder(name, SortByName(seq(|children|, i requires 0 <= i < |children| => Normal(children[i]))))
  }

  function NormalAll(s: seq<Entry>): (r: seq<Entry>)
    ensures |r| == |s|
  {
    seq(|s|, i requires 0 <= i < |s| => Normal(s[i]))
  }

  lemma NormalFolder(e: Entry)
    requires e.Folder?
    ensures Normal(e) == Folder(e.name, SortByName(NormalAll(e.children)))
  {
  }

  lemma NormalAllCons(s: seq<Entry>)
    requires s != []
    ensures NormalAll(s) == [Normal(s[0])] + NormalAll(s[1..])
  {
    var r := [Normal(s[0])] + NormalAll(s[1..]);
    forall i | 0 <= i < |s| ensures NormalAll(s)[i] == r[i] {
      if i > 0 {
        assert r[i] == NormalAll(s[1..])[i - 1] == Normal(s[1..][i - 1]);
      }
    }
  }

  lemma NormalAllMembers(s: seq<Entry>, x: Entry)
    requires x in s
    ensures Normal(x) in NormalAll(s)
  {
    var i :| 0 <= i < |s| && s[i] == x;
    assert NormalAll(s)[i] == Normal(x);
  }

  /** Normalising keeps names apart when they were apart. */
  lemma NormalAllNames(s: seq<Entry>)
    requires NamesDetermine(s)
    ensures NamesDetermine(NormalAll(s))
  {
    forall x, y | x in NormalAll(s) && y in NormalAll(s) && x.name == y.name ensures x == y {
      var i :| 0 <= i < |s| && NormalAll(s)[i] == x;
      var j :| 0 <= j < |s| && NormalAll(s)[j] == y;
      assert s[i] in s && s[j] in s;
    }
  }

  lemma {:induction false} NormalInsert(e: Entry, s: seq<Entry>)
    ensures NormalAll(InsertByName(e, s)) == InsertByName(Normal(e), NormalAll(s))
  {
    if s == [] {
      assert NormalAll([e]) == [Normal(e)];
    } else {
      NormalAllCons(s);
      if LexLe(e.name, s[0].name) {
        NormalAllCons([e] + s);
        assert ([e] + s)[1..] == s;
      } else {
        NormalInsert(e, s[1..]);
        NormalAllCons([s[0]] + InsertByName(e, s[1..]));
        assert ([s[0]] + InsertByName(e, s[1..]))[1..] == InsertByName(e, s[1..]);
      }
    }
  }

  /** Normalising the entries commutes with sorting them, since it keeps their names. */
  lemma {:induction false} NormalSort(s: seq<Entry>)
    ensures NormalAll(SortByName(s)) == SortByName(NormalAll(s))
  {
    if s != [] {
      NormalSort(s[1..]);
      NormalInsert(s[0], SortByName(s[1..]));
      NormalAllCons(s);
    }
  }

  lemma {:induction false} NormalFiles(s: seq<Entry>)
    ensures FilesOf(NormalAll(s)) == FilesOf(s)
  {
    if s != [] {
      NormalAllCons(s);
      NormalFiles(s[1..]);
    }
  }

  lemma {:induction false} NormalKept(s: seq<Entry>, atRoot: bool)
    ensures KeptFolders(NormalAll(s), atRoot) == NormalAll(KeptFolders(s, atRoot))
  {
    if s != [] {
      NormalAllCons(s);
      NormalKept(s[1..], atRoot);
      if s[0].Folder? && KeepDir(s[0].name, atRoot) {
        NormalAllCons(KeptFolders(s, atRoot));
        assert KeptFolders(s, atRoot) == [s[0]] + KeptFolders(s[1..], atRoot);
      }
    }
  }

  lemma {:induction false} FilesOfCount(s: seq<Entry>, x: Entry)
    ensures multiset(FilesOf(s))[x] == if x.File? then multiset(s)[x] else 0
  {
    if s != [] {
      FilesOfCount(s[1..], x);
      var head := if s[0].File? then [s[0]] else [];
      assert FilesOf(s) == head + FilesOf(s[1..]);
      assert multiset(FilesOf(s)) == multiset(head) + multiset(FilesOf(s[1..]));
      assert s == [s[0]] + s[1..];
      assert multiset(s) == multiset([s[0]]) + multiset(s[1..]);
    }
  }

  /** The entries of `s` for which `keep` holds, in order. */
  function Keeping(s: seq<Entry>, keep: Entry -> bool): seq<Entry> {
    if s == [] then [] else (if keep(s[0]) then [s[0]] else []) + Keeping(s[1..], keep)
  }

  lemma {:induction false} KeepingCount(s: seq<Entry>, keep: Entry -> bool, x: Entry)
    ensures multiset(Keeping(s, keep))[x] == if keep(x) then multiset(s)[x] else 0
  {
    if s != [] {
      KeepingCount(s[1..], keep, x);
      var head := if keep(s[0]) then [s[0]] else [];
      assert multiset(Keeping(s, keep)) == multiset(head) + multiset(Keeping(s[1..], keep));
      assert s == [s[0]] + s[1..];
      assert multiset(s) == multiset([s[0]]) + multiset(s[1..]);
    }
  }

  lemma {:induction false} KeptIsKeeping(s: seq<Entry>, atRoot: bool)
    ensures KeptFolders(s, atRoot) == Keeping(s, (e: Entry) => e.Folder? && KeepDir(e.name, atRoot))
  {
    if s != [] {
      KeptIsKeeping(s[1..], atRoot);
    }
  }

  lemma KeptCount(s: seq<Entry>, atRoot: bool, x: Entry)
    ensures multiset(KeptFolders(s, atRoot))[x] == if x.Folder? && KeepDir(x.name, atRoot) then multiset(s)[x] else 0
  {
    KeptIsKeeping(s, atRoot);
    KeepingCount(s, (e: Entry) => e.Folder? && KeepDir(e.name, atRoot), x);
  }

  /** The files, and the kept child directories, of a reordered listing are reordered too. */
  lemma FilterPerm(s: seq<Entry>, t: seq<Entry>, atRoot: bool)
    requires multiset(s) == multiset(t)
    ensures multiset(FilesOf(s)) == multiset(FilesOf(t))
    ensures multiset(KeptFolders(s, atRoot)) == multiset(KeptFolders(t, atRoot))
  {
    forall x ensures multiset(FilesOf(s))[x] == multiset(FilesOf(t))[x] {
      FilesOfCount(s, x);
      FilesOfCount(t, x);
    }
    forall x ensures multiset(KeptFolders(s, atRoot))[x] == multiset(KeptFolders(t, atRoot))[x] {
      KeptCount(s, atRoot, x);
      KeptCount(t, atRoot, x);
    }
  }

  /** The sorted files and kept directories of a normalised directory. */
  lemma NormalListing(e: Entry, atRoot: bool)
    requires e.Folder? && NamesDetermine(e.children)
    ensures SortByName(FilesOf(Normal(e).children)) == SortByName(FilesOf(e.children))
    ensures SortByName(KeptFolders(Normal(e).children, atRoot)) == NormalAll(SortByName(KeptFolders(e.children, atRoot)))
  {
    var y := NormalAll(e.children);
    NormalFolder(e);
    NormalAllNames(e.children);
    FilterPerm(SortByName(y), y, atRoot);
    SortByNameIgnoresOrder(FilesOf(SortByName(y)), FilesOf(y));
    NormalFiles(e.children);
    SortByNameIgnoresOrder(KeptFolders(SortByName(y), atRoot), KeptFolders(y, atRoot));
    NormalKept(e.children, atRoot);
    NormalSort(KeptFolders(e.children, atRoot));
  }

  /** A well-formed tree and its normal form are walked alike. */
  lemma {:induction false} WalkNormal(e: Entry, dirs: seq<string>)
    requires e.Folder? && UniqueNames(e)
    ensures Walk(Normal(e), dirs) == Walk(e, dirs)
    decreases e, 1
  {
    var kept := SortByName(KeptFolders(e.children, dirs == []));
    NormalListing(e, dirs == []);
    NormalKeptMembers(e, kept);
    WalkFoldersNormal(e, kept, dirs);
    WalkUnfold(e, dirs);
    WalkUnfold(Normal(e), dirs);
  }

  lemma WalkUnfold(e: Entry, dirs: seq<string>)
    requires e.Folder?
    ensures Walk(e, dirs) == [Listing(dirs, SortByName(FilesOf(e.children)))]
      + WalkFolders(e, SortByName(KeptFolders(e.children, dirs == [])), dirs)
  {
  }

  /** The normal forms of some child directories are child directories of the normal form. */
  lemma NormalKeptMembers(e: Entry, kept: seq<Entry>)
    requires e.Folder?
    requires forall f :: f in kept ==> f in e.children && f.Folder?
    ensures forall f :: f in NormalAll(kept) ==> f in Normal(e).children && f.Folder?
  {
    NormalFolder(e);
    forall f | f in NormalAll(kept) ensures f in Normal(e).children && f.Folder? {
      var i :| 0 <= i < |kept| && NormalAll(kept)[i] == f;
      assert kept[i] in kept;
      NormalAllMembers(e.children, kept[i]);
    }
  }

  lemma {:induction false} WalkFoldersNormal(e: Entry, folders: seq<Entry>, dirs: seq<string>)
    requires e.Folder? && UniqueNames(e)
    requires forall f :: f in folders ==> f in e.children && f.Folder?
    requires forall f :: f in NormalAll(folders) ==> f in Normal(e).children && f.Folder?
    ensures WalkFolders(Normal(e), NormalAll(folders), dirs) == WalkFolders(e, folders, dirs)
    decreases e, 0, |folders|
  {
    if folders != [] {
      var f := folders[0];
      assert f in e.children;
      var i :| 0 <= i < |e.children| && e.children[i] == f;
      WalkNormal(f, dirs + [f.name]);
      NormalAllCons(folders);
      assert NormalAll(folders)[1..] == NormalAll(folders[1..]);
      WalkFoldersNormal(e, folders[1..], dirs);
    }
  }

  /**
    Listing a directory's entries in another order changes nothing: two well-formed trees
    with the same normal form are walked alike.
   */
  lemma WalkIgnoresOrder(a: Entry, b: Entry, dirs: seq<string>)
    requires a.Folder? && b.Folder? && UniqueNames(a) && UniqueNames(b)
    requires Normal(a) == Normal(b)
    ensures Walk(a, dirs) == Walk(b, dirs)
  {
    WalkNormal(a, dirs);
    WalkNormal(b, dirs);
  }

  /** A directory whose entries are listed in another order has the same normal form. */
  lemma PermutedChildren(a: Entry, b: Entry)
    requires a.Folder? && b.Folder? && a.name == b.name
    requires multiset(a.children) == multiset(b.children) && NamesDetermine(a.children)
    ensures Normal(a) == Normal(b)
  {
    NormalFolder(a);
    NormalFolder(b);
    NormalSort(a.children);
    NormalSort(b.children);
    SortByNameIgnoresOrder(a.children, b.children);
  }
}
