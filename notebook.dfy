/**
  Extraction of the code and markdown cells of an already-parsed Jupyter notebook.
  A cell's `source` is normalised to one string, whitespace-only cells are skipped, each
  kept cell becomes a labelled part numbered by its original 1-based position, and the
  parts are joined with newlines. A failure anywhere yields `None`.
 */
module Notebook {
  import opened Wrappers
  import opened Text

  /** One element of a list-valued `source`; joining a non-string raises. */
  datatype Fragment = Str(text: string) | NonStr

  /**
    A cell's `source`: a JSON list (the missing key defaults to the empty list), or any
    other JSON value, already rendered by Python's `str()`.
   */
  datatype Source = ListSource(items: seq<Fragment>) | Scalar(text: string)

  /**
    A cell's `cell_type`: the JSON string `"code"`, the JSON string `"markdown"`, or
    anything else (another string, another JSON value, or no such key).
   */
  datatype CellType = Code | Markdown | OtherType

  /** A cell: its type and its source; a cell that is not a JSON object makes `cell.get` raise. */
  datatype Cell = Cell(cellType: CellType, source: Source) | NotAnObject

  /** A labelled part before it is rendered: the cell's 1-based position, its type, its source. */
  datatype Part = Part(index: nat, kind: CellType, text: string)

  /** What one cell contributes: the loop raises, skips it, or appends a part. */
  datatype CellStep = Raises | Silent | Emits(part: Part)

  /** The texts of the fragments, with nothing for a fragment that is not a string. */
  function FragmentTexts(items: seq<Fragment>): (r: seq<string>)
    ensures |r| == |items|
  {
    seq(|items|, k requires 0 <= k < |items| => if items[k].Str? then items[k].text else "")
  }

  /** `"".join(items)`, or `None` when an item is not a string. */
  function JoinFragments(items: seq<Fragment>): Option<string> {
    if items == [] then Some("")
    else match items[0]
      case NonStr => None
      case Str(t) =>
        match JoinFragments(items[1..])
        case None => None
        case Some(rest) => Some(t + rest)
  }

  /** The `source` as one string: a list is joined, any other value is already its `str()`. */
  function SourceText(src: Source): Option<string> {
    match src
    case ListSource(items) => JoinFragments(items)
    case Scalar(text) => Some(text)
  }

  /**
    Joining fragments fails exactly when some fragment is not a string; otherwise it gives
    the fragments' texts joined with the empty separator.
   */
  lemma {:induction false} JoinFragmentsMeaning(items: seq<Fragment>)
    ensures JoinFragments(items).None? <==> exists k :: 0 <= k < |items| && items[k].NonStr?
    ensures JoinFragments(items).Some? ==> JoinFragments(items).value == Join("", FragmentTexts(items))
  {
    if items != [] {
      match items[0]
      case NonStr =>
        assert items[0].NonStr?;
      case Str(t) =>
        var tail := items[1..];
        JoinFragmentsMeaning(tail);
        NonStrInTail(items);
        if JoinFragments(tail).Some? {
          FragmentTextsCons(items);
          JoinEmptyCons(t, FragmentTexts(tail));
        }
    }
  }

  /** After a string fragment, a non-string fragment lies in the tail exactly when it lies anywhere. */
  lemma NonStrInTail(items: seq<Fragment>)
    requires items != [] && items[0].Str?
    ensures (exists k :: 0 <= k < |items| && items[k].NonStr?) <==> (exists k :: 0 <= k < |items[1..]| && items[1..][k].NonStr?)
  {
    if exists k :: 0 <= k < |items| && items[k].NonStr? {
      var k :| 0 <= k < |items| && items[k].NonStr?;
      assert items[1..][k - 1].NonStr?;
    }
    if exists k :: 0 <= k < |items[1..]| && items[1..][k].NonStr? {
      var k :| 0 <= k < |items[1..]| && items[1..][k].NonStr?;
      assert items[k + 1].NonStr?;
    }
  }

  lemma FragmentTextsCons(items: seq<Fragment>)
    requires items != [] && items[0].Str?
    ensures FragmentTexts(items) == [items[0].text] + FragmentTexts(items[1..])
  {
  }

  /**
    A cell's source text: `None` exactly for a list holding a non-string; a list otherwise
    gives its fragments joined with the empty separator, and any other value its `str()`.
   */
  lemma SourceTextMeaning(src: Source)
    ensures SourceText(src).None? <==> src.ListSource? && exists k :: 0 <= k < |src.items| && src.items[k].NonStr?
    ensures src.ListSource? && SourceText(src).Some? ==> SourceText(src).value == Join("", FragmentTexts(src.items))
    ensures src.Scalar? ==> SourceText(src) == Some(src.text)
  {
    if src.ListSource? {
      JoinFragmentsMeaning(src.items);
    }
  }

  /** The head of a part's label: `# --- `, the cell kind and `Cell `. */
  function LabelHead(kind: CellType): string {
    if kind == Code then "# --- Code Cell " else "# --- Markdown Cell "
  }

  /** `r` is `head`, then a non-empty run of decimal digits that reads as `n`, then `tail`. */
  predicate NumberedBetween(r: string, head: string, n: nat, tail: string) {
    && |head| + |tail| < |r|
    && StartsWith(r, head) && EndsWith(r, tail)
    && IsDigits(r[|head|..|r| - |tail|])
    && DecimalValue(r[|head|..|r| - |tail|]) == n
  }

  /**
    The text appended for a part: the label `# --- Code Cell i ---` (or `Markdown Cell`)
    with the part's number `i`, a newline, the source and a newline.
   */
  function Render(p: Part): (r: string)
    ensures StartsWith(r, "# --- ")
    ensures EndsWith(r, " ---\n" + p.text + "\n")
    ensures NumberedBetween(r, LabelHead(p.kind), p.index, " ---\n" + p.text + "\n")
  {
    var head := LabelHead(p.kind);
    var number, body := DecimalString(p.index), " ---\n" + p.text + "\n";
    var r := head + number + body;
    assert head[..6] == "# --- ";
    StartsWithAppend(head, number + body);
    assert r == head + (number + body);
    StartsWithTrans(r, head, "# --- ");
    EndsWithAppend(head + number, body);
    assert r[|head|..|r| - |body|] == number;
    DecimalRoundTrip(p.index);
    r
  }

  function RenderAll(parts: seq<Part>): (r: seq<string>)
    ensures |r| == |parts|
  {
    seq(|parts|, k requires 0 <= k < |parts| => Render(parts[k]))
  }

  /** The loop body for the cell at 1-based position `index`. */
  function Step(index: nat, cell: Cell): (r: CellStep)
    ensures r.Raises? <==> Raising(cell)
    ensures r.Emits? <==> Yields(cell)
    ensures r.Emits? ==> r.part == Part(index, cell.cellType, SourceText(cell.source).value)
  {
    match cell
    case NotAnObject => Raises
    case Cell(cellType, source) =>
      match SourceText(source)
      case None => Raises
      case Some(text) =>
        if Strip(text) == [] then Silent
        else if cellType == Code || cellType == Markdown then Emits(Part(index, cellType, text))
        else Silent
  }

  /** The parts collected from `cells[i..]`, or `None` if one of those cells raises. */
  function PartsFrom(cells: seq<Cell>, i: nat): (r: Option<seq<Part>>)
    requires i <= |cells|
    ensures r.Some? ==> |r.value| <= |cells| - i
    ensures r.Some? ==> forall k :: 0 <= k < |r.value| ==> i < r.value[k].index <= |cells|
    decreases |cells| - i
  {
    if i == |cells| then Some([])
    else match Step(i + 1, cells[i])
      case Raises => None
      case Silent => PartsFrom(cells, i + 1)
      case Emits(part) =>
        match PartsFrom(cells, i + 1)
        case None => None
        case Some(rest) => Some([part] + rest)
  }

  /** Python's `process_notebook` on a parsed document; `None` is a read or parse failure. */
  function ProcessNotebook(cells: Option<seq<Cell>>): (r: Option<string>)
    ensures r.None? <==> cells.None? || exists j :: 0 <= j < |cells.value| && Raising(cells.value[j])
    ensures cells == Some([]) ==> r == Some("")
  {
    match cells
    case None => None
    case Some(cs) =>
      PartsFailIff(cs, 0);
      match PartsFrom(cs, 0)
      case None => None
      case Some(parts) => Some(Join("\n", RenderAll(parts)))
  }

  /** A cell that yields a part: a code or markdown cell whose source is not blank. */
  predicate Yields(cell: Cell) {
    && cell.Cell?
    && SourceText(cell.source).Some?
    && Strip(SourceText(cell.source).value) != []
    && (cell.cellType == Code || cell.cellType == Markdown)
  }

  /** The 0-based positions, from `i` on, of the cells that yield a part. */
  function YieldingFrom(cells: seq<Cell>, i: nat): (r: seq<nat>)
    requires i <= |cells|
    ensures forall k :: 0 <= k < |r| ==> i <= r[k] < |cells|
    decreases |cells| - i
  {
    if i == |cells| then []
    else if Yields(cells[i]) then [i] + YieldingFrom(cells, i + 1)
    else YieldingFrom(cells, i + 1)
  }

  /** Only yielding cells are listed. */
  lemma {:induction false} YieldingSound(cells: seq<Cell>, i: nat)
    requires i <= |cells|
    ensures forall k :: 0 <= k < |YieldingFrom(cells, i)| ==> Yields(cells[YieldingFrom(cells, i)[k]])
    decreases |cells| - i
  {
    if i < |cells| {
      YieldingSound(cells, i + 1);
      var r, rest := YieldingFrom(cells, i), YieldingFrom(cells, i + 1);
      if Yields(cells[i]) {
        assert r == [i] + rest;
        forall k | 0 <= k < |r| ensures Yields(cells[r[k]]) {
          if k > 0 {
            assert r[k] == rest[k - 1];
          }
        }
      }
    }
  }

  /** Every yielding cell from `i` on is listed. */
  lemma {:induction false} YieldingComplete(cells: seq<Cell>, i: nat, j: nat)
    requires i <= j < |cells| && Yields(cells[j])
    ensures j in YieldingFrom(cells, i)
    decreases |cells| - i
  {
    if i < j {
      YieldingComplete(cells, i + 1, j);
    }
  }

  /** The listed positions are strictly increasing: parts keep the cells' order. */
  lemma {:induction false} YieldingIncreasing(cells: seq<Cell>, i: nat)
    requires i <= |cells|
    ensures forall k, l :: 0 <= k < l < |YieldingFrom(cells, i)| ==> YieldingFrom(cells, i)[k] < YieldingFrom(cells, i)[l]
    decreases |cells| - i
  {
    if i < |cells| {
      YieldingIncreasing(cells, i + 1);
      var rest := YieldingFrom(cells, i + 1);
      if Yields(cells[i]) {
        var r := YieldingFrom(cells, i);
        assert r == [i] + rest;
        forall k, l | 0 <= k < l < |r| ensures r[k] < r[l] {
          assert r[l] == rest[l - 1];
          if k > 0 {
            assert r[k] == rest[k - 1];
            assert rest[k - 1] < rest[l - 1];
          } else {
            assert i + 1 <= rest[l - 1];
          }
        }
      }
    }
  }

  predicate Raising(cell: Cell) {
    cell.NotAnObject? || SourceText(cell.source).None?
  }

  /** Extraction fails exactly when some cell from `i` on is malformed. */
  lemma {:induction false} PartsFailIff(cells: seq<Cell>, i: nat)
    requires i <= |cells|
    ensures PartsFrom(cells, i).None? <==> exists j :: i <= j < |cells| && Raising(cells[j])
    decreases |cells| - i
  {
    if i < |cells| {
      PartsFailIff(cells, i + 1);
      if !Step(i + 1, cells[i]).Raises? {
        assert PartsFrom(cells, i).None? <==> PartsFrom(cells, i + 1).None?;
      }
    }
  }

  /** The `k`-th part is what the cell at position `idx[k]` emits, for every `k`. */
  predicate EmittedBy(cells: seq<Cell>, idx: seq<nat>, parts: seq<Part>) {
    && |parts| == |idx|
    && forall k :: 0 <= k < |parts| ==> idx[k] < |cells| && Step(idx[k] + 1, cells[idx[k]]) == Emits(parts[k])
  }

  lemma EmittedByCons(cells: seq<Cell>, i: nat, part: Part, idx: seq<nat>, parts: seq<Part>)
    requires i < |cells| && Step(i + 1, cells[i]) == Emits(part)
    requires EmittedBy(cells, idx, parts)
    ensures EmittedBy(cells, [i] + idx, [part] + parts)
  {
    var idx', parts' := [i] + idx, [part] + parts;
    forall k | 0 <= k < |parts'|
      ensures idx'[k] < |cells| && Step(idx'[k] + 1, cells[idx'[k]]) == Emits(parts'[k])
    {
      if k > 0 {
        assert parts'[k] == parts[k - 1] && idx'[k] == idx[k - 1];
      }
    }
  }

  /**
    When extraction succeeds, the `k`-th part is the labelled source of the `k`-th
    yielding cell, numbered by that cell's original 1-based position.
   */
  lemma {:induction false} PartsAreYieldingCells(cells: seq<Cell>, i: nat)
    requires i <= |cells|
    requires PartsFrom(cells, i).Some?
    ensures EmittedBy(cells, YieldingFrom(cells, i), PartsFrom(cells, i).value)
    decreases |cells| - i
  {
    if i < |cells| {
      var step := Step(i + 1, cells[i]);
      PartsAreYieldingCells(cells, i + 1);
      var rest, restIdx := PartsFrom(cells, i + 1).value, YieldingFrom(cells, i + 1);
      if step.Emits? {
        assert PartsFrom(cells, i).value == [step.part] + rest;
        assert YieldingFrom(cells, i) == [i] + restIdx;
        EmittedByCons(cells, i, step.part, restIdx, rest);
      } else {
        assert PartsFrom(cells, i).value == rest;
        assert YieldingFrom(cells, i) == restIdx;
      }
    }
  }

  /**
    The whole notebook: extraction fails iff some cell is malformed; otherwise the parts
    are the labelled yielding cells in their original order (with `YieldingComplete`,
    every yielding cell is among them), joined by newlines.
   */
  lemma NotebookParts(cells: seq<Cell>)
    ensures PartsFrom(cells, 0).None? <==> exists j :: 0 <= j < |cells| && Raising(cells[j])
    ensures PartsFrom(cells, 0).Some? ==>
      var parts, idx := PartsFrom(cells, 0).value, YieldingFrom(cells, 0);
      && EmittedBy(cells, idx, parts)
      && (forall k :: 0 <= k < |idx| ==> Yields(cells[idx[k]]))
      && (forall k, l :: 0 <= k < l < |idx| ==> idx[k] < idx[l])
      && ProcessNotebook(Some(cells)) == Some(Join("\n", RenderAll(parts)))
  {
    PartsFailIff(cells, 0);
    if PartsFrom(cells, 0).Some? {
      PartsAreYieldingCells(cells, 0);
      YieldingIncreasing(cells, 0);
      YieldingSound(cells, 0);
    }
  }

  lemma ExampleCodeCell1()
    ensures Step(1, Cell(Code, Scalar("x=1"))) == Emits(Part(1, Code, "x=1"))
  {
    StripExact("", "x=1", "", Whitespace);
  }

  lemma ExampleCodeCell3()
    ensures Step(3, Cell(Code, ListSource([Str("print("), Str("x)")])))
         == Emits(Part(3, Code, "print(x)"))
  {
    var items := [Str("print("), Str("x)")];
    assert JoinFragments(items) == Some("print(x)") by {
      assert items[1..][1..] == [];
      assert JoinFragments(items[1..]) == Some("x)" + "");
      assert "print(" + ("x)" + "") == "print(x)";
    }
    StripExact("", "print(x)", "", Whitespace);
  }

  lemma ExampleRenderCell1()
    ensures Render(Part(1, Code, "x=1")) == "# --- Code Cell 1 ---\nx=1\n"
  {
    assert DecimalString(1) == "1";
  }

  lemma ExampleRenderCell3()
    ensures Render(Part(3, Code, "print(x)")) == "# --- Code Cell 3 ---\nprint(x)\n"
  {
    assert DecimalString(3) == "3";
    assert LabelHead(Code) == "# --- Code Cell ";
  }

  /** A markdown part is labelled with the word `Markdown` and its own number. */
  lemma ExampleMarkdownCell()
    ensures Render(Part(2, Markdown, "Notes")) == "# --- Markdown Cell 2 ---\nNotes\n"
  {
    assert DecimalString(2) == "2";
    assert LabelHead(Markdown) == "# --- Markdown Cell ";
  }

  lemma JoinPair(sep: string, a: string, b: string)
    ensures Join(sep, [a, b]) == a + sep + b
  {
    assert [a, b][1..] == [b];
  }

  lemma ExampleParts()
    ensures RenderAll([Part(1, Code, "x=1"), Part(3, Code, "print(x)")])
         == ["# --- Code Cell 1 ---\nx=1\n", "# --- Code Cell 3 ---\nprint(x)\n"]
  {
    ExampleRenderCell1();
    ExampleRenderCell3();
  }

  lemma ExampleRendering()
    ensures Join("\n", RenderAll([Part(1, Code, "x=1"), Part(3, Code, "print(x)")]))
         == "# --- Code Cell 1 ---\nx=1\n" + "\n" + "# --- Code Cell 3 ---\nprint(x)\n"
  {
    ExampleParts();
    JoinPair("\n", "# --- Code Cell 1 ---\nx=1\n", "# --- Code Cell 3 ---\nprint(x)\n");
  }

  /**
    Code cell 1, an empty markdown cell 2, and code cell 3 given as two fragments give
    two labelled parts, numbered 1 and 3.
   */
  lemma ThreeCellExample()
    ensures ProcessNotebook(Some([
      Cell(Code, Scalar("x=1")),
      Cell(Markdown, Scalar("")),
      Cell(Code, ListSource([Str("print("), Str("x)")]))
    ])) == Some("# --- Code Cell 1 ---\nx=1\n" + "\n" + "# --- Code Cell 3 ---\nprint(x)\n")
  {
    ThreeCellParts();
    ExampleRendering();
  }

  lemma ThreeCellParts()
    ensures PartsFrom([
      Cell(Code, Scalar("x=1")),
      Cell(Markdown, Scalar("")),
      Cell(Code, ListSource([Str("print("), Str("x)")]))
    ], 0) == Some([Part(1, Code, "x=1"), Part(3, Code, "print(x)")])
  {
    var c1 := Cell(Code, Scalar("x=1"));
    var c2 := Cell(Markdown, Scalar(""));
    var c3 := Cell(Code, ListSource([Str("print("), Str("x)")]));
    var cells := [c1, c2, c3];
    var p1 := Part(1, Code, "x=1");
    var p3 := Part(3, Code, "print(x)");
    ExampleCodeCell1();
    ExampleCodeCell3();
    assert Step(2, c2) == Silent;
    assert cells[0] == c1 && cells[1] == c2 && cells[2] == c3;
    assert PartsFrom(cells, 3) == Some([]);
    assert PartsFrom(cells, 2) == Some([p3] + []);
    assert [p3] + [] == [p3];
    assert PartsFrom(cells, 1) == Some([p3]);
    assert PartsFrom(cells, 0) == Some([p1] + [p3]);
    assert [p1] + [p3] == [p1, p3];
  }
}
