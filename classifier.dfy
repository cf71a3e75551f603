/**
  Per-file classification: the name check, the notebook dispatch on the lower-cased
  suffix, the extension check and the null-byte sniff of the first 1024 bytes.
 */
module Classifier {
  import opened Wrappers
  import opened Text
  import opened Rules

  /** Bytes looked at by the binary sniff. */
  const SniffLength: nat := 1024

  /**
    Python's `PurePath.suffix` of a file name: from the last `.` on, unless that dot
    starts the name or ends it, in which case the name has no suffix.
   */
  function Suffix(name: string): (r: string)
    ensures r == [] || (EndsWith(name, r) && |r| >= 2 && |r| < |name| && r[0] == '.' && '.' !in r[1..])
    ensures r == [] <==> (forall i :: 0 < i < |name| - 1 ==> name[i] != '.' || '.' in name[i + 1..])
  {
    match LastIndexOf(name, '.')
    case None => ""
    case Some(i) =>
      if 0 < i < |name| - 1 then
        assert name[i..][1..] == name[i + 1..];
        name[i..]
      else ""
  }

  /** The lower-cased suffix the source compares against `.ipynb` and the extension set. */
  function LowerSuffix(name: string): string {
    Lower(Suffix(name))
  }

  predicate IsNotebookName(name: string) {
    LowerSuffix(name) == ".ipynb"
  }

  /** The sniff: `b"\0" not in data.read(1024)`. */
  predicate SniffIsText(raw: seq<bv8>) {
    0 !in raw[..if |raw| < SniffLength then |raw| else SniffLength]
  }

  /**
    Python's `is_likely_text_file`: `raw` is the file's bytes, or `None` when opening
    or reading it fails.
   */
  predicate IsLikelyTextFile(name: string, raw: Option<seq<bv8>>)
    ensures IsLikelyTextFile(name, raw) <==>
      && LowerSuffix(name) !in ExcludeExtensions
      && raw.Some?
      && (forall k :: 0 <= k < |raw.value| && k < SniffLength ==> raw.value[k] != 0)
  {
    if LowerSuffix(name) in ExcludeExtensions then false
    else match raw
      case None => false
      case Some(bytes) => SniffIsText(bytes)
  }

  datatype Verdict = ExcludedByName | Notebook | PlainText | NotText

  /** How the run treats a file named `name` whose bytes are `raw`. */
  function Classify(name: string, raw: Option<seq<bv8>>, excluded: set<string>): (v: Verdict)
    ensures v == ExcludedByName <==> name in excluded
    ensures v == Notebook <==> name !in excluded && LowerSuffix(name) == ".ipynb"
    ensures v == PlainText <==>
      && name !in excluded
      && LowerSuffix(name) != ".ipynb"
      && LowerSuffix(name) !in ExcludeExtensions
      && raw.Some?
      && (forall k :: 0 <= k < |raw.value| && k < SniffLength ==> raw.value[k] != 0)
  {
    if name in excluded then ExcludedByName
    else if IsNotebookName(name) then Notebook
    else if IsLikelyTextFile(name, raw) then PlainText
    else NotText
  }

  /** Only the first 1024 bytes matter: what follows them never changes the verdict. */
  lemma SniffIgnoresTail(head: seq<bv8>, tail: seq<bv8>)
    requires |head| == SniffLength
    ensures SniffIsText(head + tail) == SniffIsText(head)
  {
    assert (head + tail)[..SniffLength] == head;
  }
}
