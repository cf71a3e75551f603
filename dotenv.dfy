/**
  The `.env` loader of the token checker: the candidate locations, the line parser, and
  the first-wins `setdefault` update of the process environment.
 */
module DotEnv {
  import opened Wrappers
  import opened Text
  import opened Seqs

  /** An absolute path as its components below `/`; the root is `[]`. */
  type Path = seq<string>

  /** The directory itself, then each parent up to the root (`[d, *d.parents]`). */
  function SelfAndParents(dir: Path): (r: seq<Path>)
    ensures |r| == |dir| + 1
    ensures forall k :: 0 <= k < |r| ==> r[k] == dir[..|dir| - k]
  {
    if dir == [] then [dir]
    else
      var rest := SelfAndParents(dir[..|dir| - 1]);
      assert forall k :: 0 <= k < |rest| ==> rest[k] == dir[..|dir| - (k + 1)];
      [dir] + rest
  }

  /** The `.env` file in a directory. */
  function EnvFile(dir: Path): Path { dir + [".env"] }

  /**
    Where the loader looks, in order: the working directory first, then the script's
    directory and each of its ancestors up to the root.
   */
  function EnvPathsToTry(cwd: Path, scriptDir: Path): (r: seq<Path>)
    ensures |r| == |scriptDir| + 2
    ensures r[0] == EnvFile(cwd)
    ensures forall k :: 1 <= k < |r| ==> r[k] == EnvFile(scriptDir[..|scriptDir| - (k - 1)])
  {
    var dirs := SelfAndParents(scriptDir);
    [EnvFile(cwd)] + seq(|dirs|, k requires 0 <= k < |dirs| => EnvFile(dirs[k]))
  }

  /**
    One line of a `.env` file: blank lines, comments and lines without `=` give nothing;
    otherwise the line is cut at its first `=`, the key is trimmed, and the value is
    trimmed, then stripped of `"` and then of `'` at both ends.
   */
  function ParseLine(raw: string): (r: Option<(string, string)>)
    ensures r.None? <==> Strip(raw) == [] || Strip(raw)[0] == '#' || '=' !in Strip(raw)
    ensures r.Some? ==> '=' !in r.value.0
    ensures r.Some? && r.value.0 != [] ==> r.value.0[0] !in Whitespace && r.value.0[|r.value.0| - 1] !in Whitespace
    ensures r.Some? && r.value.1 != [] ==> r.value.1[0] != '\'' && r.value.1[|r.value.1| - 1] != '\''
  {
    var line := Strip(raw);
    if line == [] || line[0] == '#' then None
    else match IndexOf(line, '=')
      case None => None
      case Some(i) =>
        var key := Strip(line[..i]);
        var value := StripChars(StripChars(Strip(line[i + 1..]), {'"'}), {'\''});
        StripAddsNothing(line[..i], Whitespace, '=');
        Some((key, value))
  }

  /** Stripping only removes characters: a character absent before is absent after. */
  lemma {:induction false} StripAddsNothing(s: string, chars: set<char>, c: char)
    requires c !in s
    ensures c !in StripChars(s, chars)
    decreases |s|
  {
    if s != [] {
      if s[0] in chars {
        assert forall k :: 0 <= k < |s| - 1 ==> s[1..][k] == s[k + 1];
        StripAddsNothing(s[1..], chars, c);
      } else if s[|s| - 1] in chars {
        assert forall k :: 0 <= k < |s| - 1 ==> s[..|s| - 1][k] == s[k];
        StripAddsNothing(s[..|s| - 1], chars, c);
      }
    }
  }

  /** Characters a value loses at its ends: whitespace and both quote marks. */
  const Trimmed: set<char> := Whitespace + {'"', '\''}

  /**
    Writing a key and a value as `key=value`, optionally quoted and padded with
    whitespace, and parsing the line gives them back, as long as the key has no `=`,
    does not start with `#` and neither part has characters at its ends that the
    parser trims.
   */
  lemma {:induction false} ParseLineRoundTrip(pad: string, key: string, quote: string, value: string, pad': string)
    requires AllIn(pad, Whitespace) && AllIn(pad', Whitespace)
    requires '=' !in key
    requires key == [] || (key[0] !in Whitespace && key[0] != '#' && key[|key| - 1] !in Whitespace)
    requires quote == [] || quote == ['"'] || quote == ['\'']
    requires value == [] || (value[0] !in Trimmed && value[|value| - 1] !in Trimmed)
    ensures ParseLine(pad + key + "=" + quote + value + quote + pad') == Some((key, value))
  {
    var quoted := quote + value + quote;
    TrimmedLine(pad, key, quote, value, pad');
    ParseAt(pad + key + "=" + quote + value + quote + pad', key, quoted);
    StripKeeps(key, Whitespace);
    StripKeeps(quoted, Whitespace);
    UnquoteValue(quote, value);
  }

  /** The padded line trims to `key=` and the quoted value. */
  lemma TrimmedLine(pad: string, key: string, quote: string, value: string, pad': string)
    requires AllIn(pad, Whitespace) && AllIn(pad', Whitespace)
    requires key == [] || key[0] !in Whitespace
    requires quote == [] || quote == ['"'] || quote == ['\'']
    requires value == [] || value[|value| - 1] !in Trimmed
    ensures Strip(pad + key + "=" + quote + value + quote + pad') == key + "=" + (quote + value + quote)
  {
    var quoted := quote + value + quote;
    var m := key + "=" + quoted;
    assert quoted == [] || quoted[|quoted| - 1] !in Whitespace;
    assert m[0] !in Whitespace && m[|m| - 1] !in Whitespace;
    LineSpelling(pad, key, quote, value, pad');
    StripExact(pad, m, pad', Whitespace);
  }

  lemma LineSpelling(pad: string, key: string, quote: string, value: string, pad': string)
    ensures pad + key + "=" + quote + value + quote + pad' == pad + (key + "=" + (quote + value + quote)) + pad'
  {
  }

  /** Nothing is stripped from a string whose ends are not stripped characters. */
  /** A line whose trimmed form is `key=rest`, with no `=` in the key, is cut right after the key. */
  lemma ParseAt(raw: string, key: string, rest: string)
    requires Strip(raw) == key + "=" + rest
    requires '=' !in key
    requires key == [] || key[0] != '#'
    ensures ParseLine(raw) == Some((Strip(key), StripChars(StripChars(Strip(rest), {'"'}), {'\''})))
  {
    var m := key + "=" + rest;
    assert m[|key|] == '=';
    assert IndexOf(m, '=') == Some(|key|) by {
      var r := IndexOf(m, '=');
      assert '=' in m;
      assert m[..|key|] == key;
    }
    assert m[..|key|] == key;
    assert m[|key| + 1..] == rest;
  }

  /** The two quote-stripping steps of the parser take an optionally quoted value back to itself. */
  lemma UnquoteValue(quote: string, value: string)
    requires quote == [] || quote == ['"'] || quote == ['\'']
    requires value == [] || (value[0] !in Trimmed && value[|value| - 1] !in Trimmed)
    ensures StripChars(StripChars(quote + value + quote, {'"'}), {'\''}) == value
  {
    var quoted := quote + value + quote;
    if quote == ['"'] {
      StripExact(quote, value, quote, {'"'});
      StripKeeps(value, {'\''});
    } else if quote == ['\''] {
      StripKeeps(quoted, {'"'});
      StripExact(quote, value, quote, {'\''});
    } else {
      assert quoted == value;
      StripKeeps(value, {'"'});
      StripKeeps(value, {'\''});
    }
  }

  /** A comment line gives no entry, even when it holds an `=`. */
  lemma CommentGivesNothing(pad: string, rest: string)
    requires AllIn(pad, Whitespace)
    ensures ParseLine(pad + "#" + rest) == None
  {
    var t := Strip("#" + rest);
    StripCommentKeepsHash(pad, rest);
  }

  lemma StripCommentKeepsHash(pad: string, rest: string)
    requires AllIn(pad, Whitespace)
    ensures Strip(pad + "#" + rest) != [] && Strip(pad + "#" + rest)[0] == '#'
    decreases |pad|
  {
    if pad == [] {
      assert [] + "#" + rest == "#" + rest;
      StripFrontKept("#" + rest, Whitespace);
    } else {
      assert (pad + "#" + rest)[1..] == pad[1..] + "#" + rest;
      StripCommentKeepsHash(pad[1..], rest);
    }
  }

  /** When the first character is not stripped, it survives as the first character. */
  lemma {:induction false} StripFrontKept(s: string, chars: set<char>)
    requires s != [] && s[0] !in chars
    ensures StripChars(s, chars) != [] && StripChars(s, chars)[0] == s[0]
    decreases |s|
  {
    if s[|s| - 1] in chars {
      assert |s| > 1;
      StripFrontKept(s[..|s| - 1], chars);
    }
  }

  /** `os.environ.setdefault(key, value)` on the environment as a map. */
  function WithDefault(vars: map<string, string>, key: string, value: string): (r: map<string, string>)
    ensures r.Keys == vars.Keys + {key}
    ensures r[key] == if key in vars then vars[key] else value
    ensures forall k :: k in vars ==> r[k] == vars[k]
  {
    if key in vars then vars else vars[key := value]
  }

  /** The effect of one `.env` line on the environment. */
  function ApplyLine(vars: map<string, string>, line: string): (r: map<string, string>)
    ensures ParseLine(line).None? ==> r == vars
    ensures ParseLine(line).Some? ==> r.Keys == vars.Keys + {ParseLine(line).value.0}
    ensures forall k :: k in vars ==> r[k] == vars[k]
  {
    match ParseLine(line)
    case None => vars
    case Some((key, value)) => WithDefault(vars, key, value)
  }

  /** The lines of a `.env` file applied in order. */
  function ApplyLines(vars: map<string, string>, lines: seq<string>): (r: map<string, string>)
    ensures vars.Keys <= r.Keys
    ensures forall k :: k in vars ==> r[k] == vars[k]
    decreases |lines|
  {
    if lines == [] then vars else ApplyLines(ApplyLine(vars, lines[0]), lines[1..])
  }

  lemma ApplyLinesFrom(vars: map<string, string>, lines: seq<string>, j: nat)
    requires j < |lines|
    ensures ApplyLines(vars, lines[j..]) == ApplyLines(ApplyLine(vars, lines[j]), lines[j + 1..])
  {
    assert lines[j..][1..] == lines[j + 1..];
  }

  /** A line setting a variable to empty quotes sets it to the empty string, unless it is already set. */
  lemma EmptyQuotesSetEmpty(vars: map<string, string>, key: string)
    requires key !in vars
    requires '=' !in key
    requires key != [] && key[0] !in Whitespace && key[0] != '#' && key[|key| - 1] !in Whitespace
    ensures ApplyLines(vars, [key + "=\"\""]) == vars[key := ""]
  {
    var line := key + "=\"\"";
    EmptyQuotesLine(key);
    assert [line][1..] == [];
    assert ApplyLines(vars, [line]) == ApplyLines(ApplyLine(vars, line), []);
  }

  lemma EmptyQuotesLine(key: string)
    requires '=' !in key
    requires key != [] && key[0] !in Whitespace && key[0] != '#' && key[|key| - 1] !in Whitespace
    ensures ParseLine(key + "=\"\"") == Some((key, ""))
  {
    ParseLineRoundTrip([], key, ['"'], [], []);
    EmptyQuotesSpelling(key);
  }

  lemma EmptyQuotesSpelling(key: string)
    ensures [] + key + "=" + ['"'] + [] + ['"'] + [] == key + "=\"\""
  {
  }

  /** The value the first line mentioning `key` gives it, if any line does. */
  function FirstValue(lines: seq<string>, key: string): (r: Option<string>)
    ensures r.Some? ==> FirstAt(lines, key, r.value)
    ensures r.None? ==> NoLineFor(lines, key)
    decreases |lines|
  {
    if lines == [] then None
    else
      var p := ParseLine(lines[0]);
      if p.Some? && p.value.0 == key then
        assert FirstAt(lines, key, p.value.1) by {
          assert 0 < |lines| && ParseLine(lines[0]) == Some((key, p.value.1));
        }
        Some(p.value.1)
      else
        var r := FirstValue(lines[1..], key);
        FirstValueShift(lines, key, r);
        r
  }

  /** Line `i` is the first to parse to `key`, and gives it `value`. */
  ghost predicate FirstAt(lines: seq<string>, key: string, value: string) {
    exists i ::
      && 0 <= i < |lines|
      && ParseLine(lines[i]) == Some((key, value))
      && forall j :: 0 <= j < i ==> ParseLine(lines[j]).None? || ParseLine(lines[j]).value.0 != key
  }

  /** No line parses to `key`. */
  predicate NoLineFor(lines: seq<string>, key: string) {
    forall i :: 0 <= i < |lines| && ParseLine(lines[i]).Some? ==> ParseLine(lines[i]).value.0 != key
  }

  /** A first line that does not name `key` moves the first line naming it one place on. */
  lemma FirstValueShift(lines: seq<string>, key: string, r: Option<string>)
    requires lines != [] && (ParseLine(lines[0]).None? || ParseLine(lines[0]).value.0 != key)
    requires r.Some? ==> FirstAt(lines[1..], key, r.value)
    requires r.None? ==> NoLineFor(lines[1..], key)
    ensures r.Some? ==> FirstAt(lines, key, r.value)
    ensures r.None? ==> NoLineFor(lines, key)
  {
    if r.Some? {
      var i :| && 0 <= i < |lines[1..]|
               && ParseLine(lines[1..][i]) == Some((key, r.value))
               && forall j :: 0 <= j < i ==> ParseLine(lines[1..][j]).None? || ParseLine(lines[1..][j]).value.0 != key;
      assert lines[i + 1] == lines[1..][i];
      NoneBefore(lines, key, i);
    } else {
      NoLineShift(lines, key);
    }
  }

  lemma NoneBefore(lines: seq<string>, key: string, i: nat)
    requires i < |lines| - 1 && (ParseLine(lines[0]).None? || ParseLine(lines[0]).value.0 != key)
    requires forall j :: 0 <= j < i ==> ParseLine(lines[1..][j]).None? || ParseLine(lines[1..][j]).value.0 != key
    ensures forall j :: 0 <= j < i + 1 ==> ParseLine(lines[j]).None? || ParseLine(lines[j]).value.0 != key
  {
    assert forall j :: 0 < j < i + 1 ==> lines[j] == lines[1..][j - 1];
  }

  lemma NoLineShift(lines: seq<string>, key: string)
    requires lines != [] && (ParseLine(lines[0]).None? || ParseLine(lines[0]).value.0 != key)
    requires NoLineFor(lines[1..], key)
    ensures NoLineFor(lines, key)
  {
    assert forall i :: 0 < i < |lines| ==> lines[i] == lines[1..][i - 1];
  }

  /**
    After the lines are applied, a variable is set exactly when it was set before or some
    line names it; a variable set before keeps its value, and any other takes the value of
    the first line naming it.
   */
  lemma {:induction false} ApplyLinesFirstWins(vars: map<string, string>, lines: seq<string>, key: string)
    ensures key in ApplyLines(vars, lines) <==> key in vars || FirstValue(lines, key).Some?
    ensures key in vars ==> ApplyLines(vars, lines)[key] == vars[key]
    ensures key !in vars && FirstValue(lines, key).Some? ==> ApplyLines(vars, lines)[key] == FirstValue(lines, key).value
    decreases |lines|
  {
    if lines != [] {
      ApplyLinesFirstWins(ApplyLine(vars, lines[0]), lines[1..], key);
    }
  }

  /** The index of the first candidate that exists. */
  function FirstExisting(candidates: seq<Path>, files: map<Path, string>): (r: Option<nat>)
    ensures r.Some? ==> r.value < |candidates| && candidates[r.value] in files
    ensures r.Some? ==> forall j :: 0 <= j < r.value ==> candidates[j] !in files
    ensures r.None? ==> forall j :: 0 <= j < |candidates| ==> candidates[j] !in files
    decreases |candidates|
  {
    if candidates == [] then None
    else if candidates[0] in files then Some(0)
    else match FirstExisting(candidates[1..], files)
      case None => None
      case Some(k) => Some(k + 1)
  }

  lemma FirstExistingAt(candidates: seq<Path>, files: map<Path, string>, i: nat)
    requires i < |candidates| && candidates[i] in files
    requires forall j :: 0 <= j < i ==> candidates[j] !in files
    ensures FirstExisting(candidates, files) == Some(i)
  {
  }

  /** The environment after loading: only the first existing file is read. */
  function Loaded(vars: map<string, string>, candidates: seq<Path>, files: map<Path, string>): (r: map<string, string>)
    ensures FirstExisting(candidates, files).None? ==> r == vars
    ensures vars.Keys <= r.Keys
    ensures forall k :: k in vars ==> r[k] == vars[k]
  {
    match FirstExisting(candidates, files)
    case None => vars
    case Some(i) => ApplyLines(vars, SplitLines(files[candidates[i]]))
  }

  /** Loading never overrides a variable that is already set. */
  lemma LoadingKeepsSetVariables(vars: map<string, string>, candidates: seq<Path>, files: map<Path, string>, key: string)
    requires key in vars
    ensures key in Loaded(vars, candidates, files) && Loaded(vars, candidates, files)[key] == vars[key]
  {
    match FirstExisting(candidates, files)
    case None =>
    case Some(i) => ApplyLinesFirstWins(vars, SplitLines(files[candidates[i]]), key);
  }

  /**
    A `.env` file in the working directory shadows every file next to the script or
    above it.
   */
  lemma WorkingDirectoryFirst(vars: map<string, string>, cwd: Path, scriptDir: Path, files: map<Path, string>)
    requires EnvFile(cwd) in files
    ensures Loaded(vars, EnvPathsToTry(cwd, scriptDir), files) == ApplyLines(vars, SplitLines(files[EnvFile(cwd)]))
  {
  }

  /** The process environment, which the loader updates in place. */
  class Environ {
    var vars: map<string, string>

    constructor (initial: map<string, string>)
      ensures vars == initial
    {
      vars := initial;
    }

    method SetDefault(key: string, value: string)
      modifies this
      ensures vars == WithDefault(old(vars), key, value)
      ensures key in vars
    {
      if key !in vars {
        vars := vars[key := value];
      }
    }
  }

  /**
    `load_local_env`: the first candidate `.env` file that exists is read line by line
    and every entry is set unless the variable is already set; later candidates are not
    read.
   */
  method LoadLocalEnv(env: Environ, cwd: Path, scriptDir: Path, files: map<Path, string>)
    modifies env
    ensures env.vars == Loaded(old(env.vars), EnvPathsToTry(cwd, scriptDir), files)
  {
    var candidates := EnvPathsToTry(cwd, scriptDir);
    var i := 0;
    while i < |candidates|
      invariant 0 <= i <= |candidates|
      invariant forall j :: 0 <= j < i ==> candidates[j] !in files
      invariant env.vars == old(env.vars)
    {
      var path := candidates[i];
      if path !in files {
        i := i + 1;
        continue;
      }
      var lines := SplitLines(files[path]);
      for j := 0 to |lines|
        invariant ApplyLines(env.vars, lines[j..]) == ApplyLines(old(env.vars), lines)
      {
        ApplyLinesFrom(env.vars, lines, j);
        match ParseLine(lines[j]) {
          case None =>
          case Some((key, value)) => env.SetDefault(key, value);
        }
      }
      assert lines[|lines|..] == [];
      FirstExistingAt(candidates, files, i);
      break;
    }
  }
}
