# Project tools: source archiver and TuShare token check

This project is a Dafny model of two developer scripts from a quantitative-finance
repository.

- `project_tools/combine_code.py` walks a project tree and writes one text archive.
  - The walk is top-down. At each directory it prunes the child directories by three rules:
    names excluded anywhere, `data` at the root only, and names ending in `.egg-info`.
    It then sorts the kept children and the files by name.
  - Every file not excluded by name is handled as follows:
    - A Jupyter notebook is reduced to its code and markdown cells. Each cell is labelled
      `# --- Code Cell i ---` or `# --- Markdown Cell i ---`.
    - A likely text file is read. It is not text if its suffix is excluded or its first
      1024 bytes contain a NUL.
    - Anything else is skipped.
  - Non-blank content is stripped and written between `<rel/path>` and `</rel/path>` tags,
    below a fixed two-line header.
  - A processed counter and a skipped counter are kept.
- `project_tools/verify_tushare_tokens.py` works in three steps:
  - It loads the first `.env` file it finds. It looks in the working directory first, then
    in the script's directory and each of its ancestors. Each `KEY=value` line is parsed and
    set only when the variable is not already set.
  - It checks the two tokens `TUSHARE_TOKEN` and `TUSHARE_TOKEN_2` against the user-quota
    endpoint.
  - It prints a report, and exits with an error when no token passed.

The modules are:

| module | contents |
|---|---|
| `Wrappers` | `Option` |
| `Seqs` | small sequence lemmas and `Map` |
| `Text` | the meaning of the Python string built-ins the scripts use |
| `Rules` | the exclusion constants and the directory keep rule |
| `Classifier` | `Path.suffix`, the NUL sniff and the per-file verdict |
| `Notebook` | `process_notebook` |
| `Walker` | the directory tree and the pruned, sorted walk |
| `Archiver` | the archive as a class with its output and counters, and the `combine_project_files` loops |
| `Scenario` | a small end-to-end run |
| `DotEnv` | `.env` location, parsing and loading |
| `TokenCheck` | `check_token` and the report and exit rule of `main` |

The file system is a value. A directory is a `Folder` with children, and a file is a `File`
with its bytes, its decoded text and its parsed notebook cells. The environment is a
`map<string, string>` held by the `Environ` class. The `.env` files are a map from paths to
their text. The TuShare endpoint is a function from a token to a `Reply`.

Three points of the code that the model keeps as written:

- **Pruned directories are never counted.** The children `.git` and root-level `data` are
  removed from the walk before their files are listed
  (`project_tools/combine_code.py:169-186`). So the files under them move neither the
  processed nor the skipped counter. `Scenario.EndToEnd` proves, for a tree with `a/b.txt`,
  `.git/ignored.txt` and `data/x.txt`, a processed count of 1 and a skipped count of 0.
- **Notebook cell labels.** A notebook cell is written as `# --- Code Cell i ---` (or
  `# --- Markdown Cell i ---`), then a newline, the source and a newline
  (`project_tools/combine_code.py:113-116`). `Notebook.Render` states the kind word, and
  states that the digits between the head and the ` ---\n<source>\n` tail read back as the
  number.
- **Cell numbers.** The number `i` is the cell's 1-based position among all cells, so the
  cells that are skipped still use up their numbers (`Notebook.ThreeCellExample`).
- **Order of directory entries.** `os.walk` lists a directory's entries in no particular
  order. The run sorts both the kept child directories and the files by name
  (`project_tools/combine_code.py:186-189`). So, as long as names within a directory are
  unique, the archive does not depend on that order (`Archiver.ArchiveIgnoresOrder`). The
  statement uses a normal form: the tree with every directory's entries sorted by name, all
  the way down.

## Model

| member | source | states |
|---|---|---|
| Rules.ExcludedNamesFor | project_tools/combine_code.py:153-154 | The names excluded from the archive are exactly the fixed excluded files plus the output file's own name, which is always among them. |
| Rules.KeepDir | project_tools/combine_code.py:172-184 | Below the root, a directory is kept iff its name is not excluded anywhere and does not end in an excluded pattern. At the root it must also not be the root-only name `data`. |
| Classifier.Suffix | project_tools/combine_code.py:129 | `Path.suffix`: either empty, or the name's final dot-led ending, which is not the whole name, has at least one character after the dot and contains no further dot. It is empty exactly when no dot sits strictly inside the name with no dot after it. |
| Classifier.Classify | project_tools/combine_code.py:190-220 | A file is excluded by name iff its name is in the excluded set. It is a notebook iff it is not excluded and its lower-cased suffix is `.ipynb`. It is plain text iff it is not excluded, not a notebook, its suffix is not an excluded extension, it can be read and none of its first 1024 bytes is NUL (`is_likely_text_file`). |
| Classifier.IsLikelyTextFile | project_tools/combine_code.py:124-136 | A file is likely text iff its lower-cased suffix is not an excluded extension, it can be read, and none of its first 1024 bytes is NUL. |
| Classifier.SniffIgnoresTail | project_tools/combine_code.py:132-134 | Whether a file looks like text depends only on its first 1024 bytes. |
| Notebook.Step | project_tools/combine_code.py:99-116 | One cell raises iff it is not an object or its source list holds a non-string. It yields a part iff it is a code or markdown cell whose joined source is not blank. That part carries the cell's 1-based position, its type and its unstripped joined source. |
| Notebook.PartsFrom | project_tools/combine_code.py:99-116 | The parts collected from the cells from position `i` on are at most as many as those cells. Each is labelled with the 1-based number of one of those cells. |
| Notebook.Render | project_tools/combine_code.py:113-116 | A rendered part is `# --- Code Cell ` for a code part, or `# --- Markdown Cell ` otherwise. Then come a non-empty run of decimal digits that reads back as the part's number, then ` ---`, a newline, the cell's source and a newline. |
| Notebook.JoinFragmentsMeaning | project_tools/combine_code.py:104-108 | `"".join(source_list)` fails iff some item is not a string. Otherwise it is the items' texts joined with the empty separator. |
| Notebook.SourceTextMeaning | project_tools/combine_code.py:101-108 | A cell's source is `None` iff it is a list holding a non-string. A list otherwise gives its items joined with the empty separator, and any other value gives its `str()`. |
| Notebook.ProcessNotebook | project_tools/combine_code.py:89-121 | The result is `None` iff the document cannot be read or parsed, or some cell raises. A document without cells gives the empty string. |
| Notebook.PartsFailIff | project_tools/combine_code.py:99-121 | Processing fails (returns `None`) iff some cell raises. |
| Notebook.YieldingSound | project_tools/combine_code.py:110-116 | Every position listed as yielding holds a code or markdown cell with non-blank source. |
| Notebook.YieldingComplete | project_tools/combine_code.py:110-116 | Every code or markdown cell with non-blank source is listed as yielding. |
| Notebook.YieldingIncreasing | project_tools/combine_code.py:99 | The yielding positions are listed in strictly increasing order, i.e. document order. |
| Notebook.PartsAreYieldingCells | project_tools/combine_code.py:99-116 | The k-th collected part is the one emitted by the k-th yielding cell, labelled with its 1-based position. |
| Notebook.NotebookParts | project_tools/combine_code.py:89-121 | The notebook's text is `None` iff some cell raises. Otherwise it is the rendered parts joined by `"\n"`, where the parts come one per yielding cell, in document order, each labelled with its 1-based cell number. |
| Notebook.ExampleMarkdownCell | project_tools/combine_code.py:115-116 | A markdown part numbered 2 renders as `# --- Markdown Cell 2 ---`, a newline, its source and a newline. |
| Notebook.ExampleRendering | project_tools/combine_code.py:114-118 | Two code parts render as two labelled blocks separated by one extra newline. |
| Notebook.ThreeCellExample | project_tools/combine_code.py:99-118 | A code cell, a blank markdown cell and a code cell with a list source give the first and third cells labelled 1 and 3. The blank cell leaves no trace. |
| Walker.Walk | project_tools/combine_code.py:164-189 | The walk of a directory starts with that directory's own listing. Every listing lies at or below it. |
| Walker.WalkFolders | project_tools/combine_code.py:164-189 | The walk of the kept child directories gives listings that lie strictly below the parent. |
| Walker.SortByName | project_tools/combine_code.py:186-189 | Sorting by name is a permutation: same multiset of entries. |
| Walker.SortIsSorted | project_tools/combine_code.py:186-189 | The sorted children and files are in non-decreasing name order, and are a permutation of the input. |
| Walker.SortedUnique | project_tools/combine_code.py:186-189 | Two name-sorted sequences with the same entries are equal, when entries with the same name are the same entry. |
| Walker.SortByNameIgnoresOrder | project_tools/combine_code.py:186-189 | Sorting two orderings of the same entries gives the same sequence, when names tell the entries apart. |
| Walker.PermutedChildren | project_tools/combine_code.py:164-189 | A directory whose uniquely named entries are listed in another order has the same normal form. |
| Walker.WalkIgnoresOrder | project_tools/combine_code.py:164-189 | Two trees with unique names per directory and the same normal form are walked alike: the same listings, in the same order. |
| Walker.KeptFolders | project_tools/combine_code.py:172-184 | The kept child directories are exactly the children that are directories and pass the three pruning rules. |
| Walker.PruneDirs | project_tools/combine_code.py:169-186 | The pruning loop followed by the sort gives the sorted kept folders. The result is sorted, a permutation of the kept folders, and holds `d` iff `d` is a child passing the rules for this depth. |
| Walker.WalkListingsWellFormed | project_tools/combine_code.py:164-189 | Every listing the walk produces holds only files, in sorted order. |
| Walker.WalkVisits | project_tools/combine_code.py:164-189 | A file is visited below a directory iff it lies in that directory's subtree along a path whose every directory passes the pruning rule for its depth. |
| Walker.WalkFromRoot | project_tools/combine_code.py:164-189 | From the root, a file is visited iff it is in the tree and each directory on its path is kept, with the root-only rule applied to the first directory alone. |
| Walker.NeverBelowExcluded | project_tools/combine_code.py:172-182 | No visited file lies below a directory excluded anywhere, or below one whose name ends in an excluded pattern. No visited file lies below a root-level `data`. |
| Walker.DataKeptOnlyBelowRoot | project_tools/combine_code.py:176-179 | `data` is pruned at the root and kept deeper. |
| Walker.DataExample | project_tools/combine_code.py:40-42 | In a tree with `data/raw.csv` and `src/data/load.py`, the walk visits `src/data/load.py` and never `data/raw.csv`. |
| Archiver.Block | project_tools/combine_code.py:223-226 | The block written for a file reads back as exactly the stripped content between its path tags. |
| Archiver.RelPath | project_tools/combine_code.py:194 | The relative path of a file in the root is its name. Otherwise it starts with the first directory and a `/`, and ends with a `/` and the file name. When no name holds a `/`, splitting the path on `/` gives back exactly the directories on the way, then the file name. |
| Archiver.Extract | project_tools/combine_code.py:197-220 | Stated through the verdict of `Classify`: a file judged a notebook yields the notebook text, a file judged plain text yields its decoded text, and a file judged not text yields nothing. |
| Archiver.OutcomeFollowsVerdict | project_tools/combine_code.py:190-238 | A file is ignored iff `Classify` finds it excluded by name. A file judged not text is skipped. A notebook or a plain-text file is archived iff its content is present and not blank. |
| Archiver.NulNeverArchived | project_tools/combine_code.py:129-134 | A file that is not a notebook and has a NUL in its first 1024 bytes is never archived. When its name is not excluded it is counted as skipped. |
| Archiver.OutcomeOf | project_tools/combine_code.py:190-238 | A file is ignored without counting iff its name is excluded. It is archived iff it is not excluded and its extracted content is present and not blank. |
| Archiver.Archive.constructor | project_tools/combine_code.py:150-162 | A new archive holds just the header, and both counters are 0. |
| Archiver.Archive.Skip | project_tools/combine_code.py:228-229 | Skipping adds one to the skipped counter and changes nothing else. |
| Archiver.Archive.Write | project_tools/combine_code.py:223-227 | Writing appends the tagged block of the stripped content and adds one to the processed counter. |
| Archiver.ArchiveFile | project_tools/combine_code.py:190-238 | One file's handling appends exactly its outcome's block and moves exactly its outcome's counter. |
| Archiver.ArchiveContent | project_tools/combine_code.py:199-232 | Content taken from a notebook or a likely text file appends the file's block and adds one to the processed counter when it is present and not blank. Otherwise it adds one to the skipped counter. |
| Archiver.ArchiveIncluded | project_tools/combine_code.py:197-238 | The notebook, text or skip dispatch for a file that passes the name check appends its outcome's block and moves its outcome's counter. |
| Archiver.WriteContent | project_tools/combine_code.py:222-232 | Present, non-blank content appends its block and adds one to the processed counter. Anything else adds one to the skipped counter and writes nothing. |
| Archiver.ArchiveListing | project_tools/combine_code.py:189-238 | The file loop of one directory appends the blocks of its files in sorted order and adds their counts. |
| Archiver.ArchiveListings | project_tools/combine_code.py:164-238 | The walk loop appends the blocks of all visited files in walk order and adds their counts. |
| Archiver.CombineProjectFiles | project_tools/combine_code.py:139-238 | The finished archive is the header followed by the blocks of the visited files in walk order. The counters are the numbers of archived and of skipped visits. |
| Archiver.Concatenation | project_tools/combine_code.py:164-238 | The archive and counters of two runs of files in sequence are the concatenation and sums of the separate ones. |
| Archiver.CountersPartition | project_tools/combine_code.py:214-238 | Every visited file that is not excluded by name moves exactly one of the two counters. |
| Archiver.IgnoredLeaveNoTrace | project_tools/combine_code.py:190-191 | Files excluded by name change neither the archive nor the counters. |
| Archiver.PreviousArchiveIgnored | project_tools/combine_code.py:153-154 | A file in the tree named like the output, in any directory, changes neither the archive nor the counters. This is what protects an earlier archive when the output name is a bare file name (see "## Left out" for a name holding `/`). |
| Archiver.ArchiveIgnoresOrder | project_tools/combine_code.py:139-238 | Two trees with unique names per directory and the same normal form give the same archive and the same two counts. |
| Scenario.ScenarioVisits | project_tools/combine_code.py:164-189 | In a root with `a/b.txt`, `.git/ignored.txt` and `data/x.txt`, only `a/b.txt` is visited. |
| Scenario.ScenarioOutcome | project_tools/combine_code.py:199-227 | `a/b.txt` holding `hello` is archived as the block `<a/b.txt>\nhello\n</a/b.txt>\n\n`. |
| Scenario.EndToEnd | project_tools/combine_code.py:139-238 | For that tree the archive is the header followed by that single block, with processed count 1 and skipped count 0. |
| Text.Strip | project_tools/combine_code.py:223-225 | `str.strip` leaves no strippable character at either end of its result, so stripping again changes nothing. |
| Text.SplitJoin | project_tools/combine_code.py:194 | Joining names that hold no `c` with `c`, then splitting on `c`, gives the names back. |
| Text.JoinSplit | project_tools/combine_code.py:194 | Splitting a text on `c`, then joining the pieces with `c`, gives the text back. |
| Text.Join | project_tools/combine_code.py:118 | `sep.join(parts)` is empty for no parts. Otherwise it starts with the first part and ends with the last, and with two or more parts the separator follows the first and precedes the last. |
| Text.SplitLines | project_tools/verify_tushare_tokens.py:54 | `splitlines` gives lines holding no line boundary, and gives no lines exactly for the empty text. |
| Text.StripExact | project_tools/verify_tushare_tokens.py:55-61 | `str.strip` removes exactly the margins made of the stripped characters and keeps the middle. |
| Text.IndexOf | project_tools/verify_tushare_tokens.py:59 | The split point is the first `=`. Nothing before it is an `=`. |
| Text.SplitLinesTerminated | project_tools/verify_tushare_tokens.py:54 | `splitlines` on a text of newline-terminated lines gives those lines back. |
| Text.LexLeTotal | project_tools/combine_code.py:186-189 | The name order used for sorting is total. |
| Text.LexLeTransitive | project_tools/combine_code.py:186-189 | The name order is transitive. |
| Text.LexLeAntisymmetric | project_tools/combine_code.py:186-189 | The name order is antisymmetric. |
| Text.DecimalRoundTrip | project_tools/combine_code.py:114-116 | The decimal cell number in a label reads back as the number itself. |
| DotEnv.SelfAndParents | project_tools/verify_tushare_tokens.py:44 | The script directory and then each of its ancestors, down to the root, one per level. |
| DotEnv.EnvPathsToTry | project_tools/verify_tushare_tokens.py:39-45 | The candidate paths are the working directory's `.env`, then `.env` in the script directory and in each ancestor up to the root: `depth + 2` paths in all. |
| DotEnv.ParseLine | project_tools/verify_tushare_tokens.py:55-61 | A line is ignored iff, once stripped, it is blank, starts with `#` or has no `=`. Otherwise the key has no `=` and no surrounding whitespace, and the value does not start or end with `'`. |
| DotEnv.ParseLineRoundTrip | project_tools/verify_tushare_tokens.py:55-61 | A padded `KEY=value`, `KEY="value"` or `KEY='value'` line parses back to exactly `(KEY, value)`. |
| DotEnv.CommentGivesNothing | project_tools/verify_tushare_tokens.py:55-57 | A line whose first non-blank character is `#` sets nothing. |
| DotEnv.UnquoteValue | project_tools/verify_tushare_tokens.py:61 | Stripping `"` and then `'` removes exactly one enclosing pair of quotes from a value whose ends are not quotes or spaces. |
| DotEnv.EmptyQuotesSetEmpty | project_tools/verify_tushare_tokens.py:59-62 | A line `KEY=""` sets an unset `KEY` to the empty string. |
| DotEnv.FirstValue | project_tools/verify_tushare_tokens.py:54-62 | The value found for a key comes from the first line that parses to that key: no earlier line names it. If no value is found, no line parses to the key. |
| DotEnv.WithDefault | project_tools/verify_tushare_tokens.py:62 | `setdefault` on a map: the key is added. It keeps its old value when present and takes the new value otherwise, and every other key keeps its value. |
| DotEnv.ApplyLine | project_tools/verify_tushare_tokens.py:55-62 | An ignored line leaves the environment unchanged. A parsed line adds its key, and every existing variable keeps its value. |
| DotEnv.ApplyLines | project_tools/verify_tushare_tokens.py:54-62 | Applying a file's lines adds variables and never changes the value of one already set. |
| DotEnv.ApplyLinesFirstWins | project_tools/verify_tushare_tokens.py:54-62 | After applying a file, a key is set iff it was set before or some line gives it. An existing value is kept. Otherwise the first line giving the key wins. |
| DotEnv.FirstExisting | project_tools/verify_tushare_tokens.py:50-52 | The chosen candidate exists, and no earlier one does. If none is chosen, none exists. |
| DotEnv.Loaded | project_tools/verify_tushare_tokens.py:50-63 | With no existing candidate the environment is unchanged. Otherwise it only gains variables, and existing ones keep their values. |
| DotEnv.LoadingKeepsSetVariables | project_tools/verify_tushare_tokens.py:62 | Loading never overrides a variable already present in the environment. |
| DotEnv.WorkingDirectoryFirst | project_tools/verify_tushare_tokens.py:43-63 | When the working directory has a `.env`, it alone is loaded. |
| DotEnv.Environ.SetDefault | project_tools/verify_tushare_tokens.py:62 | `setdefault` sets the key only when it is absent. Afterwards the key is present. |
| DotEnv.LoadLocalEnv | project_tools/verify_tushare_tokens.py:48-63 | The loader applies the lines of the first existing candidate file, and only that one, to the environment. |
| TokenCheck.TokenOf | project_tools/verify_tushare_tokens.py:68-69 | `os.getenv` followed by `if not token`: no token iff the variable is unset or empty. Otherwise the token is its non-empty value. |
| TokenCheck.CheckToken | project_tools/verify_tushare_tokens.py:66-92 | A result names its variable. The check passes iff the variable holds a non-empty token and the endpoint returns a table. An unset or empty token fails with the "not set" message without calling the endpoint. A pass carries the table's JSON, a row flag that is true iff the table has rows, and the first row's user id or the placeholder `<未知>`. |
| TokenCheck.CheckAll | project_tools/verify_tushare_tokens.py:98 | One result per variable in `ENV_KEYS`, in order. |
| TokenCheck.ResultLines | project_tools/verify_tushare_tokens.py:101-112 | One result prints a 40-dash rule and `环境变量: <key>`, then one failure line or two success lines. The rule appears only as the first line. |
| TokenCheck.ReportLines | project_tools/verify_tushare_tokens.py:101-112 | The report prints between three and four lines per result. |
| TokenCheck.Report | project_tools/verify_tushare_tokens.py:99-115 | The printed lines are the report of every result in order. The run exits with the "no valid token" message iff no result passed. |
| TokenCheck.VerifyTokens | project_tools/verify_tushare_tokens.py:95-115 | `main` loads the `.env` file, reports both checks, and exits with an error iff both checks failed. |
| TokenCheck.EnvironmentTokenWins | project_tools/verify_tushare_tokens.py:62-68 | A token already in the environment is the one checked, whatever the `.env` files say. |
| TokenCheck.NoTokenNoSuccess | project_tools/verify_tushare_tokens.py:68-70 | With neither token set, no check passes (so the run exits with an error). |
| TokenCheck.QuotedEmptyTokenIsUnset | project_tools/verify_tushare_tokens.py:61-70 | A token set to `""` by the `.env` file is treated as unset. |

## Left out

- Reading files, opening the output file and writing to it are not modelled as I/O.
  - Each file is a value carrying its bytes, its UTF-8 text and its parsed notebook cells.
  - The archive is the text the writes produce.
  - A file that cannot be read is a file whose `raw` or `text` is absent.
  - `text` is what `read()` returns in text mode: UTF-8 decoded with replacement, with
    `\r\n` and `\r` turned into `\n`. The model takes that translated text as given.
  - An exception inside the per-file `try` is modelled where it can arise from these values.
- `json.load` and UTF-8 decoding with replacement are not modelled. The notebook is given as
  its parsed cell list, or as nothing when parsing fails. A document without `cells` is the
  empty cell list. A non-string `source` is given as the text of its `str()`.
- The outer `IOError`/`Exception` handlers (`project_tools/combine_code.py:247-250`) are not
  modelled. A failure to open the output file, or to write the header, is caught there and
  only logged. It is not fatal, and the summary is not logged.
- A failure to write a block (`project_tools/combine_code.py:224-226`) is not modelled. Those
  writes sit inside the per-file `try` that opens at line 197, so the handler at lines 234-238
  catches the error. The file is counted as skipped and the run goes on with the next file.
  Part of that file's block may already be in the output. The model treats every write as
  succeeding.
- Logging, `argparse`, `main` of the archiver and the resolution of `PROJECT_ROOT` are not
  modelled. None of them change the archive.
- A directory that cannot be listed is not modelled. `os.walk` without `onerror` raises
  nothing for it: it silently yields nothing for that directory, so its files touch neither
  counter. Every folder of the model's tree can be listed. Symbolic links are not modelled,
  because the tree has no links.
- The output file the run creates (`project_tools/combine_code.py:146` and `157`) is not part
  of the tree value. With a bare output name it sits at the root and is ignored by name, as
  `Archiver.PreviousArchiveIgnored` states. An output name holding a `/` (such as
  `--output docs/all.txt`) is added to the excluded names as given, but line 190 compares
  bare file names against it. The walk then reaches the file being written, reads it back,
  and archives part of the run's own output. The model does not capture this case.
- Names within one directory are unique in a file system. The tree value does not enforce
  this, so the order-independence lemmas take it as a precondition (`Walker.UniqueNames`).
- Text.Lower: maps only `A`-`Z`. Python's `str.lower` also folds non-ASCII letters, which
  could matter only for a non-ASCII suffix equal to an excluded extension once folded.
- Classifier.Suffix: follows `Path.suffix` of Python 3.13 and earlier. A name ending in a
  dot has no suffix.
- DotEnv.Environ.SetDefault: does not model the `ValueError` that `os.environ` raises for an
  empty key (a line such as `=value`), a key holding a NUL, or a value holding a NUL.
  The model sets such a variable.
- DotEnv.LoadLocalEnv: does not model a `.env` path that exists but is a directory, or a
  file that is not valid UTF-8. `read_text` raises in both cases.
- `Path.resolve` and `Path.cwd()` are parameters: the script's directory and the working
  directory. The file system is a map from existing `.env` paths to their text.
- The TuShare client (`ts.pro_api`, `pro.user`) is a function from a token to a reply: an
  error text, no table, or a table given by its user ids and its JSON text. The pandas
  `DataFrame` is not modelled beyond those.
- `print` output is modelled as the sequence of printed lines. `SystemExit` is modelled as
  the optional exit message.
