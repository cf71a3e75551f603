/**
  Helpers that give Python's built-in string operations (`str.strip`, `str.split`,
  `str.join`, `str.splitlines`, `str.lower`, `<` on `str`) their meaning on `seq<char>`.
 */
module Text {
  import opened Wrappers

  /** The characters for which Python's `str.isspace()` holds: what `str.strip()` removes. */
  const Whitespace: set<char> := {
    ' ', '\t', '\n', '\U{0B}', '\U{0C}', '\r', '\U{1C}', '\U{1D}', '\U{1E}', '\U{1F}',
    '\U{85}', '\U{A0}', '\U{1680}', '\U{2000}', '\U{2001}', '\U{2002}', '\U{2003}',
    '\U{2004}', '\U{2005}', '\U{2006}', '\U{2007}', '\U{2008}', '\U{2009}', '\U{200A}',
    '\U{2028}', '\U{2029}', '\U{202F}', '\U{205F}', '\U{3000}'
  }

  predicate AllIn(s: string, chars: set<char>) {
    forall k :: 0 <= k < |s| ==> s[k] in chars
  }

  /**
    Python's `s.strip(chars)`: the characters of `chars` are removed from the front,
    then from the back.
   */
  function StripChars(s: string, chars: set<char>): (r: string)
    ensures |r| <= |s|
    ensures r == [] <==> AllIn(s, chars)
    ensures r != [] ==> r[0] !in chars && r[|r| - 1] !in chars
    decreases |s|
  {
    if s == [] then []
    else if s[0] in chars then
      var r := StripChars(s[1..], chars);
      assert AllIn(s, chars) <==> AllIn(s[1..], chars);
      r
    else if s[|s| - 1] in chars then StripChars(s[..|s| - 1], chars)
    else s
  }

  /** Python's `s.strip()`, which is idempotent (what `StripChars` states holds of it too). */
  function Strip(s: string): (r: string)
    ensures StripChars(r, Whitespace) == r
  {
    var r := StripChars(s, Whitespace);
    StripKeeps(r, Whitespace);
    r
  }

  /** A string that neither starts nor ends with one of `chars` is left as it is. */
  lemma StripKeeps(s: string, chars: set<char>)
    requires s == [] || (s[0] !in chars && s[|s| - 1] !in chars)
    ensures StripChars(s, chars) == s
  {
  }

  /**
    Strip removes exactly the margins made of `chars`: whatever sits between two runs of
    them and does not itself begin or end with one of them is what comes out.
   */
  lemma {:induction false} StripExact(a: string, m: string, b: string, chars: set<char>)
    requires AllIn(a, chars) && AllIn(b, chars)
    requires m == [] || (m[0] !in chars && m[|m| - 1] !in chars)
    ensures StripChars(a + m + b, chars) == m
    decreases |a| + |b|
  {
    var s := a + m + b;
    if m == [] {
      assert AllIn(s, chars);
    } else if a != [] {
      assert s[1..] == a[1..] + m + b;
      StripExact(a[1..], m, b, chars);
    } else if b != [] {
      assert s[..|s| - 1] == a + m + b[..|b| - 1];
      StripExact(a, m, b[..|b| - 1], chars);
    } else {
      assert s == m;
    }
  }

  predicate StartsWith(s: string, prefix: string) {
    |prefix| <= |s| && s[..|prefix|] == prefix
  }

  predicate EndsWith(s: string, suffix: string) {
    |suffix| <= |s| && s[|s| - |suffix|..] == suffix
  }

  /** Position of the first `c` in `s` (what `s.split(c, 1)` cuts at). */
  function IndexOf(s: string, c: char): (r: Option<nat>)
    ensures r.None? <==> c !in s
    ensures r.Some? ==> r.value < |s| && s[r.value] == c && c !in s[..r.value]
  {
    if s == [] then None
    else if s[0] == c then Some(0)
    else match IndexOf(s[1..], c)
      case None => None
      case Some(k) =>
        assert s[..k + 1] == [s[0]] + s[1..][..k];
        Some(k + 1)
  }

  /** Position of the last `c` in `s` (Python's `s.rfind(c)`). */
  function LastIndexOf(s: string, c: char): (r: Option<nat>)
    ensures r.None? <==> c !in s
    ensures r.Some? ==> r.value < |s| && s[r.value] == c && c !in s[r.value + 1..]
  {
    if s == [] then None
    else if s[|s| - 1] == c then Some(|s| - 1)
    else
      var r := LastIndexOf(s[..|s| - 1], c);
      assert s == s[..|s| - 1] + [s[|s| - 1]];
      if r.Some? then assert s[r.value + 1..] == s[..|s| - 1][r.value + 1..] + [s[|s| - 1]]; r
      else r
  }

  /**
    Python's `sep.join(parts)`: the first part opens the result and the last closes it,
    with a separator after the first and before the last when there are two or more.
   */
  function Join(sep: string, parts: seq<string>): (r: string)
    ensures parts == [] ==> r == []
    ensures parts != [] ==> StartsWith(r, parts[0]) && EndsWith(r, parts[|parts| - 1])
    ensures |parts| >= 2 ==> StartsWith(r, parts[0] + sep) && EndsWith(r, sep + parts[|parts| - 1])
  {
    if parts == [] then ""
    else if |parts| == 1 then parts[0]
    else
      var rest := Join(sep, parts[1..]);
      JoinCons(sep, parts, rest);
      parts[0] + sep + rest
  }

  /** With the empty separator, a join is the first part followed by the join of the rest. */
  lemma JoinEmptyCons(first: string, rest: seq<string>)
    ensures Join("", [first] + rest) == first + Join("", rest)
  {
    if rest == [] {
      assert [first] + rest == [first] && first + "" == first;
    } else {
      assert ([first] + rest)[1..] == rest;
    }
  }

  /** Python's `s.split(c)` for a one-character separator. */
  function SplitOn(s: string, c: char): (r: seq<string>)
    ensures r != []
    ensures forall i :: 0 <= i < |r| ==> c !in r[i]
    decreases |s|
  {
    match IndexOf(s, c)
    case None => [s]
    case Some(i) => [s[..i]] + SplitOn(s[i + 1..], c)
  }

  /** Joining parts that hold no `c` with `c`, then splitting on `c`, gives the parts back. */
  lemma {:induction false} SplitJoin(c: char, parts: seq<string>)
    requires parts != []
    requires forall i :: 0 <= i < |parts| ==> c !in parts[i]
    ensures SplitOn(Join([c], parts), c) == parts
  {
    if |parts| >= 2 {
      var first, rest := parts[0], Join([c], parts[1..]);
      JoinStep([c], parts);
      SplitCons(first, c, rest);
      SplitJoin(c, parts[1..]);
      assert parts == [first] + parts[1..];
    } else {
      assert Join([c], parts) == parts[0] && c !in parts[0];
      assert SplitOn(parts[0], c) == [parts[0]];
    }
  }

  lemma JoinStep(sep: string, parts: seq<string>)
    requires |parts| >= 2
    ensures Join(sep, parts) == parts[0] + sep + Join(sep, parts[1..])
  {
  }

  /** Splitting `a + [c] + b` on `c` cuts after `a` when `a` holds no `c`. */
  lemma SplitCons(a: string, c: char, b: string)
    requires c !in a
    ensures SplitOn(a + [c] + b, c) == [a] + SplitOn(b, c)
  {
    var s := a + [c] + b;
    IndexOfAfter(a, c, b);
    assert s[..|a|] == a && s[|a| + 1..] == b;
  }

  /** Splitting on `c`, then joining with `c`, gives the text back. */
  lemma {:induction false} JoinSplit(s: string, c: char)
    ensures Join([c], SplitOn(s, c)) == s
    decreases |s|
  {
    if c in s {
      var i := IndexOf(s, c).value;
      var rest := SplitOn(s[i + 1..], c);
      var parts := [s[..i]] + rest;
      assert SplitOn(s, c) == parts;
      assert parts[0] == s[..i] && parts[1..] == rest && |parts| >= 2;
      assert Join([c], parts) == s[..i] + [c] + Join([c], rest);
      JoinSplit(s[i + 1..], c);
      Around(s, i);
    }
  }

  /** The first `c` of `a + [c] + b` is the one after `a` when `a` holds none. */
  lemma IndexOfAfter(a: string, c: char, b: string)
    requires c !in a
    ensures IndexOf(a + [c] + b, c) == Some(|a|)
  {
    var s := a + [c] + b;
    assert s[..|a|] == a && s[|a|] == c;
    IndexOfIs(s, c, |a|);
  }

  /** A `c` with none before it is the first. */
  lemma {:induction false} IndexOfIs(s: string, c: char, i: nat)
    requires i < |s| && s[i] == c && c !in s[..i]
    ensures IndexOf(s, c) == Some(i)
  {
    if i > 0 {
      assert s[0] == s[..i][0];
      assert s[1..][i - 1] == c && s[1..][..i - 1] == s[..i][1..];
      IndexOfIs(s[1..], c, i - 1);
    }
  }

  lemma Around(s: string, i: nat)
    requires i < |s|
    ensures s == s[..i] + [s[i]] + s[i + 1..]
  {
  }

  /** Putting the first part and a separator before the join of the others keeps its affixes. */
  lemma JoinCons(sep: string, parts: seq<string>, rest: string)
    requires |parts| >= 2
    requires StartsWith(rest, parts[1]) && EndsWith(rest, parts[|parts| - 1])
    requires |parts| >= 3 ==> EndsWith(rest, sep + parts[|parts| - 1])
    requires |parts| == 2 ==> rest == parts[1]
    ensures var r := parts[0] + sep + rest;
      && StartsWith(r, parts[0]) && EndsWith(r, parts[|parts| - 1])
      && StartsWith(r, parts[0] + sep) && EndsWith(r, sep + parts[|parts| - 1])
  {
    var first, last := parts[0], parts[|parts| - 1];
    var r := first + sep + rest;
    StartsWithAppend(first + sep, rest);
    StartsWithAppend(first, sep);
    StartsWithTrans(r, first + sep, first);
    if |parts| == 2 {
      EndsWithBoth(first, sep, last);
    } else {
      EndsWithAppend(first + sep, rest);
      EndsWithTrans(r, rest, sep + last);
      EndsWithTrans(r, rest, last);
    }
  }

  lemma EndsWithBoth(first: string, sep: string, last: string)
    ensures EndsWith(first + sep + last, sep + last) && EndsWith(first + sep + last, last)
  {
    var r := first + sep + last;
    assert r == first + (sep + last);
    EndsWithAppend(first, sep + last);
    EndsWithAppend(sep, last);
    EndsWithTrans(r, sep + last, last);
  }

  lemma StartsWithAppend(a: string, b: string)
    ensures StartsWith(a + b, a)
  {
    assert (a + b)[..|a|] == a;
  }

  lemma EndsWithAppend(a: string, b: string)
    ensures EndsWith(a + b, b)
  {
    assert (a + b)[|a|..] == b;
  }

  lemma StartsWithTrans(s: string, t: string, u: string)
    requires StartsWith(s, t) && StartsWith(t, u)
    ensures StartsWith(s, u)
  {
    assert s[..|u|] == s[..|t|][..|u|];
  }

  lemma EndsWithTrans(s: string, t: string, u: string)
    requires EndsWith(s, t) && EndsWith(t, u)
    ensures EndsWith(s, u)
  {
    assert s[|s| - |u|..] == s[|s| - |t|..][|t| - |u|..];
  }

  /** ASCII part of Python's `str.lower()`. */
  function LowerChar(c: char): char {
    if 'A' <= c <= 'Z' then (c as int + 32) as char else c
  }

  function Lower(s: string): (r: string)
    ensures |r| == |s|
  {
    seq(|s|, i requires 0 <= i < |s| => LowerChar(s[i]))
  }

  /** Python's ordering of `str` values: code point by code point, a prefix first. */
  predicate LexLe(a: string, b: string) {
    a == [] || (b != [] && (a[0] < b[0] || (a[0] == b[0] && LexLe(a[1..], b[1..]))))
  }

  lemma {:induction false} LexLeTotal(a: string, b: string)
    ensures LexLe(a, b) || LexLe(b, a)
  {
    if a != [] && b != [] && a[0] == b[0] {
      LexLeTotal(a[1..], b[1..]);
    }
  }

  lemma {:induction false} LexLeTransitive(a: string, b: string, c: string)
    requires LexLe(a, b) && LexLe(b, c)
    ensures LexLe(a, c)
  {
    if a != [] && b != [] && c != [] && a[0] == b[0] == c[0] {
      LexLeTransitive(a[1..], b[1..], c[1..]);
    }
  }

  lemma {:induction false} LexLeAntisymmetric(a: string, b: string)
    requires LexLe(a, b) && LexLe(b, a)
    ensures a == b
  {
    if a != [] && b != [] {
      LexLeAntisymmetric(a[1..], b[1..]);
      assert a == [a[0]] + a[1..] && b == [b[0]] + b[1..];
    }
  }

  function DigitChar(d: nat): char
    requires d < 10
  {
    ('0' as int + d) as char
  }

  /** Python's `str(n)` for a non-negative integer. */
  function DecimalString(n: nat): (r: string)
    ensures r != []
    ensures forall k :: 0 <= k < |r| ==> '0' <= r[k] <= '9'
    decreases n
  {
    if n < 10 then [DigitChar(n)] else DecimalString(n / 10) + [DigitChar(n % 10)]
  }

  predicate IsDigits(s: string) {
    forall k :: 0 <= k < |s| ==> '0' <= s[k] <= '9'
  }

  /** Reads a string of decimal digits back as a number (Python's `int(s)` on digits). */
  function DecimalValue(s: string): nat
    requires IsDigits(s)
  {
    if s == [] then 0 else DecimalValue(s[..|s| - 1]) * 10 + (s[|s| - 1] as int - '0' as int)
  }

  lemma {:induction false} DecimalRoundTrip(n: nat)
    ensures DecimalValue(DecimalString(n)) == n
    decreases n
  {
    if n >= 10 {
      var s := DecimalString(n);
      assert s[..|s| - 1] == DecimalString(n / 10);
      DecimalRoundTrip(n / 10);
    }
  }

  /** The line boundaries of Python's `str.splitlines()` (`\r\n` counts as one). */
  predicate IsLineBreak(c: char) {
    c == '\n' || c == '\r' || c == '\U{0B}' || c == '\U{0C}' || '\U{1C}' <= c <= '\U{1E}'
    || c == '\U{85}' || c == '\U{2028}' || c == '\U{2029}'
  }

  predicate NoLineBreak(s: string) {
    forall k :: 0 <= k < |s| ==> !IsLineBreak(s[k])
  }

  /** Index of the first line boundary in `s`, or `|s|` when there is none. */
  function FirstBreak(s: string): (k: nat)
    ensures k <= |s| && NoLineBreak(s[..k])
    ensures k < |s| ==> IsLineBreak(s[k])
  {
    if s == [] || IsLineBreak(s[0]) then 0
    else
      var k := FirstBreak(s[1..]);
      assert s[..k + 1] == [s[0]] + s[1..][..k];
      k + 1
  }

  /** Python's `s.splitlines()`: no empty last line after a final boundary. */
  function SplitLines(s: string): (lines: seq<string>)
    ensures forall i :: 0 <= i < |lines| ==> NoLineBreak(lines[i])
    ensures lines == [] <==> s == []
    decreases |s|
  {
    if s == [] then []
    else
      var k := FirstBreak(s);
      if k == |s| then [s]
      else
        var next := if s[k] == '\r' && k + 1 < |s| && s[k + 1] == '\n' then k + 2 else k + 1;
        [s[..k]] + SplitLines(s[next..])
  }

  /** The text of `lines`, each ended by `\n`. */
  function Terminated(lines: seq<string>): string {
    if lines == [] then "" else lines[0] + "\n" + Terminated(lines[1..])
  }

  /** Splitting a text made of `\n`-terminated lines gives back those lines. */
  lemma {:induction false} SplitLinesTerminated(lines: seq<string>)
    requires forall i :: 0 <= i < |lines| ==> NoLineBreak(lines[i])
    ensures SplitLines(Terminated(lines)) == lines
  {
    if lines != [] {
      var l := lines[0];
      var s := Terminated(lines);
      var rest := Terminated(lines[1..]);
      assert s == l + "\n" + rest;
      var k := FirstBreak(s);
      assert s[..|l|] == l && s[|l|] == '\n';
      assert k == |l|;
      assert s[..k] == l;
      assert s[k + 1..] == rest;
      assert SplitLines(s) == [l] + SplitLines(rest);
      SplitLinesTerminated(lines[1..]);
    }
  }
}
