/** The Python `str` operations the indexer is built from, over `string`
    (a `seq<char>`). Each one follows the CPython method it is named after. */
module Text {

  /** `str.isspace` (and the regular-expression class `\s`): the ASCII
      whitespace controls, the four information separators, NEL, NBSP and
      the Unicode space separators. */
  predicate IsSpace(c: char) {
    || c == ' '
    || ('\t' <= c <= '\r')
    || ('\U{1C}' <= c <= '\U{1F}')
    || c == '\U{85}' || c == '\U{A0}' || c == '\U{1680}'
    || ('\U{2000}' <= c <= '\U{200A}')
    || c == '\U{2028}' || c == '\U{2029}' || c == '\U{202F}'
    || c == '\U{205F}' || c == '\U{3000}'
  }

  /** `str.isalnum`, restricted to ASCII letters and digits. */
  predicate IsAlnum(c: char) {
    ('a' <= c <= 'z') || ('A' <= c <= 'Z') || ('0' <= c <= '9')
  }

  /** The regular-expression class `\w`: letters, digits and `_`. */
  predicate IsWordChar(c: char) {
    IsAlnum(c) || c == '_'
  }

  /** Every character of `s` is a word character. */
  predicate AllWord(s: string) {
    forall i :: 0 <= i < |s| ==> IsWordChar(s[i])
  }

  predicate StartsWith(s: string, prefix: string) {
    |prefix| <= |s| && s[..|prefix|] == prefix
  }

  predicate EndsWith(s: string, suffix: string) {
    |suffix| <= |s| && s[|s| - |suffix|..] == suffix
  }

  /** `sub` occurs in `s` starting at index `i`. */
  predicate OccursAt(s: string, sub: string, i: int) {
    0 <= i && i + |sub| <= |s| && s[i..i + |sub|] == sub
  }

  /** `str.strip()`: leading and trailing whitespace removed. The result
      is a run of `s`, begins and ends with a non-space, and a text that
      already does so is left as it is. */
  function Strip(s: string): (r: string)
    ensures |r| <= |s|
    ensures r == [] || (!IsSpace(r[0]) && !IsSpace(r[|r| - 1]))
    ensures forall i :: 0 <= i < |r| ==> r[i] in s
    ensures (s == [] || (!IsSpace(s[0]) && !IsSpace(s[|s| - 1]))) ==> r == s
    ensures (forall i :: 0 <= i < |s| ==> IsSpace(s[i])) <==> r == []
    decreases |s|
  {
    if s != [] && IsSpace(s[0]) then
      assert forall i :: 1 <= i < |s| ==> s[i] == s[1..][i - 1];
      Strip(s[1..])
    else if s != [] && IsSpace(s[|s| - 1]) then
      assert forall i :: 0 <= i < |s| - 1 ==> s[i] == s[..|s| - 1][i];
      Strip(s[..|s| - 1])
    else s
  }

  /** Leading whitespace makes no difference to `strip`. */
  lemma {:induction false} StripAfterSpaces(s: string, k: nat)
    requires k <= |s| && forall i :: 0 <= i < k ==> IsSpace(s[i])
    ensures Strip(s[k..]) == Strip(s)
    decreases k
  {
    if k > 0 {
      assert s[1..][k - 1..] == s[k..];
      StripAfterSpaces(s[1..], k - 1);
    }
  }

  /** A front that begins and ends with a non-space survives `strip`
      whole, whatever text follows it. */
  lemma {:induction false} StripKeepsFront(p: string, u: string)
    requires p != [] && !IsSpace(p[0]) && !IsSpace(p[|p| - 1])
    ensures StartsWith(Strip(p + u), p)
    decreases |u|
  {
    var s := p + u;
    assert s[0] == p[0];
    if u != [] && IsSpace(u[|u| - 1]) {
      assert s[..|s| - 1] == p + u[..|u| - 1];
      StripKeepsFront(p, u[..|u| - 1]);
    } else {
      assert s[|s| - 1] == (if u == [] then p[|p| - 1] else u[|u| - 1]);
      assert s[..|p|] == p;
    }
  }

  /** `str.lstrip(chars)` for an explicit character set. */
  function LStripAny(s: string, chars: set<char>): (r: string)
    ensures |r| <= |s| && r == s[|s| - |r|..]
    ensures r == [] || r[0] !in chars
    ensures forall i :: 0 <= i < |s| - |r| ==> s[i] in chars
  {
    if s != [] && s[0] in chars then LStripAny(s[1..], chars) else s
  }

  /** `str.rstrip(chars)` for an explicit character set. */
  function RStripAny(s: string, chars: set<char>): (r: string)
    ensures |r| <= |s| && r == s[..|r|]
    ensures r == [] || r[|r| - 1] !in chars
    ensures forall i :: |r| <= i < |s| ==> s[i] in chars
  {
    if s != [] && s[|s| - 1] in chars then RStripAny(s[..|s| - 1], chars) else s
  }

  /** `s.find(sub, start)`: the first index at or after `start` where `sub`
      occurs, or -1. */
  function FindFrom(s: string, sub: string, start: nat): (r: int)
    ensures r == -1 || (start <= r && OccursAt(s, sub, r))
    ensures r == -1 ==> forall i :: start <= i ==> !OccursAt(s, sub, i)
    ensures r != -1 ==> forall i :: start <= i < r ==> !OccursAt(s, sub, i)
    decreases |s| - start
  {
    if start + |sub| > |s| then
      assert forall i :: start <= i ==> !OccursAt(s, sub, i);
      -1
    else if s[start..start + |sub|] == sub then start
    else FindFrom(s, sub, start + 1)
  }

  /** Searching after a prefix is searching the rest, shifted. */
  lemma {:induction false} FindFromShift(p: string, u: string, sub: string, k: nat)
    ensures FindFrom(p + u, sub, |p| + k)
         == if FindFrom(u, sub, k) == -1 then -1 else |p| + FindFrom(u, sub, k)
    decreases |u| - k
  {
    if k + |sub| <= |u| {
      assert (p + u)[|p| + k..|p| + k + |sub|] == u[k..k + |sub|];
      FindFromShift(p, u, sub, k + 1);
    }
  }

  /** `s.find(sub)` */
  function Find(s: string, sub: string): (r: int)
    ensures r == -1 || OccursAt(s, sub, r)
    ensures r == -1 <==> forall i :: !OccursAt(s, sub, i)
    ensures r != -1 ==> forall i :: i < r ==> !OccursAt(s, sub, i)
  {
    FindFrom(s, sub, 0)
  }

  /** Python's `sub in s`. */
  predicate Contains(s: string, sub: string) {
    Find(s, sub) >= 0
  }

  /** `s.find(c)` for a single character. */
  function FindChar(s: string, c: char): (r: int)
    ensures r == -1 <==> c !in s
    ensures r != -1 ==> 0 <= r < |s| && s[r] == c && c !in s[..r]
  {
    if s == [] then -1
    else if s[0] == c then 0
    else
      var r := FindChar(s[1..], c);
      assert s == [s[0]] + s[1..];
      if r == -1 then -1
      else
        assert s[..r + 1] == [s[0]] + s[1..][..r];
        r + 1
  }

  /** `find` returns the first occurrence: a `c` with none before it. */
  lemma FindCharAt(s: string, c: char, k: nat)
    requires k < |s| && s[k] == c && c !in s[..k]
    ensures FindChar(s, c) == k
  {
    var r := FindChar(s, c);
    assert c in s by {
      assert s[k] == c;
    }
  }

  /** Index of the last `c` in `s`, or -1 (`s.rfind(c)`). */
  function RFindChar(s: string, c: char): (r: int)
    ensures r == -1 <==> c !in s
    ensures r != -1 ==> 0 <= r < |s| && s[r] == c && c !in s[r + 1..]
  {
    if s == [] then -1
    else if s[|s| - 1] == c then |s| - 1
    else
      assert s == s[..|s| - 1] + [s[|s| - 1]];
      RFindChar(s[..|s| - 1], c)
  }

  /** `rfind` returns the last occurrence: a `c` with none after it. */
  lemma RFindCharAt(s: string, c: char, k: nat)
    requires k < |s| && s[k] == c && c !in s[k + 1..]
    ensures RFindChar(s, c) == k
  {
    var r := RFindChar(s, c);
    assert c in s by {
      assert s[k] == c;
    }
  }

  /** `s.count(c)` for a single character. */
  function CountChar(s: string, c: char): (r: nat)
    ensures r <= |s|
    ensures r == 0 <==> c !in s
  {
    if s == [] then 0 else (if s[0] == c then 1 else 0) + CountChar(s[1..], c)
  }

  lemma CountCharAppend(a: string, b: string, c: char)
    ensures CountChar(a + b, c) == CountChar(a, c) + CountChar(b, c)
  {
    if a != [] {
      assert (a + b)[1..] == a[1..] + b;
      CountCharAppend(a[1..], b, c);
    } else {
      assert a + b == b;
    }
  }

  /** Python's slice `s[lo:hi]` for non-negative bounds: out-of-range bounds
      are clamped and a reversed range is empty. */
  function Slice(s: string, lo: nat, hi: nat): (r: string)
    ensures |r| <= |s|
    ensures lo <= hi <= |s| ==> r == s[lo..hi]
  {
    var h := if hi <= |s| then hi else |s|;
    if lo >= h then [] else s[lo..h]
  }

  /** `sep.join(parts)` */
  function Join(parts: seq<string>, sep: string): (r: string)
    ensures parts == [] ==> r == []
    ensures |parts| == 1 ==> r == parts[0]
  {
    if parts == [] then []
    else if |parts| == 1 then parts[0]
    else parts[0] + sep + Join(parts[1..], sep)
  }

  lemma JoinAppend(parts: seq<string>, last: string, sep: string)
    requires parts != []
    ensures Join(parts + [last], sep) == Join(parts, sep) + sep + last
  {
    if |parts| == 1 {
      assert (parts + [last])[1..] == [last];
    } else {
      assert (parts + [last])[1..] == parts[1..] + [last];
      JoinAppend(parts[1..], last, sep);
    }
  }

  /** `s.split(c)` for a single-character separator: every separator splits,
      so there is always one more part than there are separators. */
  function SplitChar(s: string, c: char): (r: seq<string>)
    ensures |r| == CountChar(s, c) + 1
    ensures forall i :: 0 <= i < |r| ==> c !in r[i]
    ensures Join(r, [c]) == s
    decreases |s|
  {
    var i := FindChar(s, c);
    if i == -1 then [s]
    else
      var rest := SplitChar(s[i + 1..], c);
      SplitCharStep(s, c, i, rest);
      [s[..i]] + rest
  }

  lemma SplitCharStep(s: string, c: char, i: int, rest: seq<string>)
    requires 0 <= i < |s| && s[i] == c && c !in s[..i]
    requires |rest| == CountChar(s[i + 1..], c) + 1
    requires Join(rest, [c]) == s[i + 1..]
    ensures |[s[..i]] + rest| == CountChar(s, c) + 1
    ensures Join([s[..i]] + rest, [c]) == s
  {
    assert s == s[..i] + [c] + s[i + 1..];
    CountCharAppend(s[..i] + [c], s[i + 1..], c);
    CountCharAppend(s[..i], [c], c);
    assert CountChar(s[..i], c) == 0;
    assert ([s[..i]] + rest)[1..] == rest;
  }

  /** The text after the last `c` (`s.rsplit(c, 1)[-1]`), or all of `s`. */
  function AfterLast(s: string, c: char): (r: string)
    ensures c !in r
    ensures EndsWith(s, r)
    ensures c in s ==> |r| < |s| && s[|s| - |r| - 1] == c
  {
    var i := RFindChar(s, c);
    if i == -1 then s else s[i + 1..]
  }

  /** The longest prefix of `s` made of word characters (what the pattern
      `\w+` matches at the start of `s`, when it matches at all). */
  function LeadingWord(s: string): (r: string)
    ensures StartsWith(s, r) && AllWord(r)
    ensures |r| < |s| ==> !IsWordChar(s[|r|])
  {
    if s != [] && IsWordChar(s[0]) then [s[0]] + LeadingWord(s[1..]) else []
  }

  /** Number of leading characters of `s[from..]` that are whitespace. */
  function SkipSpaces(s: string, from: nat): (r: nat)
    requires from <= |s|
    ensures from <= r <= |s|
    ensures forall i :: from <= i < r ==> IsSpace(s[i])
    ensures r == |s| || !IsSpace(s[r])
    decreases |s| - from
  {
    if from < |s| && IsSpace(s[from]) then SkipSpaces(s, from + 1) else from
  }

  /** Index after the word run that starts at `from`. */
  function SkipWord(s: string, from: nat): (r: nat)
    requires from <= |s|
    ensures from <= r <= |s|
    ensures forall i :: from <= i < r ==> IsWordChar(s[i])
    ensures r == |s| || !IsWordChar(s[r])
    decreases |s| - from
  {
    if from < |s| && IsWordChar(s[from]) then SkipWord(s, from + 1) else from
  }

  /** The characters `str.splitlines` breaks a line at. */
  predicate IsLineBreak(c: char) {
    || c == '\n' || c == '\r' || c == '\U{0B}' || c == '\U{0C}'
    || ('\U{1C}' <= c <= '\U{1E}')
    || c == '\U{85}' || c == '\U{2028}' || c == '\U{2029}'
  }

  /** Index of the first line-break character of `s`, or `|s|`. */
  function LineEnd(s: string): (r: nat)
    ensures r <= |s|
    ensures forall i :: 0 <= i < r ==> !IsLineBreak(s[i])
    ensures r < |s| ==> IsLineBreak(s[r])
  {
    if s == [] || IsLineBreak(s[0]) then 0 else 1 + LineEnd(s[1..])
  }

  /** `str.splitlines()`: the lines of `s` without their terminators, where
      `\r\n` counts as one terminator and a final terminator does not start
      an extra empty line. */
  function SplitLines(s: string): (r: seq<string>)
    ensures forall k, i :: 0 <= k < |r| && 0 <= i < |r[k]| ==> !IsLineBreak(r[k][i])
    ensures s == [] <==> r == []
    decreases |s|
  {
    if s == [] then []
    else
      var e := LineEnd(s);
      if e == |s| then [s]
      else
        var next := if s[e] == '\r' && e + 1 < |s| && s[e + 1] == '\n' then e + 2 else e + 1;
        [s[..e]] + SplitLines(s[next..])
  }

  /** A line without a break ends where the next break begins. */
  lemma {:induction false} LineEndAtBreak(a: string, x: string)
    requires forall i :: 0 <= i < |a| ==> !IsLineBreak(a[i])
    requires x != [] && IsLineBreak(x[0])
    ensures LineEnd(a + x) == |a|
    decreases |a|
  {
    if a != [] {
      assert (a + x)[1..] == a[1..] + x;
      LineEndAtBreak(a[1..], x);
    }
  }

  /** A line without a break followed by `\n` is the first line. */
  lemma SplitLinesCons(a: string, rest: string)
    requires forall i :: 0 <= i < |a| ==> !IsLineBreak(a[i])
    ensures SplitLines(a + "\n" + rest) == [a] + SplitLines(rest)
  {
    var s := a + "\n" + rest;
    assert s == a + ("\n" + rest);
    LineEndAtBreak(a, "\n" + rest);
    assert s[..|a|] == a && s[|a|] == '\n' && s[|a| + 1..] == rest;
  }

  /** Lines without breaks, the last one not empty, joined with `\n` split
      back into the same lines. */
  lemma {:induction false} SplitJoinLines(lines: seq<string>)
    requires lines != [] && lines[|lines| - 1] != []
    requires forall k, i :: 0 <= k < |lines| && 0 <= i < |lines[k]| ==> !IsLineBreak(lines[k][i])
    ensures SplitLines(Join(lines, "\n")) == lines
    decreases |lines|
  {
    if |lines| == 1 {
      assert LineEnd(lines[0]) == |lines[0]|;
    } else {
      assert lines[1..][|lines[1..]| - 1] == lines[|lines| - 1];
      SplitJoinLines(lines[1..]);
      SplitLinesCons(lines[0], Join(lines[1..], "\n"));
    }
  }
}
